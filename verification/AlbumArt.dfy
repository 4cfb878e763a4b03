/** The album-art cache: the ten most recently touched hashes, and the files they stand for. */
module AlbumArt {
  import opened Bytes
  import opened Payload

  const LRU_MAX := 10
  const DIR := "/config/kdeconnect/album_art"

  function ImgPath(hash: string): string {
    DIR + "/" + hash
  }

  lemma PathsDiffer(h: string, k: string)
    requires ImgPath(h) == ImgPath(k)
    ensures h == k
  {
    assert ImgPath(h)[|DIR| + 1..] == h && ImgPath(k)[|DIR| + 1..] == k;
  }

  // ----- The list

  function Without(list: seq<string>, h: string): (r: seq<string>)
    ensures |r| <= |list| && h !in r && forall k :: k in r <==> k in list && k != h
  {
    if list == [] then []
    else if list[0] == h then Without(list[1..], h)
    else [list[0]] + Without(list[1..], h)
  }

  predicate Distinct(list: seq<string>) {
    forall i, j :: 0 <= i < j < |list| ==> list[i] != list[j]
  }

  function Take(list: seq<string>, n: nat): (r: seq<string>)
    ensures |r| <= n && r <= list
  {
    if |list| <= n then list else list[..n]
  }

  /** The list after a hash was touched. */
  function Touched(list: seq<string>, h: string): seq<string> {
    if h == "" then list else Take([h] + Without(list, h), LRU_MAX)
  }

  lemma {:induction false} WithoutOne(list: seq<string>, i: nat)
    requires Distinct(list) && i < |list|
    ensures Without(list, list[i]) == list[..i] + list[i + 1..]
  {
    var h := list[i];
    if i == 0 {
      WithoutNone(list[1..], h);
    } else {
      WithoutOne(list[1..], i - 1);
      assert list[1..][..i - 1] == list[1..i] && list[1..][i..] == list[i + 1..];
      assert [list[0]] + list[1..i] == list[..i];
    }
  }

  lemma {:induction false} WithoutNone(list: seq<string>, h: string)
    requires h !in list
    ensures Without(list, h) == list
  {
    if list != [] { WithoutNone(list[1..], h); }
  }

  // ----- Most recently touched

  /** When a hash was last touched. */
  ghost function LastTouch(history: seq<string>, h: string): (t: Option<nat>)
    ensures t.Some? ==> t.value < |history| && history[t.value] == h
    ensures forall i :: 0 <= i < |history| && history[i] == h ==> t.Some? && i <= t.value
  {
    if history == [] then None
    else if history[|history| - 1] == h then Some(|history| - 1)
    else LastTouch(history[..|history| - 1], h)
  }

  lemma LastTouchSnoc(history: seq<string>, k: string, h: string)
    ensures LastTouch(history + [k], h) == if k == h then Some(|history|) else LastTouch(history, h)
  {
    assert (history + [k])[..|history|] == history;
  }

  ghost predicate WasTouched(history: seq<string>, h: string) {
    h != "" && LastTouch(history, h).Some?
  }

  /** h was touched more recently than k. */
  ghost predicate After(history: seq<string>, h: string, k: string) {
    WasTouched(history, h) && WasTouched(history, k) && LastTouch(history, h).value > LastTouch(history, k).value
  }

  /** The list holds the ten hashes touched last, the most recent first, or all if there are fewer. */
  ghost predicate MostRecent(list: seq<string>, history: seq<string>) {
    && |list| <= LRU_MAX
    && (forall i :: 0 <= i < |list| ==> WasTouched(history, list[i]))
    && (forall i, j :: 0 <= i < j < |list| ==> After(history, list[i], list[j]))
    && (forall h :: WasTouched(history, h) && h !in list ==>
          |list| == LRU_MAX && forall i :: 0 <= i < |list| ==> After(history, list[i], h))
  }

  lemma AfterSnoc(history: seq<string>, h: string, a: string, b: string)
    requires h != "" && b != h
    ensures a != h ==> (After(history + [h], a, b) <==> After(history, a, b))
    ensures a == h ==> (After(history + [h], a, b) <==> WasTouched(history, b))
  {
    LastTouchSnoc(history, h, a);
    LastTouchSnoc(history, h, b);
  }

  lemma TouchedSnoc(history: seq<string>, h: string, a: string)
    ensures WasTouched(history + [h], a) <==> a != "" && (a == h || WasTouched(history, a))
  {
    LastTouchSnoc(history, h, a);
  }

  lemma RecentDistinct(list: seq<string>, history: seq<string>)
    requires MostRecent(list, history)
    ensures Distinct(list) && "" !in list
  {
    hide LastTouch;
    forall i, j | 0 <= i < j < |list| ensures list[i] != list[j] {
      assert After(history, list[i], list[j]);
    }
  }

  /** The elements behind a newly touched hash: the old list without it, cut to nine. */
  lemma TailOf(list: seq<string>, h: string)
    requires Distinct(list) && |list| <= LRU_MAX && h != ""
    ensures var t := Touched(list, h); |t| >= 1 && t[0] == h && t[1..] == Take(Without(list, h), LRU_MAX - 1)
  {
  }

  /** Order and range of the elements behind, in terms of the old list. */
  lemma TailAt(list: seq<string>, h: string, i: nat) returns (m: nat)
    requires Distinct(list) && |list| <= LRU_MAX && i < |Take(Without(list, h), LRU_MAX - 1)|
    ensures m < |list| && Take(Without(list, h), LRU_MAX - 1)[i] == list[m] != h
    ensures m == if h in list[..i + 1] then i + 1 else i
  {
    if h in list {
      var p :| 0 <= p < |list| && list[p] == h;
      WithoutOne(list, p);
      if p <= i { assert list[..i + 1][p] == h; }
      m := if p <= i then i + 1 else i;
    } else {
      WithoutNone(list, h);
      m := i;
    }
  }

  lemma TailOrdered(list: seq<string>, history: seq<string>, h: string, i: nat, j: nat)
    requires MostRecent(list, history) && h != "" && i < j < |Take(Without(list, h), LRU_MAX - 1)|
    ensures var t := Take(Without(list, h), LRU_MAX - 1); After(history + [h], t[i], t[j])
  {
    hide LastTouch, After, Without, Take;
    RecentDistinct(list, history);
    var m := TailAt(list, h, i);
    var n := TailAt(list, h, j);
    if h in list[..i + 1] {
      assert list[..j + 1][..i + 1] == list[..i + 1];
    }
    assert After(history, list[m], list[n]);
    AfterSnoc(history, h, list[m], list[n]);
  }

  /** Whatever is left out was touched before everything in the list. */
  lemma LeftOut(list: seq<string>, history: seq<string>, h: string, k: string)
    requires MostRecent(list, history) && h != "" && WasTouched(history + [h], k) && k !in Touched(list, h)
    ensures k != h && WasTouched(history, k) && |Take(Without(list, h), LRU_MAX - 1)| == LRU_MAX - 1
    ensures var t := Take(Without(list, h), LRU_MAX - 1); forall m :: 0 <= m < |t| ==> After(history, t[m], k)
  {
    hide LastTouch, After;
    RecentDistinct(list, history);
    TailOf(list, h);
    assert k != h by { assert Touched(list, h)[0] == h; }
    TouchedSnoc(history, h, k);
    var w := Without(list, h);
    var t := Take(w, LRU_MAX - 1);
    if k in list {
      assert k !in Touched(list, h)[1..];
      DroppedIsLast(list, h, k);
    } else {
      SizeWithout(list, h);
    }
    forall m | 0 <= m < |t| ensures After(history, t[m], k) {
      var n := TailAt(list, h, m);
      if k in list { assert After(history, list[m], list[LRU_MAX - 1]); }
    }
  }

  lemma SizeWithout(list: seq<string>, h: string)
    requires Distinct(list)
    ensures |Without(list, h)| == if h in list then |list| - 1 else |list|
  {
    if h in list {
      var p :| 0 <= p < |list| && list[p] == h;
      WithoutOne(list, p);
    } else {
      WithoutNone(list, h);
    }
  }

  lemma DroppedIsLast(list: seq<string>, h: string, k: string)
    requires Distinct(list) && |list| <= LRU_MAX && k in Without(list, h) && k !in Take(Without(list, h), LRU_MAX - 1)
    ensures |list| == LRU_MAX && h !in list && k == list[LRU_MAX - 1] && Without(list, h) == list
  {
    hide Without, Distinct;
    SizeWithout(list, h);
    if h !in list { WithoutNone(list, h); }
    Cut(Without(list, h), LRU_MAX - 1, k);
  }

  lemma Cut(list: seq<string>, n: nat, k: string)
    requires k in list && k !in Take(list, n) && |list| <= n + 1
    ensures |list| == n + 1 && k == list[n]
  {
    if |list| == n + 1 {
      assert list == list[..n] + [list[n]];
    }
  }

  /** Touching keeps the list the most recently touched hashes in order. */
  lemma TouchKeepsRecent(list: seq<string>, history: seq<string>, h: string)
    requires MostRecent(list, history)
    ensures MostRecent(Touched(list, h), history + [h])
  {
    hide LastTouch, WasTouched, After, Without, Take;
    RecentDistinct(list, history);
    if h == "" {
      EmptyTouch(list, history);
      return;
    }
    var now := history + [h];
    var list' := Touched(list, h);
    TailOf(list, h);
    forall i | 0 <= i < |list'| ensures WasTouched(now, list'[i]) {
      TouchedSnoc(history, h, list'[i]);
      if i > 0 {
        var m := TailAt(list, h, i - 1);
        assert list'[i] == list'[1..][i - 1];
      }
    }
    forall i, j | 0 <= i < j < |list'| ensures After(now, list'[i], list'[j]) {
      assert list'[j] == list'[1..][j - 1];
      if i == 0 {
        var m := TailAt(list, h, j - 1);
        AfterSnoc(history, h, h, list'[j]);
      } else {
        assert list'[i] == list'[1..][i - 1];
        TailOrdered(list, history, h, i - 1, j - 1);
      }
    }
    forall k | WasTouched(now, k) && k !in list'
      ensures |list'| == LRU_MAX && forall i :: 0 <= i < |list'| ==> After(now, list'[i], k)
    {
      LeftOut(list, history, h, k);
      forall i | 0 <= i < |list'| ensures After(now, list'[i], k) {
        AfterSnoc(history, h, list'[i], k);
        if i > 0 { assert list'[i] == list'[1..][i - 1]; }
      }
    }
  }

  lemma EmptyTouch(list: seq<string>, history: seq<string>)
    requires MostRecent(list, history)
    ensures MostRecent(list, history + [""])
  {
    hide LastTouch;
    forall a: string ensures a != "" ==> LastTouch(history + [""], a) == LastTouch(history, a) {
      LastTouchSnoc(history, "", a);
    }
    forall a: string, b: string ensures After(history + [""], a, b) <==> After(history, a, b) {
      assert a != "" ==> LastTouch(history + [""], a) == LastTouch(history, a);
      assert b != "" ==> LastTouch(history + [""], b) == LastTouch(history, b);
    }
  }

  /** The list after these touches, starting empty. */
  ghost function AfterTouches(history: seq<string>): seq<string> {
    if history == [] then [] else Touched(AfterTouches(history[..|history| - 1]), history[|history| - 1])
  }

  /** After any sequence of touches the list holds the ten most recently touched hashes in order. */
  lemma {:induction false} TouchesKeepRecent(history: seq<string>)
    ensures MostRecent(AfterTouches(history), history)
  {
    hide Touched, WasTouched, After;
    if history == [] {
      NothingTouched();
    } else {
      var before, h := history[..|history| - 1], history[|history| - 1];
      TouchesKeepRecent(before);
      TouchKeepsRecent(AfterTouches(before), before, h);
      assert before + [h] == history;
    }
  }

  lemma NothingTouched()
    ensures MostRecent([], [])
  {
  }

  lemma Ahead(list: seq<string>, list': seq<string>, history: seq<string>, n: nat)
    requires MostRecent(list, history) && MostRecent(list', history)
    requires n < |list| && n < |list'| && list[..n] == list'[..n]
    ensures list[n] == list'[n] || After(history, list'[n], list[n])
  {
    hide LastTouch;
    if list[n] in list' {
      var p :| 0 <= p < |list'| && list'[p] == list[n];
      RecentDistinct(list, history);
    }
  }

  lemma NotEarlier(list: seq<string>, list': seq<string>)
    requires Distinct(list') && list <= list' && |list| < |list'|
    ensures list'[|list|] !in list
  {
  }

  lemma NoLonger(list: seq<string>, list': seq<string>, history: seq<string>)
    requires MostRecent(list, history) && MostRecent(list', history) && list <= list'
    ensures list == list'
  {
    hide LastTouch;
    if |list| < |list'| {
      RecentDistinct(list', history);
      NotEarlier(list, list');
    }
  }

  lemma {:induction false} SamePrefix(list: seq<string>, list': seq<string>, history: seq<string>, n: nat)
    requires MostRecent(list, history) && MostRecent(list', history) && n <= |list| && n <= |list'|
    ensures list[..n] == list'[..n]
  {
    hide LastTouch, MostRecent;
    if n > 0 {
      SamePrefix(list, list', history, n - 1);
      Ahead(list, list', history, n - 1);
      Ahead(list', list, history, n - 1);
    }
  }

  /** That description fixes the list. */
  lemma RecentOnce(list: seq<string>, list': seq<string>, history: seq<string>)
    requires MostRecent(list, history) && MostRecent(list', history)
    ensures list == list'
  {
    hide LastTouch, MostRecent;
    if |list| <= |list'| {
      SamePrefix(list, list', history, |list|);
      NoLonger(list, list', history);
    } else {
      SamePrefix(list, list', history, |list'|);
      NoLonger(list', list, history);
    }
  }

  // ----- The list and the files

  ghost function Paths(hashes: seq<string>): (r: set<string>)
    ensures forall h :: ImgPath(h) in r <==> h in hashes
  {
    forall h, k | ImgPath(h) == ImgPath(k) ensures h == k { PathsDiffer(h, k); }
    set i | 0 <= i < |hashes| :: ImgPath(hashes[i])
  }

  /** The files after a hash was touched: those that fall off the list are removed. */
  ghost function TouchedFiles(list: seq<string>, files: map<string, seq<byte>>, h: string): map<string, seq<byte>> {
    var all := [h] + Without(list, h);
    if h == "" || |all| <= LRU_MAX then files else files - Paths(all[LRU_MAX..])
  }

  /** The files in the directory are those of the listed hashes. */
  ghost predicate Consistent(list: seq<string>, files: map<string, seq<byte>>) {
    forall h :: ImgPath(h) in files <==> h in list
  }

  /** Between operations. */
  ghost predicate Proper(list: seq<string>) {
    Distinct(list) && |list| <= LRU_MAX && "" !in list
  }

  lemma ProperWithout(list: seq<string>, h: string)
    requires Proper(list)
    ensures Distinct(Without(list, h)) && Distinct([h] + Without(list, h))
  {
    if h in list {
      var p :| 0 <= p < |list| && list[p] == h;
      WithoutOne(list, p);
    } else {
      WithoutNone(list, h);
    }
  }

  lemma ProperTouched(list: seq<string>, h: string)
    requires Proper(list)
    ensures Proper(Touched(list, h))
  {
    hide Without, Distinct;
    if h != "" {
      ProperWithout(list, h);
      var all := [h] + Without(list, h);
      DistinctPrefix(all, Take(all, LRU_MAX));
    }
  }

  lemma DistinctPrefix(all: seq<string>, some: seq<string>)
    requires Distinct(all) && some <= all
    ensures Distinct(some) && forall k :: k in some ==> k in all
  {
  }

  lemma DistinctParts(all: seq<string>, n: nat)
    requires Distinct(all) && n <= |all|
    ensures forall k :: k in all <==> k in all[..n] || k in all[n..]
    ensures forall k :: k in all[..n] ==> k !in all[n..]
  {
    assert all == all[..n] + all[n..];
  }

  /** Touching a hash whose file exists keeps the files those of the listed hashes. */
  lemma TouchKeepsConsistent(list: seq<string>, files: map<string, seq<byte>>, h: string)
    requires Proper(list) && h != "" && forall k :: ImgPath(k) in files <==> k in list || k == h
    ensures Consistent(Touched(list, h), TouchedFiles(list, files, h))
  {
    hide Without, Distinct, Paths, ImgPath;
    var all := [h] + Without(list, h);
    ProperWithout(list, h);
    if |all| > LRU_MAX { DistinctParts(all, LRU_MAX); }
  }

  // ----- Downloading art

  function MagicAt(content: seq<byte>, i: nat): byte {
    if i < |content| && i < 12 then content[i] else 0
  }

  /** JPEG, PNG or WebP, by the first bytes. */
  predicate IsImage(content: seq<byte>) {
    || (MagicAt(content, 0) == 0xFF && MagicAt(content, 1) == 0xD8 && MagicAt(content, 2) == 0xFF)
    || (MagicAt(content, 0) == 0x89 && MagicAt(content, 1) == 80 && MagicAt(content, 2) == 78)
    || (MagicAt(content, 0) == 82 && MagicAt(content, 1) == 73 && MagicAt(content, 2) == 70 && MagicAt(content, 3) == 70
        && MagicAt(content, 8) == 87 && MagicAt(content, 9) == 69 && MagicAt(content, 10) == 66 && MagicAt(content, 11) == 80)
  }

  /** The art arrived whole and, as far as it can be read back, is an image. */
  ghost predicate Usable(link: Link, readable: bool) {
    Delivered(link) && link.size <= |link.stream| && IsImage(if readable then link.stream[..link.size] else [])
  }

  /** List and files. */
  datatype Art = Art(list: seq<string>, files: map<string, seq<byte>>)

  ghost function AfterRaw(a: Art, hash: string, link: Link, readable: bool): Art
    requires link.Valid()
  {
    var files := AfterDownload(a.files, ImgPath(hash), link);
    if Usable(link, readable) then Art(Touched(a.list, hash), TouchedFiles(a.list, files, hash))
    else Art(a.list, if Delivered(link) then files - {ImgPath(hash)} else files)
  }

  /** What a media update with art does: art on the card is touched, announced art is downloaded. */
  ghost function AfterShow(a: Art, hash: string, transferring: bool, link: Link, readable: bool): Art
    requires link.Valid()
  {
    if hash == "" then a
    else if ImgPath(hash) in a.files then Art(Touched(a.list, hash), TouchedFiles(a.list, a.files, hash))
    else if transferring then AfterRaw(a, hash, link, readable)
    else a
  }

  class Cache {
    var lru: seq<string>
    const storage: Storage

    constructor (storage: Storage)
      ensures this.storage == storage && lru == []
    {
      this.storage := storage;
      lru := [];
    }

    ghost function State(): Art
      reads this, storage
    {
      Art(lru, storage.files)
    }

    /** Where a hash stands in the list, if it does. */
    method Find(hash: string) returns (at: nat)
      ensures at <= |lru| && hash !in lru[..at] && (at < |lru| ==> lru[at] == hash)
    {
      at := 0;
      while at < |lru| && lru[at] != hash
        invariant at <= |lru| && hash !in lru[..at]
      {
        at := at + 1;
      }
    }

    /** Forgets all art and deletes its files, which stay if the directory cannot be opened. */
    method ClearDir(opens: bool)
      modifies this, storage
      ensures lru == [] && (Consistent(lru, storage.files) <==> opens || Consistent([], old(storage.files)))
      ensures forall p :: p in storage.files <==> p in old(storage.files) && !(opens && DIR + "/" <= p)
      ensures forall p :: p in storage.files ==> storage.files[p] == old(storage.files)[p]
    {
      lru := [];
      if !opens { return; }
      storage.files := map p | p in storage.files && !(DIR + "/" <= p) :: storage.files[p];
    }

    /** Makes a hash the most recent one and evicts the oldest beyond ten. */
    method LruTouch(hash: string)
      requires Proper(lru)
      modifies this, storage
      ensures Proper(lru) && lru == Touched(old(lru), hash)
      ensures storage.files == TouchedFiles(old(lru), old(storage.files), hash)
    {
      hide Without, Distinct, Paths, ImgPath;
      if hash == "" { return; }
      var at := Find(hash);
      ghost var list, files := lru, storage.files;
      ghost var all := [hash] + Without(list, hash);
      ProperTouched(list, hash);
      if at < |lru| {
        Removed(list, hash, at);
        if at == 0 {
          TouchedFirst(list, hash);
          return;
        }
        lru := lru[..at] + lru[at + 1..];
      } else {
        assert list[..at] == list;
        WithoutNone(list, hash);
      }
      lru := [hash] + lru;
      assert lru == all;
      Evict();
    }

    /** Drops the oldest hashes beyond ten, with their files. */
    method Evict()
      modifies this, storage
      ensures lru == Take(old(lru), LRU_MAX)
      ensures storage.files == if |old(lru)| <= LRU_MAX then old(storage.files) else old(storage.files) - Paths(old(lru)[LRU_MAX..])
    {
      hide ImgPath, Paths;
      ghost var all, files := lru, storage.files;
      NoPaths();
      assert all[|all|..] == [] && files - {} == files;
      while |lru| > LRU_MAX
        invariant lru <= all && (|lru| >= LRU_MAX || lru == all)
        invariant storage.files == files - Paths(all[|lru|..])
        decreases |lru|
      {
        PathsMore(all, |lru| - 1);
        storage.files := storage.files - {ImgPath(lru[|lru| - 1])};
        lru := lru[..|lru| - 1];
      }
    }

    /** Downloads art; what is not an image is discarded. */
    method DownloadRaw(hash: string, link: Link, readable: bool) returns (ok: bool)
      requires Proper(lru) && link.Valid()
      modifies this, storage
      ensures Proper(lru) && ok == Usable(link, readable)
      ensures State() == AfterRaw(old(State()), hash, link, readable)
    {
      hide Delivered, ImgPath, IsImage, Touched, TouchedFiles, Proper;
      var path := ImgPath(hash);
      ghost var files := storage.files;
      ok := DownloadPayload(storage, path, link);
      if !ok { return; }
      DeliveredFile(files, path, link);
      var content := if readable then storage.files[path] else [];
      if !IsImage(content) {
        storage.files := storage.files - {path};
        return false;
      }
      LruTouch(hash);
    }

    /** Handles the art of a media update. */
    method Show(hash: string, transferring: bool, link: Link, readable: bool)
      requires Proper(lru) && link.Valid()
      modifies this, storage
      ensures Proper(lru) && State() == AfterShow(old(State()), hash, transferring, link, readable)
    {
      hide ImgPath, Touched, TouchedFiles, Proper, AfterRaw;
      if hash == "" { return; }
      if ImgPath(hash) in storage.files {
        LruTouch(hash);
      } else if transferring {
        var ok := DownloadRaw(hash, link, readable);
      }
    }
  }

  lemma Removed(list: seq<string>, h: string, at: nat)
    requires Proper(list) && at < |list| && list[at] == h
    ensures Without(list, h) == list[..at] + list[at + 1..]
  {
    WithoutOne(list, at);
  }

  lemma TouchedFirst(list: seq<string>, h: string)
    requires Proper(list) && list != [] && list[0] == h
    ensures [h] + Without(list, h) == list
  {
    WithoutOne(list, 0);
  }

  lemma NoPaths()
    ensures Paths([]) == {}
  {
  }

  lemma PathsMore(all: seq<string>, n: nat)
    requires n < |all|
    ensures Paths(all[n..]) == {ImgPath(all[n])} + Paths(all[n + 1..])
  {
    hide ImgPath;
    assert all[n..] == [all[n]] + all[n + 1..];
  }

  // ----- When the files are those of the list

  /** The file was created but could not be opened: it stays although nothing was received. */
  ghost predicate LeavesBlank(a: Art, hash: string, transferring: bool, link: Link) {
    hash != "" && hash !in a.list && transferring && link.connected && link.created && !link.hasHandle
  }

  /** Showing art keeps the files those of the list, unless a created file cannot be opened. */
  lemma ShowKeepsConsistent(a: Art, hash: string, transferring: bool, link: Link, readable: bool)
    requires Proper(a.list) && Consistent(a.list, a.files) && link.Valid()
    ensures var b := AfterShow(a, hash, transferring, link, readable);
            Proper(b.list) && (Consistent(b.list, b.files) <==> !LeavesBlank(a, hash, transferring, link))
  {
    hide Delivered, ImgPath, Touched, TouchedFiles, Proper, Usable;
    ProperTouched(a.list, hash);
    if hash == "" {
    } else if ImgPath(hash) in a.files {
      TouchKeepsConsistent(a.list, a.files, hash);
    } else if transferring {
      RawConsistent(a, hash, link, readable);
    }
  }

  lemma RawConsistent(a: Art, hash: string, link: Link, readable: bool)
    requires Proper(a.list) && Consistent(a.list, a.files) && link.Valid() && hash != "" && ImgPath(hash) !in a.files
    ensures var b := AfterRaw(a, hash, link, readable);
            Consistent(b.list, b.files) <==> !(link.connected && link.created && !link.hasHandle)
  {
    hide ImgPath, Touched, TouchedFiles, Proper, Left, Chunks, IsImage;
    assert hash !in a.list;
    var files := AfterDownload(a.files, ImgPath(hash), link);
    forall k ensures k != hash ==> (ImgPath(k) in files <==> ImgPath(k) in a.files) {
      if ImgPath(k) == ImgPath(hash) { PathsDiffer(k, hash); }
    }
    if Usable(link, readable) { TouchKeepsConsistent(a.list, files, hash); }
  }

  /** One media update. */
  datatype Update = Update(hash: string, transferring: bool, link: Link, readable: bool)

  ghost predicate Possible(updates: seq<Update>) {
    forall i :: 0 <= i < |updates| ==> updates[i].link.Valid()
  }

  ghost function AfterUpdates(a: Art, updates: seq<Update>): Art
    requires Possible(updates)
    decreases |updates|
  {
    if updates == [] then a
    else
      var u := updates[0];
      AfterUpdates(AfterShow(a, u.hash, u.transferring, u.link, u.readable), updates[1..])
  }

  /** The list and files when the k-th update comes. */
  ghost function Before(a: Art, updates: seq<Update>, k: nat): Art
    requires Possible(updates) && k <= |updates|
  {
    AfterUpdates(a, updates[..k])
  }

  ghost predicate Blank(a: Art, u: Update) {
    LeavesBlank(a, u.hash, u.transferring, u.link)
  }

  lemma {:induction false} AfterOneMore(a: Art, updates: seq<Update>, k: nat)
    requires Possible(updates) && k < |updates|
    ensures var u := updates[k];
            Before(a, updates, k + 1) == AfterShow(Before(a, updates, k), u.hash, u.transferring, u.link, u.readable)
    decreases k
  {
    hide AfterShow;
    var u := updates[0];
    var b := AfterShow(a, u.hash, u.transferring, u.link, u.readable);
    assert updates[..k + 1][0] == u && updates[..k + 1][1..] == updates[1..][..k];
    if k > 0 {
      AfterOneMore(b, updates[1..], k - 1);
      assert updates[..k][0] == u && updates[..k][1..] == updates[1..][..k - 1];
      assert Before(a, updates, k) == Before(b, updates[1..], k - 1);
      assert Before(a, updates, k + 1) == Before(b, updates[1..], k);
    } else {
      assert updates[..1][1..] == [] && updates[..0] == [];
      assert AfterUpdates(b, updates[..1][1..]) == b && AfterUpdates(a, updates[..0]) == a;
    }
  }

  lemma ShowKeepsProper(a: Art, u: Update)
    requires Proper(a.list) && u.link.Valid()
    ensures Proper(AfterShow(a, u.hash, u.transferring, u.link, u.readable).list)
  {
    hide Proper, Touched, TouchedFiles, Usable, AfterDownload;
    ProperTouched(a.list, u.hash);
  }

  lemma {:induction false} RunKeepsProper(a: Art, updates: seq<Update>, k: nat)
    requires Proper(a.list) && Possible(updates) && k <= |updates|
    ensures Proper(Before(a, updates, k).list)
    decreases k
  {
    hide Proper, AfterShow;
    if k > 0 {
      AfterOneMore(a, updates, k - 1);
      RunKeepsProper(a, updates, k - 1);
      ShowKeepsProper(Before(a, updates, k - 1), updates[k - 1]);
    }
  }

  lemma {:induction false} RunConsistentSoFar(a: Art, updates: seq<Update>, k: nat)
    requires Proper(a.list) && Consistent(a.list, a.files) && Possible(updates) && k <= |updates|
    requires forall i :: 0 <= i < k ==> !Blank(Before(a, updates, i), updates[i])
    ensures var b := Before(a, updates, k); Consistent(b.list, b.files)
    decreases k
  {
    hide Proper, Consistent, AfterShow, Blank;
    if k > 0 {
      RunConsistentSoFar(a, updates, k - 1);
      RunKeepsProper(a, updates, k - 1);
      StepConsistent(a, updates, k - 1);
    }
  }

  /** One step of a run, taken from a consistent state. */
  lemma StepConsistent(a: Art, updates: seq<Update>, k: nat)
    requires Possible(updates) && k < |updates| && Proper(Before(a, updates, k).list)
    requires var b := Before(a, updates, k); Consistent(b.list, b.files)
    ensures var b := Before(a, updates, k + 1);
            Consistent(b.list, b.files) <==> !Blank(Before(a, updates, k), updates[k])
  {
    hide Proper, Consistent, AfterShow, LeavesBlank, Before;
    AfterOneMore(a, updates, k);
    var u := updates[k];
    ShowKeepsConsistent(Before(a, updates, k), u.hash, u.transferring, u.link, u.readable);
  }

  /** Over any run the files are those of the list in every state, exactly if no update leaves a blank file. */
  lemma RunKeepsConsistent(a: Art, updates: seq<Update>)
    requires Proper(a.list) && Consistent(a.list, a.files) && Possible(updates)
    ensures forall k :: 0 <= k <= |updates| ==> Proper(Before(a, updates, k).list)
    ensures (forall k :: 0 <= k <= |updates| ==> Consistent(Before(a, updates, k).list, Before(a, updates, k).files))
            <==> (forall k :: 0 <= k < |updates| ==> !Blank(Before(a, updates, k), updates[k]))
  {
    hide Proper, Consistent, Blank, Before;
    forall k | 0 <= k <= |updates| ensures Proper(Before(a, updates, k).list) { RunKeepsProper(a, updates, k); }
    if forall k :: 0 <= k < |updates| ==> !Blank(Before(a, updates, k), updates[k]) {
      forall k | 0 <= k <= |updates| ensures Consistent(Before(a, updates, k).list, Before(a, updates, k).files) {
        RunConsistentSoFar(a, updates, k);
      }
    } else {
      var k :| 0 <= k < |updates| && Blank(Before(a, updates, k), updates[k]);
      if Consistent(Before(a, updates, k).list, Before(a, updates, k).files) { StepConsistent(a, updates, k); }
    }
  }

  /** A file that was created but could not be opened is on the card without being listed, and
      the next media update lists it although nothing was ever received. */
  lemma BlankFileIsListed()
    ensures var link := Link(true, true, false, 1, [0], [], [], [], false);
            var a := AfterShow(Art([], map[]), "a", true, link, true);
            var b := AfterShow(a, "a", false, link, true);
            && link.Valid() && !Consistent(a.list, a.files)
            && b.list == ["a"] && ImgPath("a") in b.files && b.files[ImgPath("a")] == [0]
  {
    hide ImgPath;
    var link := Link(true, true, false, 1, [0], [], [], [], false);
    var a := AfterShow(Art([], map[]), "a", true, link, true);
    assert a == Art([], map[][ImgPath("a") := [0]]);
    assert ImgPath("a") in a.files && "a" !in a.list;
    assert Without([], "a") == [];
    assert Touched([], "a") == ["a"];
  }
}
