/** Where writing a name ends in a pointer, and what the name then reads as. */
module DnsSearch {
  import opened Bytes
  import opened DnsNames
  import opened DnsSpelling
  import opened DnsNameWriter
  import opened DnsCompression

  // ----- Labels standing in the buffer

  /** Where label j of a name stands that starts at `start`. */
  ghost function Pos(start: nat, labels: seq<Label>, j: nat): nat
    requires j <= |labels|
  {
    start + |Enc(labels[..j])|
  }

  lemma PosNext(start: nat, labels: seq<Label>, j: nat)
    requires j < |labels|
    ensures Pos(start, labels, j + 1) == Pos(start, labels, j) + 1 + |labels[j]|
  {
    hide Enc;
    EncSnoc(labels, j);
  }

  lemma PosZero(start: nat, labels: seq<Label>)
    ensures Pos(start, labels, 0) == start
  {
    assert labels[..0] == [];
  }

  lemma {:induction false} PosGrows(start: nat, labels: seq<Label>, j: nat, k: nat)
    requires j <= k <= |labels|
    ensures Pos(start, labels, j) + (k - j) <= Pos(start, labels, k)
  {
    hide Pos;
    if j < k {
      PosNext(start, labels, k - 1);
      PosGrows(start, labels, j, k - 1);
    }
  }

  /** The first i labels stand in the buffer from `start` on. */
  ghost predicate Stand(b: seq<byte>, start: nat, labels: seq<Label>, i: nat)
    requires i <= |labels|
  {
    Pos(start, labels, i) <= |b| && b[start..Pos(start, labels, i)] == Enc(labels[..i])
  }

  lemma NoneStand(b: seq<byte>, start: nat, labels: seq<Label>)
    requires start <= |b|
    ensures Stand(b, start, labels, 0)
  {
    assert labels[..0] == [] && b[start..start] == [];
  }

  lemma StandNext(b: seq<byte>, start: nat, labels: seq<Label>, i: nat, at: nat)
    requires i < |labels| && Stand(b, start, labels, i) && at == Pos(start, labels, i) && at + 1 + |labels[i]| <= |b|
    ensures Stand(WithLabel(b, at, labels[i]), start, labels, i + 1)
    ensures WithLabel(b, at, labels[i])[..at] == b[..at]
  {
    hide Enc;
    EncSnoc(labels, i);
    var b' := WithLabel(b, at, labels[i]);
    assert b'[start..at] == b[start..at];
    assert b'[start..at + 1 + |labels[i]|] == b[start..at] + ([|labels[i]| % 256] + labels[i]);
  }

  /** A label that stands in the buffer is read as the next substring. */
  lemma StandsIsRead(b: seq<byte>, start: nat, labels: seq<Label>, i: nat, j: nat)
    requires j < i <= |labels| && Writable(labels) && Stand(b, start, labels, i)
    ensures var at := Pos(start, labels, j); var s := NextSub(b, at);
            && at < |b| && b[at] == |labels[j]| && s == Sub(at + 1, |labels[j]|, false) && Text(b, s) == labels[j]
            && at + 1 + |labels[j]| == Pos(start, labels, j + 1) <= |b|
  {
    hide Enc;
    EncSnoc(labels, j);
    EncPrefix(labels, j + 1, i);
    SliceOfSlice(b, start, Enc(labels[..i]), Enc(labels[..j]), labels[j]);
    var at := Pos(start, labels, j);
    assert Follow(b, at, 0) == Some(at);
  }

  /** Matching from a label of the unfinished name on compares with the labels that follow it. */
  lemma {:induction false} OwnMatch(b: seq<byte>, start: nat, labels: seq<Label>, i: nat, j: nat, rest: seq<Label>)
    requires j <= i <= |labels| && Writable(labels) && Stand(b, start, labels, i) && Chain(b, Pos(start, labels, j), rest)
    ensures rest <= labels[j..i] || labels[j..i] <= rest
    decreases i - j
  {
    hide Stand, Pos, NextSub, Text;
    if j < i && rest != [] {
      StandsIsRead(b, start, labels, i, j);
      OwnMatch(b, start, labels, i, j + 1, rest[1..]);
      assert rest == [rest[0]] + rest[1..] && labels[j..i] == [labels[j]] + labels[j + 1..i];
    }
  }

  lemma {:induction false} OwnMatches(b: seq<byte>, start: nat, labels: seq<Label>, i: nat, j: nat, rest: seq<Label>)
    requires j <= i <= |labels| && Writable(labels) && Stand(b, start, labels, i) && rest <= labels[j..i]
    ensures Chain(b, Pos(start, labels, j), rest)
    decreases i - j
  {
    hide Stand, Pos, NextSub, Text;
    if rest != [] {
      StandsIsRead(b, start, labels, i, j);
      assert rest[0] == labels[j..i][0] && rest[1..] <= labels[j + 1..i];
      OwnMatches(b, start, labels, i, j + 1, rest[1..]);
    }
  }

  // ----- A name that finds itself

  /** Entry p of the ring is the position of one of the last 16 labels written. */
  ghost predicate OwnEntry(ring: Ring<nat>, start: nat, labels: seq<Label>, i: nat, p: nat, j: nat)
    requires p < |ring.slots| && i <= |labels|
  {
    j < i && i - j <= RING && ring.slots[p] == Pos(start, labels, j) && (p + (i - j)) % RING == ring.next
  }

  ghost predicate OwnLabel(ring: Ring<nat>, start: nat, labels: seq<Label>, i: nat, p: nat)
    requires p < |ring.slots| && i <= |labels|
  {
    exists j: nat :: OwnEntry(ring, start, labels, i, p, j)
  }

  /** The ring holds positions before the name and, in order, those of its last labels. */
  ghost predicate OwnOrEarlier(ring: Ring<nat>, start: nat, labels: seq<Label>, i: nat)
    requires i <= |labels|
  {
    ring.Valid() && forall p :: 0 <= p < |ring.slots| ==> ring.slots[p] < start || OwnLabel(ring, start, labels, i, p)
  }

  lemma OwnEntryKept(ring: Ring<nat>, start: nat, labels: seq<Label>, i: nat, at: nat, p: nat, j: nat)
    requires i < |labels| && ring.Valid() && p < |ring.slots| && p != ring.next && OwnEntry(ring, start, labels, i, p, j)
    ensures OwnEntry(Added(ring, at), start, labels, i + 1, p, j)
  {
    hide Pos;
    assert (p + RING) % RING == p;
    assert (p + (i - j) + 1) % RING == (ring.next + 1) % RING;
  }

  lemma OwnOrEarlierNext(ring: Ring<nat>, start: nat, labels: seq<Label>, i: nat)
    requires i < |labels| && OwnOrEarlier(ring, start, labels, i)
    ensures OwnOrEarlier(Added(ring, Pos(start, labels, i)), start, labels, i + 1)
  {
    hide Pos;
    var at := Pos(start, labels, i);
    var r := Added(ring, at);
    forall p | 0 <= p < |r.slots| ensures r.slots[p] < start || OwnLabel(r, start, labels, i + 1, p) {
      if p == ring.next {
        assert OwnEntry(r, start, labels, i + 1, p, i);
      } else if r.slots[p] >= start {
        assert r.slots[p] == ring.slots[p];
        var j: nat :| OwnEntry(ring, start, labels, i, p, j);
        OwnEntryKept(ring, start, labels, i, at, p, j);
      }
    }
  }

  lemma SearchStuck(b: seq<byte>, ring: Ring<nat>, at: nat, labels: seq<Label>, i: nat)
    requires ring.Valid() && i < |labels| && Found(b, ring.slots, labels[i..]).None? && at + 1 + |labels[i]| > |b|
    ensures Search(b, ring, at, labels, i) == None
  {
    hide Found;
  }

  /** Only a circular name finds itself. */
  lemma {:induction false} OwnHitIsCircular(b: seq<byte>, ring: Ring<nat>, start: nat, labels: seq<Label>, i: nat)
    requires i <= |labels| && Writable(labels) && Stand(b, start, labels, i)
    requires ring.Valid() && OwnOrEarlier(ring, start, labels, i)
    ensures var h := Search(b, ring, Pos(start, labels, i), labels, i); h.Some? && h.value.e >= start ==> Circular(labels)
    decreases |labels| - i
  {
    hide Pos, Stand, Found, OwnOrEarlier, Circular, Writable, Search, Added, WithLabel;
    var at := Pos(start, labels, i);
    if i == |labels| {
      SearchDone(b, ring, at, labels);
    } else {
      var f := Found(b, ring.slots, labels[i..]);
      SearchStep(b, ring, at, labels, i);
      if f.Some? {
        if f.value >= start {
          var j := OwnFound(ring, start, labels, i, f.value);
          OwnMatch(b, start, labels, i, j, labels[i..]);
          RepeatsIs(labels, j, i);
        }
      } else if at + 1 + |labels[i]| > |b| {
        SearchStuck(b, ring, at, labels, i);
      } else {
        StandNext(b, start, labels, i, at);
        PosNext(start, labels, i);
        OwnOrEarlierNext(ring, start, labels, i);
        OwnHitIsCircular(WithLabel(b, at, labels[i]), Added(ring, at), start, labels, i + 1);
      }
    }
  }

  lemma OwnFound(ring: Ring<nat>, start: nat, labels: seq<Label>, i: nat, e: nat) returns (j: nat)
    requires i <= |labels| && OwnOrEarlier(ring, start, labels, i) && e in ring.slots && e >= start
    ensures j < i && i - j <= RING && e == Pos(start, labels, j)
  {
    hide Pos;
    var p :| 0 <= p < |ring.slots| && ring.slots[p] == e;
    j :| OwnEntry(ring, start, labels, i, p, j);
  }

  lemma RepeatsIs(labels: seq<Label>, j: nat, i: nat)
    requires j < i < |labels| && i - j <= RING && (labels[i..] <= labels[j..i] || labels[j..i] <= labels[i..])
    ensures Circular(labels)
  {
    assert Repeats(labels, j, i);
  }

  // ----- What a name leaves behind

  /** The table after the first i labels of a name have been written at `start`. */
  ghost function Entered(ring: Ring<nat>, start: nat, labels: seq<Label>, i: nat): (r: Ring<nat>)
    requires ring.Valid() && i <= |labels|
    ensures r.Valid()
  {
    if i == 0 then ring else Added(Entered(ring, start, labels, i - 1), Pos(start, labels, i - 1))
  }

  /** How many labels of a name are written before a pointer. */
  function InFull(labels: seq<Label>, hit: Option<Hit>): nat {
    if hit.Some? then hit.value.i else |labels|
  }

  /** A name has been written: its first labels stand there and are in the table, and the entry
      found, if any, spells the rest of what it spells. */
  ghost predicate Placed(b0: seq<byte>, mark0: seq<bool>, ring0: Ring<nat>, b: seq<byte>, ring: Ring<nat>, start: nat,
                         labels: seq<Label>, hit: Option<Hit>, spelled: seq<Label>)
    requires |mark0| == |b0| && ring0.Valid()
  {
    var i := InFull(labels, hit);
    && i <= |labels| && ring == Entered(ring0, start, labels, i) && Stand(b, start, labels, i)
    && (if hit.Some? then i <= |spelled| && Spells(b0, mark0, hit.value.e, spelled[i..]) else spelled == labels)
  }

  // ----- Every circular name can be sent wrong

  /** After k labels written from an empty ring, the last 16 of their positions are in place. */
  ghost predicate AllOwn(ring: Ring<nat>, start: nat, labels: seq<Label>, k: nat)
    requires k <= |labels|
  {
    && ring.Valid() && ring.next == k % RING && |ring.slots| == (if k < RING then k else RING)
    && forall j :: 0 <= j < k && k - j <= RING ==> ring.slots[j % RING] == Pos(start, labels, j)
  }

  lemma AllOwnNext(ring: Ring<nat>, start: nat, labels: seq<Label>, k: nat)
    requires k < |labels| && AllOwn(ring, start, labels, k)
    ensures AllOwn(Added(ring, Pos(start, labels, k)), start, labels, k + 1)
  {
    hide Pos;
    var r := Added(ring, Pos(start, labels, k));
    assert (k + 1) % RING == (k % RING + 1) % RING;
    forall j | 0 <= j < k + 1 && k + 1 - j <= RING ensures r.slots[j % RING] == Pos(start, labels, j) {
      if j < k { assert j % RING != k % RING; }
    }
  }

  lemma AllOwnFirst(start: nat, labels: seq<Label>)
    ensures AllOwn(NO_POSITIONS, start, labels, 0)
  {
  }

  /** Writing labels over themselves changes nothing. */
  lemma WithSame(b: seq<byte>, start: nat, labels: seq<Label>, i: nat, k: nat)
    requires k < i <= |labels| && Writable(labels) && Stand(b, start, labels, i)
    ensures Pos(start, labels, k) + 1 + |labels[k]| <= |b| && WithLabel(b, Pos(start, labels, k), labels[k]) == b
  {
    hide Enc;
    StandsIsRead(b, start, labels, i, k);
    var at := Pos(start, labels, k);
    assert b[at..at + 1 + |labels[k]|] == [b[at]] + b[at + 1..at + 1 + |labels[k]|];
  }

  /** If the buffer already holds what makes label i match label j, a search succeeds by then. */
  lemma {:induction false} SearchSucceeds(b: seq<byte>, ring: Ring<nat>, start: nat, labels: seq<Label>, k: nat, i: nat, j: nat)
    requires k <= i < |labels| && j < i && i - j <= RING && Writable(labels) && Stand(b, start, labels, i)
    requires ring.Valid() && AllOwn(ring, start, labels, k) && Chain(b, Pos(start, labels, j), labels[i..])
    ensures Search(b, ring, Pos(start, labels, k), labels, k).Some?
    decreases i - k
  {
    hide Pos, Stand, AllOwn, Chain;
    if k == i {
      var p := OwnInRing(ring, start, labels, k, j);
      StandsIsRead(b, start, labels, i, j);
      FoundAny(b, ring.slots, labels[i..], p);
    } else if Found(b, ring.slots, labels[k..]).None? {
      WithSame(b, start, labels, i, k);
      PosNext(start, labels, k);
      AllOwnNext(ring, start, labels, k);
      SearchSucceeds(b, Added(ring, Pos(start, labels, k)), start, labels, k + 1, i, j);
    }
  }

  lemma OwnInRing(ring: Ring<nat>, start: nat, labels: seq<Label>, k: nat, j: nat) returns (p: nat)
    requires j < k <= |labels| && k - j <= RING && AllOwn(ring, start, labels, k)
    ensures p < |ring.slots| && ring.slots[p] == Pos(start, labels, j)
  {
    hide Pos;
    p := j % RING;
  }

  lemma {:induction false} FoundAny(b: seq<byte>, slots: seq<nat>, labels: seq<Label>, p: nat)
    requires p < |slots| && slots[p] < |b| && Chain(b, slots[p], labels)
    ensures Found(b, slots, labels).Some?
  {
    hide Chain;
    if p > 0 && !(slots[0] < |b| && Chain(b, slots[0], labels)) { FoundAny(b, slots[1..], labels, p - 1); }
  }

  /** Enc of one list after the other. */
  lemma {:induction false} EncJoin(x: seq<Label>, y: seq<Label>)
    ensures Enc(x + y) == Enc(x) + Enc(y)
    decreases |y|
  {
    hide Enc;
    if y == [] {
      assert x + y == x;
      EmptyEnc();
    } else {
      var front, last := y[..|y| - 1], y[|y| - 1];
      EncJoin(x, front);
      EncLast(x, y);
      JoinThree(Enc(x), Enc(front), [|last| % 256], last);
    }
  }

  lemma EncLast(x: seq<Label>, y: seq<Label>)
    requires y != []
    ensures var last := y[|y| - 1]; Enc(x + y) == Enc(x + y[..|y| - 1]) + [|last| % 256] + last
    ensures var last := y[|y| - 1]; Enc(y) == Enc(y[..|y| - 1]) + [|last| % 256] + last
  {
    var all := x + y;
    assert all[..|all| - 1] == x + y[..|y| - 1] && all[|all| - 1] == y[|y| - 1];
  }

  lemma JoinThree<T>(a: seq<T>, b: seq<T>, c: seq<T>, d: seq<T>)
    ensures a + b + c + d == a + (b + c + d)
  {
  }

  /** The contents of a buffer that leads the search for labels[i..] back to label j. */
  lemma MisleadingBuffer(labels: seq<Label>, j: nat, i: nat) returns (b: seq<byte>)
    requires Repeats(labels, j, i) && Writable(labels)
    ensures Stand(b, 0, labels, i) && Chain(b, Pos(0, labels, j), labels[i..])
  {
    hide Enc, Chain;
    if labels[i..] <= labels[j..i] {
      b := Enc(labels[..i]);
      assert b[0..|b|] == b;
      OwnMatches(b, 0, labels, i, j, labels[i..]);
    } else {
      var more := labels[i..][i - j..];
      var all := labels[..i] + more;
      b := Enc(all);
      EncJoin(labels[..i], more);
      assert b[0..Pos(0, labels, i)] == Enc(labels[..i]);
      assert all[..|all|] == all && b[0..|b|] == b;
      assert Stand(b, 0, all, |all|);
      assert labels[i..] == all[j..|all|];
      OwnMatches(b, 0, all, |all|, j, labels[i..]);
      assert all[..j] == labels[..j];
    }
  }

  /** A name is circular exactly if, written into an empty table, it finds itself for some
      contents of the buffer behind it. */
  lemma CircularExactly(labels: seq<Label>)
    requires Writable(labels)
    ensures Circular(labels) <==> exists b :: Search(b, NO_POSITIONS, 0, labels, 0).Some?
  {
    hide Search, Repeats, Stand, Pos, AllOwn, OwnOrEarlier;
    PosZero(0, labels);
    if Circular(labels) {
      var i: nat, j: nat :| Repeats(labels, j, i);
      var b := MisleadingBuffer(labels, j, i);
      AllOwnFirst(0, labels);
      RepeatsBounds(labels, j, i);
      SearchSucceeds(b, NO_POSITIONS, 0, labels, 0, i, j);
    }
    forall b | Search(b, NO_POSITIONS, 0, labels, 0).Some? ensures Circular(labels) {
      NoneStand(b, 0, labels);
      NothingEarlier(labels);
      OwnHitIsCircular(b, NO_POSITIONS, 0, labels, 0);
    }
  }

  lemma RepeatsBounds(labels: seq<Label>, j: nat, i: nat)
    requires Repeats(labels, j, i)
    ensures j < i < |labels| && i - j <= RING
  {
  }

  lemma NothingEarlier(labels: seq<Label>)
    ensures OwnOrEarlier(NO_POSITIONS, 0, labels, 0)
  {
  }

  // ----- What a finished name reads as

  /** The readers, which give up after 64 labels, find exactly these labels at `at`. */
  ghost predicate Reads(b: seq<byte>, at: nat, labels: seq<Label>) {
    NameAt(b, at).Some? && NameAt(b, at).value.labels == labels
  }

  /** A longer name cannot be read within fewer substrings than it has. */
  lemma {:induction false} SpellsTooLong(b: seq<byte>, mark: seq<bool>, at: nat, labels: seq<Label>, n: nat)
    requires |mark| == |b| && Spells(b, mark, at, labels) && n <= |labels|
    ensures Walk(b, at, n) == None
    decreases n
  {
    hide NextSub, NameEnd, Spells, Text;
    if n > 0 {
      SpellsNext(b, mark, at, labels);
      var s := NextSub(b, at);
      SpellsTooLong(b, mark, s.offset + s.length, labels[1..], n - 1);
    }
  }

  /** What is spelled is what is read, unless it has more than 64 labels, and nothing else is. */
  lemma SpelledReads(b: seq<byte>, mark: seq<bool>, at: nat, spelled: seq<Label>, labels: seq<Label>)
    requires |mark| == |b| && Spells(b, mark, at, spelled)
    ensures Reads(b, at, labels) <==> spelled == labels && |labels| <= MAX_SUBSTRINGS
  {
    hide Spells, Walk, NameEnd;
    if |spelled| > MAX_SUBSTRINGS {
      SpellsTooLong(b, mark, at, spelled, MAX_SUBSTRINGS + 1);
    } else {
      SpellsIsRead(b, mark, at, spelled, MAX_SUBSTRINGS + 1);
    }
  }

  /** A name that ends in a pointer to one of its own labels cannot be read. */
  lemma {:induction false} OwnPointerUnreadable(b: seq<byte>, start: nat, labels: seq<Label>, i: nat, j: nat, k: nat, n: nat)
    requires j < i <= |labels| && k <= i && Writable(labels) && Stand(b, start, labels, i)
    requires var at := Pos(start, labels, i);
             at + 2 <= |b| && Pos(start, labels, j) < 0x4000 && b[at..at + 2] == Net16(0xC000 + Pos(start, labels, j))
    ensures Walk(b, Pos(start, labels, k), n) == None
    decreases n
  {
    hide Stand, Pos, Text, NextSub;
    if n > 0 {
      if k < i {
        StandsIsRead(b, start, labels, i, k);
        OwnPointerUnreadable(b, start, labels, i, j, k + 1, n - 1);
      } else {
        StandsIsRead(b, start, labels, i, j);
        PointerIsRead(b, Pos(start, labels, i), Pos(start, labels, j));
        OwnPointerUnreadable(b, start, labels, i, j, j + 1, n - 1);
      }
    }
  }

  /** A pointer to a label is read as that label. */
  lemma PointerIsRead(b: seq<byte>, at: nat, e: nat)
    requires at + 2 <= |b| && e < 0x4000 && b[at..at + 2] == Net16(0xC000 + e)
    requires e < |b| && !IsRef(b[e]) && e + 1 + b[e] <= |b|
    ensures NextSub(b, at) == Sub(e + 1, b[e], true)
  {
    hide Host16;
    Net16RoundTrip(b, at, 0xC000 + e);
    assert b[at] == b[at..at + 2][0] == (0xC000 + e) / 256 % 256;
    assert Target(b, at) == e;
    assert Follow(b, e, 1) == Some(e);
  }

  /** The entry found, if any, is of an earlier name and reads as the rest of this one: the two end
      together. This is what mdns_string_table_find does not check. */
  ghost predicate EndsThere(b: seq<byte>, start: nat, labels: seq<Label>, hit: Option<Hit>) {
    hit.None? || (hit.value.e < start && hit.value.i <= |labels| && Reads(b, hit.value.e, labels[hit.value.i..]))
  }

  /** The entry found is a label of the name itself. */
  predicate FindsItself(start: nat, hit: Option<Hit>) {
    hit.Some? && hit.value.e >= start
  }
}
