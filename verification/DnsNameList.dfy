/** Lists of names written through one table: what each of them reads as, told from the names alone. */
module DnsNameList {
  import opened Bytes
  import opened DnsNames
  import opened DnsSpelling
  import opened DnsNameWriter
  import opened DnsCompression
  import opened DnsSearch
  import opened DnsWriter

  /** The table with what is spelled at each entry in place of its position. A label of the name
      that is being written spells nothing yet: []. */
  type Shelf = Ring<seq<Label>>

  const EMPTY_SHELF: Shelf := Ring([], 0)

  /** The first text on the shelf that starts with these labels. */
  function Taken(slots: seq<seq<Label>>, x: seq<Label>): (m: Option<seq<Label>>)
    ensures m.Some? ==> x <= m.value && m.value in slots
  {
    if slots == [] then None else if x <= slots[0] then Some(slots[0]) else Taken(slots[1..], x)
  }

  /** A name ends in a text from the shelf after its first i labels; a name written in full in none. */
  datatype Ending = Ending(i: nat, m: seq<Label>)

  function EndingOf(f: Shelf, labels: seq<Label>, i: nat): (e: Ending)
    requires f.Valid() && i <= |labels|
    ensures i <= e.i <= |labels| && labels[e.i..] <= e.m
    decreases |labels| - i
  {
    if i == |labels| then Ending(i, [])
    else
      match Taken(f.slots, labels[i..])
      case Some(m) => Ending(i, m)
      case None => EndingOf(Added(f, []), labels, i + 1)
  }

  /** What a name is spelled as when it is written with this shelf. */
  function SpelledAs(f: Shelf, labels: seq<Label>): (r: seq<Label>)
    requires f.Valid()
    ensures labels <= r
  {
    var e := EndingOf(f, labels, 0);
    assert labels == labels[..e.i] + labels[e.i..];
    labels[..e.i] + e.m
  }

  /** The shelf with the first n ends of a name added. */
  function Shelved(f: Shelf, name: seq<Label>, n: nat): (f': Shelf)
    requires f.Valid() && n <= |name|
    ensures f'.Valid()
  {
    if n == 0 then f else Added(Shelved(f, name, n - 1), name[n - 1..])
  }

  /** The shelf after a name: the labels written in full spell what the name reads as from there on. */
  function After(f: Shelf, labels: seq<Label>): (f': Shelf)
    requires f.Valid()
    ensures f'.Valid()
  {
    Shelved(f, SpelledAs(f, labels), EndingOf(f, labels, 0).i)
  }

  /** The shelf after a list of names, written in order into an empty message. */
  function ShelfOf(names: seq<seq<Label>>): (f: Shelf)
    ensures f.Valid()
  {
    if names == [] then EMPTY_SHELF else After(ShelfOf(names[..|names| - 1]), names[|names| - 1])
  }

  // ----- The table and the shelf

  /** Entry e spells the text m, or belongs to the name that starts at `start` and is being written. */
  ghost predicate Fits(b: seq<byte>, mark: seq<bool>, start: nat, e: nat, m: seq<Label>)
    requires |mark| == |b|
  {
    if m == [] then e >= start else e < start && Spells(b, mark, e, m)
  }

  ghost predicate AllFit(b: seq<byte>, mark: seq<bool>, start: nat, slots: seq<nat>, texts: seq<seq<Label>>)
    requires |mark| == |b|
  {
    |slots| == |texts| && forall p :: 0 <= p < |slots| ==> Fits(b, mark, start, slots[p], texts[p])
  }

  /** The entries of the table spell what is on the shelf. */
  ghost predicate Shelves(b: seq<byte>, mark: seq<bool>, start: nat, ring: Ring<nat>, f: Shelf)
    requires |mark| == |b|
  {
    ring.Valid() && f.Valid() && ring.next == f.next && AllFit(b, mark, start, ring.slots, f.slots)
  }

  /** All names in the table are finished. */
  ghost predicate NothingPending(f: Shelf) {
    forall p :: 0 <= p < |f.slots| ==> f.slots[p] != []
  }

  lemma {:induction false} FoundIsTaken(b: seq<byte>, mark: seq<bool>, start: nat, slots: seq<nat>, texts: seq<seq<Label>>, x: seq<Label>)
    requires |mark| == |b| && AllFit(b, mark, start, slots, texts) && x != []
    requires var e := Found(b, slots, x); e.Some? ==> e.value < start
    ensures var e, m := Found(b, slots, x), Taken(texts, x);
            (e.Some? <==> m.Some?) && (e.Some? ==> Spells(b, mark, e.value, m.value))
    decreases |slots|
  {
    hide Spells, Chain;
    if slots != [] {
      assert Fits(b, mark, start, slots[0], texts[0]);
      if texts[0] != [] {
        ChainIsPrefix(b, mark, slots[0], texts[0], x);
        SpelledInside(b, mark, slots[0], texts[0]);
      }
      if !(slots[0] < |b| && Chain(b, slots[0], x)) { FoundIsTaken(b, mark, start, slots[1..], texts[1..], x); }
    }
  }

  lemma SpelledInside(b: seq<byte>, mark: seq<bool>, at: nat, labels: seq<Label>)
    requires |mark| == |b| && Spells(b, mark, at, labels)
    ensures at < |b| && mark[at]
  {
  }

  lemma FitsKept(b: seq<byte>, mark: seq<bool>, b': seq<byte>, mark': seq<bool>, start: nat, slots: seq<nat>, texts: seq<seq<Label>>)
    requires |mark| == |b| && |mark'| == |b'| && Keeps(b, mark, b', mark') && AllFit(b, mark, start, slots, texts)
    ensures AllFit(b', mark', start, slots, texts)
  {
    hide Spells, Keeps;
    forall p | 0 <= p < |slots| ensures Fits(b', mark', start, slots[p], texts[p]) {
      assert Fits(b, mark, start, slots[p], texts[p]);
      if texts[p] != [] { SpellsKept(b, mark, b', mark', slots[p], texts[p]); }
    }
  }

  lemma AddedFits(b: seq<byte>, mark: seq<bool>, start: nat, ring: Ring<nat>, f: Shelf, e: nat, m: seq<Label>)
    requires |mark| == |b| && Shelves(b, mark, start, ring, f) && Fits(b, mark, start, e, m)
    ensures Shelves(b, mark, start, Added(ring, e), Added(f, m))
  {
    hide Fits;
  }

  /** The search in the table takes the text that the shelf has, unless a name finds itself. */
  lemma {:induction false} SearchIsEnding(b: seq<byte>, mark: seq<bool>, start: nat, ring: Ring<nat>, f: Shelf, labels: seq<Label>, i: nat)
    requires |mark| == |b| && i <= |labels| && Shelves(b, mark, start, ring, f)
    requires forall k :: start <= k < |b| ==> !mark[k]
    requires var h := Search(b, ring, Pos(start, labels, i), labels, i);
             !FindsItself(start, h) && (h.None? ==> Pos(start, labels, |labels|) <= |b|)
    ensures var h, e := Search(b, ring, Pos(start, labels, i), labels, i), EndingOf(f, labels, i);
            if h.None? then e == Ending(|labels|, []) else h.value.i == e.i && Spells(b, mark, h.value.e, e.m)
    decreases |labels| - i
  {
    hide Pos, Spells, Found, Taken, AllFit, WithLabel, Search, EndingOf;
    if i == |labels| {
      SearchDone(b, ring, Pos(start, labels, i), labels);
      EndingDone(f, labels);
    } else {
      var at, x := Pos(start, labels, i), labels[i..];
      SearchStep(b, ring, at, labels, i);
      EndingStep(f, labels, i);
      FoundOnShelf(b, mark, start, ring, f, x);
      if Found(b, ring.slots, x).None? {
        RoomForLabel(b, ring, start, labels, i);
        PosNext(start, labels, i);
        var b' := WithLabel(b, at, labels[i]);
        LabelShelved(b, mark, start, ring, f, labels, i);
        SearchIsEnding(b', mark, start, Added(ring, at), Added(f, []), labels, i + 1);
        var h, e := Search(b, ring, at, labels, i), EndingOf(f, labels, i);
        if h.Some? { SpellsKept(b', mark, b, mark, h.value.e, e.m); }
      }
    }
  }

  lemma EndingDone(f: Shelf, labels: seq<Label>)
    requires f.Valid()
    ensures EndingOf(f, labels, |labels|) == Ending(|labels|, [])
  {
  }

  lemma EndingStep(f: Shelf, labels: seq<Label>, i: nat)
    requires f.Valid() && i < |labels|
    ensures var m := Taken(f.slots, labels[i..]);
            EndingOf(f, labels, i) == if m.Some? then Ending(i, m.value) else EndingOf(Added(f, []), labels, i + 1)
  {
    hide Taken;
  }

  lemma FoundOnShelf(b: seq<byte>, mark: seq<bool>, start: nat, ring: Ring<nat>, f: Shelf, x: seq<Label>)
    requires |mark| == |b| && Shelves(b, mark, start, ring, f) && x != []
    requires var e := Found(b, ring.slots, x); e.Some? ==> e.value < start
    ensures var e, m := Found(b, ring.slots, x), Taken(f.slots, x);
            (e.Some? <==> m.Some?) && (e.Some? ==> Spells(b, mark, e.value, m.value))
  {
    hide Found, Taken, Spells, AllFit;
    FoundIsTaken(b, mark, start, ring.slots, f.slots, x);
  }

  /** A label of the name that is being written, and an empty text for it on the shelf. */
  lemma LabelShelved(b: seq<byte>, mark: seq<bool>, start: nat, ring: Ring<nat>, f: Shelf, labels: seq<Label>, i: nat)
    requires |mark| == |b| && i < |labels| && Shelves(b, mark, start, ring, f) && Pos(start, labels, i) + 1 + |labels[i]| <= |b|
    requires forall k :: start <= k < |b| ==> !mark[k]
    ensures var at := Pos(start, labels, i);
            && Shelves(WithLabel(b, at, labels[i]), mark, start, Added(ring, at), Added(f, []))
            && Keeps(WithLabel(b, at, labels[i]), mark, b, mark)
  {
    hide Pos, Keeps, AllFit, Spells, WithLabel;
    var at := Pos(start, labels, i);
    var b' := WithLabel(b, at, labels[i]);
    PosFrom(start, labels, i);
    WithLabelKeeps(b, mark, start, at, labels[i]);
    FitsKept(b, mark, b', mark, start, ring.slots, f.slots);
    assert Fits(b', mark, start, at, []);
    AddedFits(b', mark, start, ring, f, at, []);
  }

  lemma PosFrom(start: nat, labels: seq<Label>, i: nat)
    requires i <= |labels|
    ensures start <= Pos(start, labels, i)
  {
  }

  lemma WithLabelKeeps(b: seq<byte>, mark: seq<bool>, start: nat, at: nat, l: Label)
    requires |mark| == |b| && start <= at && at + 1 + |l| <= |b| && forall k :: start <= k < |b| ==> !mark[k]
    ensures Keeps(b, mark, WithLabel(b, at, l), mark) && Keeps(WithLabel(b, at, l), mark, b, mark)
  {
    UnmarkedRest(b, WithLabel(b, at, l), mark, at);
    UnmarkedRest(WithLabel(b, at, l), b, mark, at);
  }

  /** A search that goes on has written a label, so there was room for it. */
  lemma RoomForLabel(b: seq<byte>, ring: Ring<nat>, start: nat, labels: seq<Label>, i: nat)
    requires ring.Valid() && i < |labels| && Found(b, ring.slots, labels[i..]).None?
    requires Search(b, ring, Pos(start, labels, i), labels, i).None? ==> Pos(start, labels, |labels|) <= |b|
    ensures Pos(start, labels, i) + 1 + |labels[i]| <= |b|
  {
    hide Pos, Found;
    PosNext(start, labels, i);
    PosGrows(start, labels, i + 1, |labels|);
  }

  // ----- One name

  /** A place spells one name at most. */
  lemma {:induction false} SpellsOnce(b: seq<byte>, mark: seq<bool>, at: nat, x: seq<Label>, y: seq<Label>)
    requires |mark| == |b| && Spells(b, mark, at, x) && Spells(b, mark, at, y)
    ensures x == y
    decreases |x|
  {
    hide Spells, NextSub, NameEnd, Text;
    SpellsNext(b, mark, at, x);
    SpellsNext(b, mark, at, y);
    if x != [] {
      var s := NextSub(b, at);
      SpellsOnce(b, mark, s.offset + s.length, x[1..], y[1..]);
      assert x == [x[0]] + x[1..] && y == [y[0]] + y[1..];
    }
  }

  /** From each of its labels that stand in the buffer on, the rest of a name is spelled. */
  lemma {:induction false} RestSpelled(b: seq<byte>, mark: seq<bool>, start: nat, labels: seq<Label>, i: nat, j: nat, spelled: seq<Label>)
    requires |mark| == |b| && j <= i <= |labels| && labels <= spelled && Writable(labels)
    requires Stand(b, start, labels, i) && Spells(b, mark, start, spelled)
    ensures Spells(b, mark, Pos(start, labels, j), spelled[j..])
    decreases j
  {
    hide Pos, Stand, Spells;
    if j == 0 {
      PosZero(start, labels);
      assert spelled[0..] == spelled;
    } else {
      RestSpelled(b, mark, start, labels, i, j - 1, spelled);
      StandsIsRead(b, start, labels, i, j - 1);
      NextSpelled(b, mark, Pos(start, labels, j - 1), spelled[j - 1..]);
      assert spelled[j - 1..][1..] == spelled[j..];
    }
  }

  lemma NextSpelled(b: seq<byte>, mark: seq<bool>, at: nat, labels: seq<Label>)
    requires |mark| == |b| && labels != [] && Spells(b, mark, at, labels) && !IsRef(b[at])
    ensures Spells(b, mark, at + 1 + b[at], labels[1..])
  {
  }

  /** Entering the labels of a name shelves its ends. */
  lemma {:induction false} EnteredIsShelved(b: seq<byte>, mark: seq<bool>, end: nat, ring: Ring<nat>, f: Shelf, start: nat, labels: seq<Label>,
                                            i: nat, n: nat, spelled: seq<Label>)
    requires |mark| == |b| && n <= i <= |labels| && labels <= spelled && Writable(labels)
    requires Stand(b, start, labels, i) && Spells(b, mark, start, spelled)
    requires Shelves(b, mark, end, ring, f) && forall k :: end <= k < |b| ==> !mark[k]
    ensures Shelves(b, mark, end, Entered(ring, start, labels, n), Shelved(f, spelled, n))
    decreases n
  {
    hide Pos, Stand, Spells, AllFit;
    if n > 0 {
      EnteredIsShelved(b, mark, end, ring, f, start, labels, i, n - 1, spelled);
      RestSpelled(b, mark, start, labels, i, n - 1, spelled);
      SpelledInside(b, mark, Pos(start, labels, n - 1), spelled[n - 1..]);
      AddedFits(b, mark, end, Entered(ring, start, labels, n - 1), Shelved(f, spelled, n - 1), Pos(start, labels, n - 1), spelled[n - 1..]);
    }
  }

  /** With all names finished, it does not matter from where on entries would be pending. */
  lemma LaterStart(b: seq<byte>, mark: seq<bool>, start: nat, end: nat, ring: Ring<nat>, f: Shelf)
    requires |mark| == |b| && start <= end && Shelves(b, mark, start, ring, f) && NothingPending(f)
    ensures Shelves(b, mark, end, ring, f)
  {
    hide Spells;
    forall p | 0 <= p < |ring.slots| ensures Fits(b, mark, end, ring.slots[p], f.slots[p]) {
      assert Fits(b, mark, start, ring.slots[p], f.slots[p]);
    }
  }

  lemma {:induction false} ShelvedPends(f: Shelf, name: seq<Label>, n: nat)
    requires f.Valid() && n <= |name| && NothingPending(f)
    ensures NothingPending(Shelved(f, name, n))
    decreases n
  {
    if n > 0 { ShelvedPends(f, name, n - 1); }
  }

  /** What a written name spells is what the shelf says, and the table is what the shelf becomes. */
  lemma NameShelved(b0: seq<byte>, mark0: seq<bool>, ring0: Ring<nat>, b: seq<byte>, mark: seq<bool>, ring: Ring<nat>, f: Shelf,
                    start: nat, end: nat, labels: seq<Label>, spelled: seq<Label>)
    requires |mark0| == |b0| == |b| == |mark| && start <= end && Writable(labels)
    requires Shelves(b0, mark0, start, ring0, f) && NothingPending(f) && forall k :: start <= k < |b0| ==> !mark0[k]
    requires var hit := Search(b0, ring0, start, labels, 0);
             !FindsItself(start, hit) && Placed(b0, mark0, ring0, b, ring, start, labels, hit, spelled)
    requires forall k :: end <= k < |b| ==> !mark[k]
    requires Keeps(b0, mark0, b, mark) && Spells(b, mark, start, spelled) && labels <= spelled
    ensures spelled == SpelledAs(f, labels) && Shelves(b, mark, end, ring, After(f, labels)) && NothingPending(After(f, labels))
  {
    hide Pos, Spells, Search, Stand, Shelved, Entered, EndingOf, AllFit, Keeps, NothingPending;
    var hit, e := Search(b0, ring0, start, labels, 0), EndingOf(f, labels, 0);
    PosZero(start, labels);
    StandsInside(b, start, labels, InFull(labels, hit));
    SearchIsEnding(b0, mark0, start, ring0, f, labels, 0);
    var i := InFull(labels, hit);
    assert i == e.i;
    if hit.Some? { SpellsOnce(b0, mark0, hit.value.e, spelled[i..], e.m); }
    SplitAt(labels, spelled, i);
    FitsKept(b0, mark0, b, mark, start, ring0.slots, f.slots);
    LaterStart(b, mark, start, end, ring0, f);
    EnteredIsShelved(b, mark, end, ring0, f, start, labels, i, i, spelled);
    ShelvedPends(f, spelled, i);
  }

  lemma StandsInside(b: seq<byte>, start: nat, labels: seq<Label>, i: nat)
    requires i <= |labels| && Stand(b, start, labels, i)
    ensures Pos(start, labels, i) <= |b|
  {
  }

  lemma SplitAt(labels: seq<Label>, spelled: seq<Label>, i: nat)
    requires i <= |labels| && labels <= spelled
    ensures spelled == labels[..i] + spelled[i..] && (i == |labels| && spelled == labels ==> spelled[i..] == [])
  {
  }

  // ----- Any number of names

  /** The labels of a list of names. */
  function LabelsOfAll(names: seq<seq<byte>>): (r: seq<seq<Label>>)
    requires forall k :: 0 <= k < |names| ==> names[k] != []
    ensures |r| == |names| && forall k :: 0 <= k < |r| ==> r[k] == NameLabels(names[k])
  {
    seq(|names|, k requires 0 <= k < |names| => NameLabels(names[k]))
  }

  /** What name k of a list reads as when they are written in order into an empty message. */
  function Outcome(names: seq<seq<Label>>, k: nat): seq<Label>
    requires k < |names|
  {
    SpelledAs(ShelfOf(names[..k]), names[k])
  }

  ghost predicate AllOutcomes(b: seq<byte>, mark: seq<bool>, at: seq<nat>, names: seq<seq<Label>>)
    requires |mark| == |b|
  {
    |at| <= |names| && forall k :: 0 <= k < |at| ==> Spells(b, mark, at[k], Outcome(names, k))
  }

  lemma OutcomesKept(b: seq<byte>, mark: seq<bool>, b': seq<byte>, mark': seq<bool>, at: seq<nat>, names: seq<seq<Label>>)
    requires |mark| == |b| && |mark'| == |b'| && Keeps(b, mark, b', mark') && AllOutcomes(b, mark, at, names)
    ensures AllOutcomes(b', mark', at, names)
  {
    hide Spells, Keeps, Outcome;
    forall k | 0 <= k < |at| ensures Spells(b', mark', at[k], Outcome(names, k)) {
      SpellsKept(b, mark, b', mark', at[k], Outcome(names, k));
    }
  }

  lemma ShelfNext(names: seq<seq<Label>>, k: nat)
    requires k < |names|
    ensures ShelfOf(names[..k + 1]) == After(ShelfOf(names[..k]), names[k])
  {
    var t := names[..k + 1];
    assert t[..|t| - 1] == names[..k] && t[|t| - 1] == names[k];
  }

  /** Writes the next name of a list. */
  method WriteName(w: Writer, data: nat, name: seq<byte>, ghost names: seq<seq<Label>>, ghost at: seq<nat>, ghost known: set<seq<Label>>)
    returns (next: Option<nat>, ghost spelled: seq<Label>)
    requires w.Ready(data, known) && name != [] && |at| < |names| && names[|at|] == NameLabels(name)
    requires Writable(NameLabels(name)) && !Circular(NameLabels(name)) && AllOutcomes(w.buf[..], w.mark, at, names)
    requires Shelves(w.buf[..], w.mark, data, w.table.View(), ShelfOf(names[..|at|])) && NothingPending(ShelfOf(names[..|at|]))
    modifies w`mark, w.buf, w.table, w.table.offset
    ensures w.Valid()
    ensures next.None? ==> data + |Dotted(NameLabels(name))| + 1 > w.buf.Length && AllOutcomes(w.buf[..], w.mark, at, names)
    ensures next.Some? ==>
              && next.value <= data + |Dotted(NameLabels(name))| + 1 && w.Ready(next.value, known + {spelled}) && AllOutcomes(w.buf[..], w.mark, at + [data], names)
              && Shelves(w.buf[..], w.mark, next.value, w.table.View(), ShelfOf(names[..|at| + 1]))
              && NothingPending(ShelfOf(names[..|at| + 1]))
  {
    hide AllOutcomes, Shelves, NothingPending, ShelfOf, NameLabels, Writable, Circular, Dotted, Spells, NameEnd, Search, Placed, Keeps, TableOk,
         Reads, Walk, EndsThere, Clash, After, SpelledAs, IsSuffixOf;
    ghost var b0, mark0, ring0, labels := w.buf[..], w.mark, w.table.View(), NameLabels(name);
    ghost var hit;
    next, spelled, hit := w.StringMake(data, name, known);
    if next.None? {
      UnmarkedRest(b0, w.buf[..], mark0, data);
      OutcomesKept(b0, mark0, w.buf[..], w.mark, at, names);
      return;
    }
    NameShelved(b0, mark0, ring0, w.buf[..], w.mark, w.table.View(), ShelfOf(names[..|at|]), data, next.value, labels, spelled);
    ShelfNext(names, |at|);
    OutcomesKept(b0, mark0, w.buf[..], w.mark, at, names);
    OneOutcomeMore(w.buf[..], w.mark, at, names, data);
  }

  lemma OneOutcomeMore(b: seq<byte>, mark: seq<bool>, at: seq<nat>, names: seq<seq<Label>>, data: nat)
    requires |mark| == |b| && |at| < |names| && AllOutcomes(b, mark, at, names) && Spells(b, mark, data, Outcome(names, |at|))
    ensures AllOutcomes(b, mark, at + [data], names)
  {
    hide Spells, Outcome;
  }

  lemma EmptyShelf(b: seq<byte>, mark: seq<bool>, names: seq<seq<Label>>)
    requires |mark| == |b|
    ensures AllOutcomes(b, mark, [], names)
    ensures Shelves(b, mark, 0, NO_POSITIONS, ShelfOf(names[..0])) && NothingPending(ShelfOf(names[..0]))
  {
  }

  lemma OutcomeReads(b: seq<byte>, mark: seq<bool>, at: seq<nat>, names: seq<seq<Label>>, k: nat, labels: seq<Label>)
    requires |mark| == |b| && AllOutcomes(b, mark, at, names) && k < |at|
    ensures at[k] < |b| && (Reads(b, at[k], labels) <==> labels == Outcome(names, k) && |labels| <= MAX_SUBSTRINGS)
  {
    hide Spells, Outcome, Reads;
    SpelledInside(b, mark, at[k], Outcome(names, k));
    SpelledReads(b, mark, at[k], Outcome(names, k), labels);
  }

  lemma NoRoomYet()
    ensures ListRoom([]) == 0
  {
  }

  /** Room for names without compression. */
  function ListRoom(names: seq<seq<Label>>): nat {
    if names == [] then 0 else ListRoom(names[..|names| - 1]) + |Dotted(names[|names| - 1])| + 1
  }

  lemma RoomNext(names: seq<seq<Label>>, k: nat)
    requires k < |names|
    ensures ListRoom(names[..k + 1]) == ListRoom(names[..k]) + |Dotted(names[k])| + 1
  {
    var t := names[..k + 1];
    assert t[..|t| - 1] == names[..k] && t[|t| - 1] == names[k];
  }

  /** Writes names one after the other into an empty message. It stops only at a name up to which they
      might not fit uncompressed. What the readers find for each of them
      follows from the names alone: its outcome, if that has at most 64 labels, and nothing otherwise.
      So a name reads back exactly if its outcome is the name itself and has at most 64 labels. */
  method WriteList(buf: array<byte>, names: seq<seq<byte>>) returns (at: seq<nat>, end: nat)
    requires buf.Length <= MAX_CAPACITY && forall k :: 0 <= k < |names| ==> names[k] != []
    requires forall k :: 0 <= k < |names| ==> Writable(NameLabels(names[k])) && !Circular(NameLabels(names[k]))
    modifies buf
    ensures |at| <= |names|
    ensures (at != [] ==> at[0] == 0) && forall k :: 0 <= k < |at| ==> at[k] < buf.Length
    ensures |at| < |names| ==> ListRoom(LabelsOfAll(names)[..|at| + 1]) > buf.Length
    ensures forall k, labels :: 0 <= k < |at| ==>
              (Reads(buf[..], at[k], labels) <==> labels == Outcome(LabelsOfAll(names), k) && |labels| <= MAX_SUBSTRINGS)
  {
    hide AllOutcomes, Shelves, NothingPending, ShelfOf, NameLabels, Writable, Circular, Dotted, TableOk, Reads, Outcome, ListRoom;
    NoRoomYet();
    ghost var all := LabelsOfAll(names);
    var w := new Writer(buf);
    ghost var known: set<seq<Label>> := {};
    at, end := [], 0;
    EmptyShelf(buf[..], w.mark, all);
    while |at| < |names|
      invariant |at| <= |names| && w.buf == buf && fresh(w) && fresh(w.table) && fresh(w.table.offset)
      invariant w.Ready(end, known) && end <= ListRoom(all[..|at|]) && if at == [] then end == 0 else at[0] == 0
      invariant |w.mark| == |buf[..]| && AllOutcomes(buf[..], w.mark, at, all)
      invariant Shelves(buf[..], w.mark, end, w.table.View(), ShelfOf(all[..|at|])) && NothingPending(ShelfOf(all[..|at|]))
      decreases |names| - |at|
    {
      RoomNext(all, |at|);
      var next;
      ghost var spelled;
      next, spelled := WriteName(w, end, names[|at|], all, at, known);
      if next.None? { break; }
      known := known + {spelled};
      at := at + [end];
      end := next.value;
    }
    forall k, labels | 0 <= k < |at|
      ensures at[k] < buf.Length && (Reads(buf[..], at[k], labels) <==> labels == Outcome(all, k) && |labels| <= MAX_SUBSTRINGS)
    {
      OutcomeReads(buf[..], w.mark, at, all, k, labels);
    }
  }

  // ----- Names that cannot be mistaken

  /** All texts on the shelf are ends of these names. */
  ghost predicate FromNames(f: Shelf, all: set<seq<Label>>) {
    forall p :: 0 <= p < |f.slots| ==> f.slots[p] == [] || IsSuffixOf(f.slots[p], all)
  }

  lemma {:induction false} NoClashEnding(f: Shelf, labels: seq<Label>, i: nat, all: set<seq<Label>>)
    requires f.Valid() && i <= |labels| && FromNames(f, all) && !Clash(labels, all)
    ensures var e := EndingOf(f, labels, i); e.m == labels[e.i..]
    decreases |labels| - i
  {
    hide IsSuffixOf, Taken;
    if i < |labels| {
      var x := labels[i..];
      if Taken(f.slots, x).Some? {
        var m := Taken(f.slots, x).value;
        assert x <= m && IsSuffixOf(m, all);
      } else {
        NoClashEnding(Added(f, []), labels, i + 1, all);
      }
    }
  }

  lemma {:induction false} ShelvedFrom(f: Shelf, name: seq<Label>, n: nat, all: set<seq<Label>>)
    requires f.Valid() && n <= |name| && FromNames(f, all) && name in all
    ensures FromNames(Shelved(f, name, n), all)
    decreases n
  {
    if n > 0 {
      ShelvedFrom(f, name, n - 1, all);
      assert name[|name| - |name[n - 1..]|..] == name[n - 1..];
      assert IsSuffixOf(name[n - 1..], all);
    }
  }

  lemma {:induction false} ShelfFrom(names: seq<seq<Label>>, all: set<seq<Label>>)
    requires forall k :: 0 <= k < |names| ==> names[k] in all && !Clash(names[k], all)
    ensures FromNames(ShelfOf(names), all)
    decreases |names|
  {
    hide Clash, Shelved, EndingOf, FromNames;
    if names == [] {
      assert FromNames(EMPTY_SHELF, all) by { NothingFrom(all); }
    } else {
      var front, last := names[..|names| - 1], names[|names| - 1];
      ShelfFrom(front, all);
      NoClashReads(ShelfOf(front), last, all);
      ShelvedFrom(ShelfOf(front), last, EndingOf(ShelfOf(front), last, 0).i, all);
    }
  }

  lemma NothingFrom(all: set<seq<Label>>)
    ensures FromNames(EMPTY_SHELF, all)
  {
  }

  lemma NoClashReads(f: Shelf, labels: seq<Label>, all: set<seq<Label>>)
    requires f.Valid() && FromNames(f, all) && !Clash(labels, all)
    ensures SpelledAs(f, labels) == labels
  {
    hide Clash, EndingOf, FromNames;
    NoClashEnding(f, labels, 0, all);
    var e := EndingOf(f, labels, 0);
    assert labels == labels[..e.i] + labels[e.i..];
  }

  /** Names that do not clash all read as themselves, in whatever order and however often they are written. */
  lemma NoClashOutcomes(names: seq<seq<Label>>, all: set<seq<Label>>, k: nat)
    requires k < |names| && forall j :: 0 <= j < |names| ==> names[j] in all && !Clash(names[j], all)
    ensures Outcome(names, k) == names[k]
  {
    hide Clash, SpelledAs, FromNames, ShelfOf;
    ShelfFrom(names[..k], all);
    NoClashReads(ShelfOf(names[..k]), names[k], all);
  }
}
