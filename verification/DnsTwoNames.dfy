/** Two names written into an empty message: exactly when the second one reads back. */
module DnsTwoNames {
  import opened Bytes
  import opened DnsNames
  import opened DnsNameWriter
  import opened DnsCompression
  import opened DnsSearch
  import opened DnsNameList
  import opened DnsWriter

  /** A name that is not circular has no two ends of which one starts the other. */
  lemma EndsApart(u: seq<Label>, q: nat, k: nat)
    requires q < |u| <= RING && k <= |u| && u[q..] <= u[k..] && u[q..] != u[k..]
    ensures Circular(u)
  {
    assert k < q;
    TakeMore(u, k, q - k);
    if |u| - q <= q - k {
      PrefixOfPrefix(u[q..], u[k..], q - k);
    } else {
      PrefixTake(u[q..], u[k..], q - k);
    }
    RepeatsIs(u, k, q);
  }

  lemma TakeMore<T>(s: seq<T>, i: nat, n: nat)
    requires i + n <= |s|
    ensures s[i..][..n] == s[i..i + n]
  {
  }

  lemma PrefixOfPrefix<T>(x: seq<T>, y: seq<T>, n: nat)
    requires x <= y && |x| <= n <= |y|
    ensures x <= y[..n]
  {
  }

  lemma PrefixTake<T>(x: seq<T>, y: seq<T>, n: nat)
    requires x <= y && n <= |x|
    ensures y[..n] <= x
  {
  }

  /** An end of v is a proper start of an end of u. */
  ghost predicate StartsEnd(v: seq<Label>, u: seq<Label>) {
    exists i: nat, k: nat :: StartsEndAt(v, i, u, k)
  }

  ghost predicate StartsEndAt(v: seq<Label>, i: nat, u: seq<Label>, k: nat) {
    i < |v| && k < |u| && v[i..] <= u[k..] && v[i..] != u[k..]
  }

  /** The shelf holds the ends of u, and i labels of a name that is being written. */
  ghost predicate HoldsEnds(f: Shelf, u: seq<Label>, i: nat) {
    && f.Valid() && |f.slots| == |u| + i <= RING
    && (forall p :: 0 <= p < |u| ==> f.slots[p] == u[p..]) && forall p :: |u| <= p < |u| + i ==> f.slots[p] == []
  }

  lemma AddedLast(f: Shelf, m: seq<Label>)
    requires f.Valid() && |f.slots| < RING
    ensures Added(f, m).slots == f.slots + [m]
  {
  }

  /** A name written in full leaves its ends on the shelf. */
  lemma {:induction false} ShelvedEnds(u: seq<Label>, n: nat)
    requires n <= |u| <= RING
    ensures var f := Shelved(EMPTY_SHELF, u, n); |f.slots| == n && forall p :: 0 <= p < n ==> f.slots[p] == u[p..]
    decreases n
  {
    hide Added;
    if n > 0 {
      ShelvedEnds(u, n - 1);
      AddedLast(Shelved(EMPTY_SHELF, u, n - 1), u[n - 1..]);
    }
  }

  lemma {:induction false} NothingTaken(slots: seq<seq<Label>>, x: seq<Label>)
    requires x != [] && forall p :: 0 <= p < |slots| ==> slots[p] == []
    ensures Taken(slots, x) == None
  {
    if slots != [] { NothingTaken(slots[1..], x); }
  }

  /** The first name is written in full. */
  lemma {:induction false} FirstInFull(f: Shelf, u: seq<Label>, i: nat)
    requires HoldsEnds(f, [], i) && i <= |u| <= RING
    ensures EndingOf(f, u, i) == Ending(|u|, [])
    decreases |u| - i
  {
    hide Taken, Added;
    if i < |u| {
      AddedLast(f, []);
      NothingTaken(f.slots, u[i..]);
      FirstInFull(Added(f, []), u, i + 1);
    }
  }

  lemma FirstOutcome(u: seq<Label>)
    requires |u| <= RING
    ensures SpelledAs(EMPTY_SHELF, u) == u && ShelfOf([u]).Valid() && HoldsEnds(ShelfOf([u]), u, 0)
  {
    hide EndingOf, Shelved;
    FirstInFull(EMPTY_SHELF, u, 0);
    ShelvedEnds(u, |u|);
    assert [u][..0] == [] && SpelledAs(EMPTY_SHELF, u) == u;
  }

  lemma {:induction false} TakenIfAny(slots: seq<seq<Label>>, x: seq<Label>, p: nat)
    requires p < |slots| && x <= slots[p]
    ensures Taken(slots, x).Some?
  {
    if !(x <= slots[0]) { TakenIfAny(slots[1..], x, p - 1); }
  }

  /** The second name ends in an end of the first, or in none; and not after a label from which the
      rest of it starts one. */
  lemma {:induction false} SecondEnding(f: Shelf, u: seq<Label>, v: seq<Label>, i: nat, i0: nat, k0: nat)
    requires HoldsEnds(f, u, i) && i <= |v| && |u| + |v| <= RING
    ensures var e := EndingOf(f, v, i); e == Ending(|v|, []) || (e.i < |v| && exists k: nat :: k < |u| && e.m == u[k..])
    ensures i <= i0 < |v| && k0 < |u| && v[i0..] <= u[k0..] ==> EndingOf(f, v, i).i <= i0
    decreases |v| - i
  {
    hide Taken, Added;
    if i < |v| {
      AddedLast(f, []);
      var m := Taken(f.slots, v[i..]);
      if m.Some? {
        var p :| 0 <= p < |f.slots| && f.slots[p] == m.value;
        assert m.value == u[p..];
      } else {
        if i == i0 && k0 < |u| && v[i0..] <= u[k0..] { TakenIfAny(f.slots, v[i0..], k0); }
        SecondEnding(Added(f, []), u, v, i + 1, i0, k0);
      }
    }
  }

  /** Of two names with at most 16 labels in all, the second one reads as itself exactly if none of
      its ends is a proper start of an end of the first. */
  lemma SecondOutcome(u: seq<Label>, v: seq<Label>)
    requires |u| + |v| <= RING && !Circular(u)
    ensures Outcome([u, v], 0) == u && (Outcome([u, v], 1) == v <==> !StartsEnd(v, u))
  {
    hide SpelledAs, Circular, StartsEnd, ShelfOf, HoldsEnds;
    FirstOutcome(u);
    assert [u, v][..1] == [u] && [u, v][..0] == [] && ShelfOf([]) == EMPTY_SHELF by { NoShelf(); }
    SecondReads(ShelfOf([u]), u, v);
  }

  lemma SecondReads(f: Shelf, u: seq<Label>, v: seq<Label>)
    requires f.Valid() && |u| + |v| <= RING && !Circular(u) && HoldsEnds(f, u, 0)
    ensures SpelledAs(f, v) == v <==> !StartsEnd(v, u)
  {
    hide EndingOf, Circular, StartsEndAt, HoldsEnds;
    var e := EndingOf(f, v, 0);
    SecondEnding(f, u, v, 0, 0, 0);
    SameRest(v, e);
    if StartsEnd(v, u) {
      var i0: nat, k0: nat :| StartsEndAt(v, i0, u, k0);
      StartsEndBounds(v, i0, u, k0);
      SecondEnding(f, u, v, 0, i0, k0);
      EndMisleads(u, v, e, i0, k0);
    } else if e.m != v[e.i..] {
      var k: nat :| k < |u| && e.m == u[k..];
      StartsEndIs(v, e.i, u, k);
    }
  }

  /** If v goes on as u does, what starts an end of u is itself an end of u. */
  lemma EndsTogether(u: seq<Label>, v: seq<Label>, i: nat, k: nat, i0: nat, k0: nat)
    requires |u| <= RING && i <= i0 < |v| && k0 < |u| && k < |u| && v[i..] == u[k..]
    requires v[i0..] <= u[k0..] && v[i0..] != u[k0..]
    ensures Circular(u)
  {
    hide Circular;
    SameFurtherOn(v, i, u, k, i0 - i);
    EndsApart(u, k + (i0 - i), k0);
  }

  lemma EndMisleads(u: seq<Label>, v: seq<Label>, e: Ending, i0: nat, k0: nat)
    requires |u| <= RING && !Circular(u) && e.i <= i0 && StartsEndAt(v, i0, u, k0)
    requires exists k: nat :: k < |u| && e.m == u[k..]
    ensures e.m != v[e.i..]
  {
    hide Circular, StartsEndAt;
    StartsEndBounds(v, i0, u, k0);
    var k: nat :| k < |u| && e.m == u[k..];
    if v[e.i..] == u[k..] { EndsTogether(u, v, e.i, k, i0, k0); }
  }

  lemma SameFurtherOn(v: seq<Label>, i: nat, u: seq<Label>, k: nat, n: nat)
    requires i + n <= |v| && k <= |u| && v[i..] == u[k..]
    ensures k + n <= |u| && v[i + n..] == u[k + n..]
  {
    assert |v[i..]| == |u[k..]|;
    DropMore(v, i, n);
    DropMore(u, k, n);
  }

  lemma DropMore<T>(s: seq<T>, i: nat, n: nat)
    requires i + n <= |s|
    ensures s[i..][n..] == s[i + n..]
  {
  }

  lemma NoShelf()
    ensures ShelfOf([]) == EMPTY_SHELF
  {
  }

  lemma SameRest(v: seq<Label>, e: Ending)
    requires e.i <= |v| && v[e.i..] <= e.m
    ensures v[..e.i] + e.m == v <==> e.m == v[e.i..]
  {
    assert v == v[..e.i] + v[e.i..];
    if v[..e.i] + e.m == v { assert e.m == (v[..e.i] + e.m)[e.i..]; }
  }

  lemma StartsEndBounds(v: seq<Label>, i: nat, u: seq<Label>, k: nat)
    requires StartsEndAt(v, i, u, k)
    ensures i < |v| && k < |u| && v[i..] <= u[k..] && v[i..] != u[k..]
  {
  }

  lemma StartsEndIs(v: seq<Label>, i: nat, u: seq<Label>, k: nat)
    requires i < |v| && k < |u| && v[i..] <= u[k..] && v[i..] != u[k..]
    ensures StartsEnd(v, u)
  {
    assert StartsEndAt(v, i, u, k);
  }

  /** Writes two names into an empty message. The first one reads back, and the second one
      reads back exactly if none of its ends is a proper start of an end of the first. */
  method TwoNames(buf: array<byte>, first: seq<byte>, second: seq<byte>) returns (written: bool, at: nat)
    requires buf.Length <= MAX_CAPACITY && first != [] && second != []
    requires Writable(NameLabels(first)) && !Circular(NameLabels(first))
    requires Writable(NameLabels(second)) && !Circular(NameLabels(second))
    requires |NameLabels(first)| + |NameLabels(second)| <= RING
    modifies buf
    ensures !written ==> |Dotted(NameLabels(first))| + 1 + |Dotted(NameLabels(second))| + 1 > buf.Length
    ensures written ==> at <= buf.Length && Reads(buf[..], 0, NameLabels(first))
    ensures written ==> (Reads(buf[..], at, NameLabels(second)) <==> !StartsEnd(NameLabels(second), NameLabels(first)))
  {
    hide NameLabels, Writable, Circular, Reads, StartsEnd, Dotted, Outcome, ListRoom;
    ghost var u, v := NameLabels(first), NameLabels(second);
    var names := [first, second];
    var places, end := WriteList(buf, names);
    assert LabelsOfAll(names) == [u, v];
    TwoRoom(u, v);
    if |places| < 2 {
      assert [u, v][..2] == [u, v] && [u, v][..1] == [u];
      return false, 0;
    }
    written, at := true, places[1];
    SecondOutcome(u, v);
  }

  lemma TwoRoom(u: seq<Label>, v: seq<Label>)
    ensures ListRoom([u]) <= ListRoom([u, v]) == |Dotted(u)| + 1 + |Dotted(v)| + 1
  {
    hide Dotted;
    assert [u, v][..1] == [u] && [u][..0] == [];
  }
}
