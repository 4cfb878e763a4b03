/** Writing names with back-pointer compression: a ring of the last 16 label
    positions is searched for the rest of the name before each label is written. */
module DnsNameWriter {
  import opened Bytes
  import opened DnsNames
  import opened DnsSpelling

  const RING := 16

  /** A byte with this value and above is read as a pointer, so labels must be shorter. */
  const MAX_LABEL := 191

  // ----- Splitting a dotted name

  /** The first dot at or after `from`, or the length of the name. */
  function DotAt(s: seq<byte>, from: nat): (d: nat)
    requires from <= |s|
    ensures from <= d <= |s| && DOT !in s[from..d] && (d < |s| ==> s[d] == DOT)
    decreases |s| - from
  {
    if from == |s| || s[from] == DOT then from
    else
      var d := DotAt(s, from + 1);
      assert s[from..d] == [s[from]] + s[from + 1..d];
      d
  }

  function Labels(s: seq<byte>): seq<Label>
    decreases |s|
  {
    if s == [] then []
    else
      var d := DotAt(s, 0);
      [s[..d]] + Labels(if d < |s| then s[d + 1..] else [])
  }

  /** The labels of a name; one dot at the end is ignored. */
  function NameLabels(name: seq<byte>): seq<Label>
    requires name != []
  {
    Labels(Stripped(name))
  }

  function Stripped(name: seq<byte>): seq<byte>
    requires name != []
  {
    if name[|name| - 1] == DOT then name[..|name| - 1] else name
  }

  predicate EndsWithDot(s: seq<byte>) {
    s != [] && s[|s| - 1] == DOT
  }

  /** A name is spelled by its labels, up to the dot at its end. */
  lemma {:induction false} DottedLabels(s: seq<byte>)
    ensures Dotted(Labels(s)) == if s == [] || EndsWithDot(s) then s else s + [DOT]
    decreases |s|
  {
    hide DotAt, EndsWithDot;
    if s != [] {
      var d := DotAt(s, 0);
      var rest := if d < |s| then s[d + 1..] else [];
      DottedLabels(rest);
      assert Labels(s)[1..] == Labels(rest);
      assert s[0..d] == s[..d];
      DottedJoin(s, d, rest, Dotted(Labels(rest)));
    }
  }

  lemma DottedJoin(s: seq<byte>, d: nat, rest: seq<byte>, text: seq<byte>)
    requires d <= |s| && s != [] && DOT !in s[..d] && (d < |s| ==> s[d] == DOT)
    requires rest == (if d < |s| then s[d + 1..] else []) && text == if rest == [] || EndsWithDot(rest) then rest else rest + [DOT]
    ensures s[..d] + [DOT] + text == if EndsWithDot(s) then s else s + [DOT]
  {
    if d < |s| {
      assert s == s[..d] + [DOT] + rest;
    } else {
      assert s[..d] == s && s[|s| - 1] in s;
    }
  }

  /** The labels after the first, as the matching loop meets them. */
  function LabelsFrom(s: seq<byte>, offset: nat): seq<Label> {
    if offset < |s| then Labels(s[offset..]) else []
  }

  lemma {:induction false} DotShift(s: seq<byte>, from: nat, at: nat)
    requires from <= at <= |s|
    ensures DotAt(s[from..], at - from) + from == DotAt(s, at)
    decreases |s| - at
  {
    if at < |s| && s[at] != DOT { DotShift(s, from, at + 1); }
  }

  lemma LabelsFromStep(s: seq<byte>, offset: nat)
    requires offset < |s|
    ensures LabelsFrom(s, offset) == [s[offset..DotAt(s, offset)]] + LabelsFrom(s, DotAt(s, offset) + 1)
  {
    DotShift(s, offset, offset);
    var t := s[offset..];
    var d := DotAt(t, 0);
    var dot := DotAt(s, offset);
    assert t[..d] == s[offset..dot];
    assert Labels(if d < |t| then t[d + 1..] else []) == LabelsFrom(s, dot + 1) by {
      if dot + 1 < |s| { assert t[d + 1..] == s[dot + 1..]; } else if d < |t| { assert t[d + 1..] == []; }
    }
  }

  // ----- The ring of label positions

  /** What is kept of the last 16 labels written, and where the next one goes. */
  datatype Ring<T> = Ring(slots: seq<T>, next: nat) {
    predicate Valid() {
      next < RING && |slots| <= RING && (|slots| < RING ==> next == |slots|)
    }
  }

  const NO_POSITIONS: Ring<nat> := Ring([], 0)

  /** Once the ring is full, a new entry replaces the oldest. */
  function Added<T>(r: Ring<T>, o: T): (r': Ring<T>)
    requires r.Valid()
    ensures r'.Valid()
  {
    Ring(if |r.slots| < RING then r.slots + [o] else r.slots[r.next := o], (r.next + 1) % RING)
  }

  class StringTable {
    const offset: array<nat>
    var count: nat
    var next: nat

    ghost predicate Valid()
      reads this
    {
      offset.Length == RING && count <= RING && next < RING && (count < RING ==> next == count)
    }

    constructor ()
      ensures Valid() && fresh(offset) && View() == NO_POSITIONS
    {
      offset := new nat[RING];
      count, next := 0, 0;
    }

    function Slots(): seq<nat>
      requires Valid()
      reads this, offset
    {
      offset[..count]
    }

    function View(): Ring<nat>
      requires Valid()
      reads this, offset
    {
      Ring(Slots(), next)
    }

    /** Adds a position. */
    method Add(o: nat)
      requires Valid()
      modifies this, offset
      ensures Valid() && View() == Added(old(View()), o)
    {
      offset[next] := o;
      count := count + 1;
      if count > RING { count := RING; }
      next := next + 1;
      if next >= RING { next := 0; }
    }
  }

  /** The first position in the table from which the labels match. */
  ghost function Found(b: seq<byte>, slots: seq<nat>, labels: seq<Label>): (r: Option<nat>)
    ensures r.Some? ==> r.value in slots && r.value < |b| && Chain(b, r.value, labels)
  {
    if slots == [] then None
    else if slots[0] < |b| && Chain(b, slots[0], labels) then Some(slots[0])
    else Found(b, slots[1..], labels)
  }

  lemma {:induction false} FoundSplit(b: seq<byte>, slots: seq<nat>, labels: seq<Label>, i: nat)
    requires i <= |slots|
    requires forall j :: 0 <= j < i ==> !(slots[j] < |b| && Chain(b, slots[j], labels))
    ensures Found(b, slots, labels) == Found(b, slots[i..], labels)
  {
    if i > 0 {
      FoundSplit(b, slots[1..], labels, i - 1);
      assert slots[1..][i - 1..] == slots[i..];
    }
  }

  /** Matching one more label. */
  lemma ChainStep(b: seq<byte>, at: nat, str: seq<byte>, offset: nat)
    requires offset < |str|
    ensures var s, dot := NextSub(b, at), DotAt(str, offset);
            Chain(b, at, LabelsFrom(str, offset)) <==>
            s.Sub? && s.length > 0 && s.length == dot - offset && Text(b, s) == str[offset..dot]
            && Chain(b, s.offset + s.length, LabelsFrom(str, dot + 1))
  {
    hide NextSub, Text, DotAt, LabelsFrom;
    LabelsFromStep(str, offset);
    var dot := DotAt(str, offset);
    assert LabelsFrom(str, offset)[1..] == LabelsFrom(str, dot + 1);
  }

  lemma ChainEnds(b: seq<byte>, at: nat, str: seq<byte>, offset: nat)
    requires offset >= |str|
    ensures Chain(b, at, LabelsFrom(str, offset))
  {
  }

  /** Does the name str match from position at on? */
  method MatchAt(b: seq<byte>, at: nat, str: seq<byte>, first: nat) returns (ok: bool)
    requires str != [] && first == DotAt(str, 0) && at < |b|
    ensures ok <==> Chain(b, at, Labels(str))
  {
    hide NextSub, Text, DotAt, Chain, Labels, LabelsFrom;
    var sub := GetNextSubstring(b, at);
    AllLabels(str);
    ChainStep(b, at, str, 0);
    if sub.Bad? || sub.length == 0 || sub.length != first { return false; }
    if Text(b, sub) != str[..first] { return false; }
    var offset := first + 1;
    while offset < |str|
      invariant sub.Sub? && sub.offset + sub.length <= |b|
      invariant Chain(b, at, Labels(str)) <==> Chain(b, sub.offset + sub.length, LabelsFrom(str, offset))
      decreases |str| - offset
    {
      var dot := DotAt(str, offset);
      ChainStep(b, sub.offset + sub.length, str, offset);
      sub := GetNextSubstring(b, sub.offset + sub.length);
      if sub.Bad? || sub.length == 0 || sub.length != dot - offset { return false; }
      if Text(b, sub) != str[offset..dot] { return false; }
      offset := dot + 1;
    }
    ChainEnds(b, sub.offset + sub.length, str, offset);
    ok := true;
  }

  lemma AllLabels(str: seq<byte>)
    requires str != []
    ensures LabelsFrom(str, 0) == Labels(str)
  {
    assert str[0..] == str;
  }

  /** Searches the table for the rest of a name. */
  method TableFind(b: seq<byte>, slots: seq<nat>, str: seq<byte>, first: nat) returns (r: Option<nat>)
    requires str != [] && first == DotAt(str, 0)
    ensures r == Found(b, slots, Labels(str))
  {
    hide Chain, Labels, DotAt;
    var i := 0;
    while i < |slots|
      invariant 0 <= i <= |slots|
      invariant forall j :: 0 <= j < i ==> !(slots[j] < |b| && Chain(b, slots[j], Labels(str)))
    {
      if slots[i] < |b| {
        var ok := MatchAt(b, slots[i], str, first);
        if ok {
          FoundSplit(b, slots, Labels(str), i);
          return Some(slots[i]);
        }
      }
      i := i + 1;
    }
    FoundSplit(b, slots, Labels(str), i);
    r := None;
  }

  // ----- Where writing a name ends in a pointer

  /** The table entry e is found for the rest of a name after its first i labels. */
  datatype Hit = Hit(i: nat, e: nat)

  function WithLabel(b: seq<byte>, at: nat, l: Label): (b': seq<byte>)
    requires at + 1 + |l| <= |b|
    ensures |b'| == |b|
  {
    b[..at] + ([|l| % 256] + l) + b[at + 1 + |l|..]
  }

  /** Writing labels[i..] at `at`: the first search that succeeds. Each label written is a
      table entry for the searches after it. */
  ghost function Search(b: seq<byte>, ring: Ring<nat>, at: nat, labels: seq<Label>, i: nat): (h: Option<Hit>)
    requires ring.Valid() && i <= |labels|
    ensures h.Some? ==> i <= h.value.i < |labels| && h.value.e < |b|
    decreases |labels| - i
  {
    if i == |labels| then None
    else
      match Found(b, ring.slots, labels[i..])
      case Some(e) => Some(Hit(i, e))
      case None =>
        if at + 1 + |labels[i]| > |b| then None
        else Search(WithLabel(b, at, labels[i]), Added(ring, at), at + 1 + |labels[i]|, labels, i + 1)
  }

  lemma SearchStep(b: seq<byte>, ring: Ring<nat>, at: nat, labels: seq<Label>, cur: nat)
    requires ring.Valid() && cur < |labels|
    ensures var f := Found(b, ring.slots, labels[cur..]);
            && (f.Some? ==> Search(b, ring, at, labels, cur) == Some(Hit(cur, f.value)))
            && (f.None? && at + 1 + |labels[cur]| <= |b| ==>
                  Search(b, ring, at, labels, cur)
                  == Search(WithLabel(b, at, labels[cur]), Added(ring, at), at + 1 + |labels[cur]|, labels, cur + 1))
  {
    hide Found;
  }

  lemma SearchDone(b: seq<byte>, ring: Ring<nat>, at: nat, labels: seq<Label>)
    requires ring.Valid()
    ensures Search(b, ring, at, labels, |labels|) == None
  {
  }
}
