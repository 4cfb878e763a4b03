/** What it means that a message spells a name at some place, and that reading
    the place yields exactly that name. */
module DnsSpelling {
  import opened Bytes
  import opened DnsNames

  /** The label l stands at `at`, and all its bytes belong to names. */
  ghost predicate HasLabel(b: seq<byte>, mark: seq<bool>, at: nat, l: Label)
    requires |mark| == |b|
  {
    at + 1 + |l| <= |b| && b[at] == |l| && b[at + 1..at + 1 + |l|] == l
    && forall i :: at <= i < at + 1 + |l| ==> mark[i]
  }

  /** The message spells these labels at `at`: label by label up to the zero byte, or up
      to a pointer strictly backwards to a label where the remaining labels are spelled.
      mark says which bytes belong to names. */
  ghost predicate Spells(b: seq<byte>, mark: seq<bool>, at: nat, labels: seq<Label>)
    requires |mark| == |b|
    decreases |labels|, at
  {
    at < |b| && mark[at]
    && if IsRef(b[at]) then
         labels != [] && at + 2 <= |b| && mark[at + 1]
         && Target(b, at) < at && !IsRef(b[Target(b, at)]) && Spells(b, mark, Target(b, at), labels)
       else if b[at] == 0 then labels == []
       else labels != [] && HasLabel(b, mark, at, labels[0]) && Spells(b, mark, at + 1 + b[at], labels[1..])
  }

  /** Where the name at `at` ends. */
  ghost function NameEnd(b: seq<byte>, at: nat): (end: nat)
    ensures end >= at
    decreases |b| - at
  {
    if at >= |b| then at
    else if IsRef(b[at]) then at + 2
    else if b[at] == 0 then at + 1
    else NameEnd(b, at + 1 + b[at])
  }

  /** The bytes that belong to names are kept. */
  ghost predicate Keeps(b: seq<byte>, mark: seq<bool>, b': seq<byte>, mark': seq<bool>)
    requires |mark| == |b| && |mark'| == |b'|
  {
    forall i {:trigger mark[i]} {:trigger mark'[i]} :: 0 <= i < |b| && mark[i] ==> i < |b'| && mark'[i] && b'[i] == b[i]
  }

  lemma KeepsLabel(b: seq<byte>, mark: seq<bool>, b': seq<byte>, mark': seq<bool>, at: nat, l: Label)
    requires |mark| == |b| && |mark'| == |b'| && Keeps(b, mark, b', mark') && HasLabel(b, mark, at, l)
    ensures HasLabel(b', mark', at, l)
  {
    assert mark[at] && mark[at + |l|];
    forall i | 0 <= i < |l| ensures b'[at + 1 + i] == l[i] {
      assert mark[at + 1 + i] && b[at + 1..at + 1 + |l|][i] == l[i];
    }
  }

  /** Changing bytes that belong to no name changes no name. */
  lemma {:induction false} SpellsKept(b: seq<byte>, mark: seq<bool>, b': seq<byte>, mark': seq<bool>, at: nat, labels: seq<Label>)
    requires |mark| == |b| && |mark'| == |b'| && Keeps(b, mark, b', mark') && Spells(b, mark, at, labels)
    ensures Spells(b', mark', at, labels) && NameEnd(b', at) == NameEnd(b, at)
    decreases |labels|, at
  {
    hide HasLabel, Keeps, Target;
    KeepsByte(b, mark, b', mark', at);
    if IsRef(b[at]) {
      KeepsByte(b, mark, b', mark', at + 1);
      SameTarget(b, b', at);
      var t := Target(b, at);
      SpellsKept(b, mark, b', mark', t, labels);
      KeepsByte(b, mark, b', mark', t);
    } else if b[at] != 0 {
      KeepsLabel(b, mark, b', mark', at, labels[0]);
      SpellsKept(b, mark, b', mark', at + 1 + b[at], labels[1..]);
    }
  }

  lemma KeepsByte(b: seq<byte>, mark: seq<bool>, b': seq<byte>, mark': seq<bool>, i: nat)
    requires |mark| == |b| && |mark'| == |b'| && Keeps(b, mark, b', mark') && i < |b| && mark[i]
    ensures i < |b'| && mark'[i] && b'[i] == b[i]
  {
  }

  lemma SameTarget(b: seq<byte>, b': seq<byte>, at: nat)
    requires at + 2 <= |b| && at + 2 <= |b'| && b[at] == b'[at] && b[at + 1] == b'[at + 1]
    ensures Target(b, at) == Target(b', at)
  {
  }

  /** Reading one substring of a spelled name. */
  lemma SpellsNext(b: seq<byte>, mark: seq<bool>, at: nat, labels: seq<Label>)
    requires |mark| == |b| && Spells(b, mark, at, labels)
    ensures var s := NextSub(b, at);
            if labels == [] then s == Sub(at, 0, false) && NameEnd(b, at) == at + 1
            else && s.Sub? && s.length == |labels[0]| > 0 && Text(b, s) == labels[0]
                 && Spells(b, mark, s.offset + s.length, labels[1..])
                 && NameEnd(b, at) == if s.ref then at + 2 else NameEnd(b, s.offset + s.length)
  {
    if IsRef(b[at]) {
      var t := Target(b, at);
      assert Follow(b, t, 1) == Some(t);
    }
  }

  /** What is spelled is what is read, by every reader that accepts that many labels. */
  lemma {:induction false} SpellsIsRead(b: seq<byte>, mark: seq<bool>, at: nat, labels: seq<Label>, n: nat)
    requires |mark| == |b| && Spells(b, mark, at, labels) && |labels| < n
    ensures Walk(b, at, n) == Some(Walked(labels, NameEnd(b, at)))
    decreases n
  {
    hide NextSub, NameEnd, Spells, Text;
    SpellsNext(b, mark, at, labels);
    if labels != [] {
      var s := NextSub(b, at);
      SpellsIsRead(b, mark, s.offset + s.length, labels[1..], n - 1);
      assert [labels[0]] + labels[1..] == labels;
    }
  }

  // ----- Matching a name against what is spelled somewhere

  /** The substrings from `at` on start with these labels. */
  ghost predicate Chain(b: seq<byte>, at: nat, labels: seq<Label>)
    decreases |labels|
  {
    labels == []
    || (var s := NextSub(b, at);
        s.Sub? && s.length > 0 && s.length == |labels[0]| && Text(b, s) == labels[0]
        && Chain(b, s.offset + s.length, labels[1..]))
  }

  /** Matching accepts every name that the spelled name starts with, and no other. */
  lemma {:induction false} ChainIsPrefix(b: seq<byte>, mark: seq<bool>, at: nat, spelled: seq<Label>, labels: seq<Label>)
    requires |mark| == |b| && Spells(b, mark, at, spelled)
    ensures Chain(b, at, labels) <==> labels <= spelled
    decreases |labels|
  {
    hide NextSub, NameEnd, Spells, Text;
    SpellsNext(b, mark, at, spelled);
    if labels != [] && spelled != [] {
      var s := NextSub(b, at);
      ChainIsPrefix(b, mark, s.offset + s.length, spelled[1..], labels[1..]);
      PrefixCons(labels, spelled);
    }
  }

  lemma PrefixCons<T>(x: seq<T>, y: seq<T>)
    requires x != [] && y != []
    ensures x <= y <==> x[0] == y[0] && x[1..] <= y[1..]
  {
    if x[0] == y[0] && x[1..] <= y[1..] {
      forall i | 0 <= i < |x| ensures x[i] == y[i] {
        if i > 0 { assert x[i] == x[1..][i - 1] && y[i] == y[1..][i - 1]; }
      }
    }
  }
}
