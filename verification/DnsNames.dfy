/** Reading domain names from a DNS message (section 4.1.4 of RFC 1035), as mdns.h
    does it: one substring at a time, following compression pointers. */
module DnsNames {
  import opened Bytes

  type Label = seq<byte>

  const DOT: byte := 46
  const MAX_HOPS := 16
  const MAX_SUBSTRINGS := 64

  /** A label's position and length, and whether a pointer led to it; length 0 ends a name. */
  datatype Sub = Bad | Sub(offset: nat, length: nat, ref: bool)

  predicate IsRef(v: byte) {
    v >= 192
  }

  function Target(b: seq<byte>, at: nat): nat
    requires at + 2 <= |b|
  {
    Host16(b, at) % 0x4000
  }

  /** Where a chain of pointers leads, after `hops` of them. */
  function Follow(b: seq<byte>, at: nat, hops: nat): (r: Option<nat>)
    requires at < |b| && hops <= MAX_HOPS
    ensures r.Some? ==> r.value < |b| && !IsRef(b[r.value])
    decreases MAX_HOPS - hops, b
  {
    if !IsRef(b[at]) then Some(at)
    else if |b| < at + 2 || Target(b, at) >= |b| || hops + 1 > MAX_HOPS then None
    else Follow(b, Target(b, at), hops + 1)
  }

  function NextSub(b: seq<byte>, at: nat): (r: Sub)
    ensures r.Sub? ==> r.offset + r.length <= |b|
    ensures r.Sub? && r.length == 0 && !r.ref ==> r.offset == at < |b|
  {
    if at >= |b| then Bad
    else if b[at] == 0 then Sub(at, 0, false)
    else
      match Follow(b, at, 0)
      case None => Bad
      case Some(o) => if |b| < o + 1 + b[o] then Bad else Sub(o + 1, b[o], IsRef(b[at]))
  }

  /** Follows pointers and bounds-checks the label found. */
  method GetNextSubstring(b: seq<byte>, at: nat) returns (r: Sub)
    ensures r == NextSub(b, at)
  {
    if at >= |b| { return Bad; }
    if b[at] == 0 { return Sub(at, 0, false); }
    var offset: nat, hops, ref := at, 0, false;
    while IsRef(b[offset])
      invariant offset < |b| && 0 <= hops <= MAX_HOPS && Follow(b, at, 0) == Follow(b, offset, hops)
      invariant ref ==> IsRef(b[at])
      invariant !ref ==> offset == at
      decreases MAX_HOPS - hops
    {
      if |b| < offset + 2 { return Bad; }
      var next := Target(b, offset);
      if next >= |b| { return Bad; }
      ref := true;
      if hops + 1 > MAX_HOPS { return Bad; }
      offset, hops := next, hops + 1;
    }
    var length := b[offset];
    offset := offset + 1;
    if |b| < offset + length { return Bad; }
    r := Sub(offset, length, ref);
  }

  /** A name: its labels, and where the data after it begins. */
  datatype Walked = Walked(labels: seq<Label>, end: nat)

  function Text(b: seq<byte>, s: Sub): (t: Label)
    requires s.Sub? && s.offset + s.length <= |b|
    ensures |t| == s.length
  {
    b[s.offset..s.offset + s.length]
  }

  /** Reading at most n substrings from `at`. */
  function Walk(b: seq<byte>, at: nat, n: nat): (r: Option<Walked>)
    ensures r.Some? ==> r.value.end > at
    decreases n, b
  {
    var s := NextSub(b, at);
    if n == 0 || s.Bad? then None
    else if s.length == 0 then Some(Walked([], at + if s.ref then 2 else 1))
    else
      match Walk(b, s.offset + s.length, n - 1)
      case None => None
      case Some(rest) => Some(Walked([Text(b, s)] + rest.labels, if s.ref then at + 2 else rest.end))
  }

  /** The name at `at`, as far as the readers' limit allows: 64 labels and the end. */
  function NameAt(b: seq<byte>, at: nat): Option<Walked> {
    Walk(b, at, MAX_SUBSTRINGS + 1)
  }

  /** Skipping a name stops at the first pointer. */
  function Skipped(b: seq<byte>, at: nat, n: nat): Option<nat>
    decreases n, b
  {
    var s := NextSub(b, at);
    if n == 0 || s.Bad? then None
    else if s.ref then Some(at + 2)
    else if s.length == 0 then Some(at + 1)
    else Skipped(b, s.offset + s.length, n - 1)
  }

  /** Moves past a name; a name that cannot be skipped leaves the offset alone. */
  method StringSkip(b: seq<byte>, offset: nat) returns (ok: bool, end: nat)
    ensures var r := Skipped(b, offset, MAX_SUBSTRINGS + 1);
            if ok then r == Some(end) else r == None && end == offset
  {
    var cur: nat, counter := offset, 0;
    while true
      invariant 0 <= counter <= MAX_SUBSTRINGS + 1
      invariant Skipped(b, offset, MAX_SUBSTRINGS + 1) == Skipped(b, cur, MAX_SUBSTRINGS + 1 - counter)
      decreases MAX_SUBSTRINGS + 1 - counter
    {
      var s := GetNextSubstring(b, cur);
      if s.Bad? || counter > MAX_SUBSTRINGS { return false, offset; }
      counter := counter + 1;
      if s.ref { return true, cur + 2; }
      cur := s.offset + s.length;
      if s.length == 0 { return true, cur + 1; }
    }
  }

  // ----- Comparing two names

  function Lower(c: byte): byte {
    if 65 <= c <= 90 then c + 32 else c
  }

  /** C's strncasecmp finds no difference: equal up to case, or up to a common zero byte. */
  predicate CaseEqual(x: seq<byte>, y: seq<byte>)
    requires |x| == |y|
  {
    x == [] || (Lower(x[0]) == Lower(y[0]) && (x[0] == 0 || CaseEqual(x[1..], y[1..])))
  }

  predicate SameLabels(x: seq<Label>, y: seq<Label>) {
    if x == [] || y == [] then x == y
    else |x[0]| == |y[0]| && CaseEqual(x[0], y[0]) && SameLabels(x[1..], y[1..])
  }

  /** Comparing at most n substrings of two names; the ends of both if they agree. */
  function Compared(b1: seq<byte>, at1: nat, b2: seq<byte>, at2: nat, n: nat): Option<(nat, nat)>
    decreases n, b1
  {
    var s1, s2 := NextSub(b1, at1), NextSub(b2, at2);
    if n == 0 || s1.Bad? || s2.Bad? || s1.length != s2.length || !CaseEqual(Text(b2, s2), Text(b1, s1)) then None
    else
      var rest := if s1.length == 0 then Some((at1 + 1, at2 + 1))
                  else Compared(b1, s1.offset + s1.length, b2, s2.offset + s2.length, n - 1);
      Ended(if s1.ref then Some(at1 + 2) else None, if s2.ref then Some(at2 + 2) else None, rest)
  }

  /** A pointer passed on the way fixes where a name ends. */
  function Ended(e1: Option<nat>, e2: Option<nat>, r: Option<(nat, nat)>): Option<(nat, nat)> {
    match r
    case None => None
    case Some((x, y)) => Some((if e1.Some? then e1.value else x, if e2.Some? then e2.value else y))
  }

  /** Compares the names at two places, and on success moves past both. */
  method StringEqual(b1: seq<byte>, at1: nat, b2: seq<byte>, at2: nat)
    returns (same: bool, end1: nat, end2: nat)
    ensures var r := Compared(b1, at1, b2, at2, MAX_SUBSTRINGS + 1);
            if same then r == Some((end1, end2)) else r == None && end1 == at1 && end2 == at2
  {
    hide CaseEqual, NextSub, Text;
    var cur1: nat, cur2: nat, counter := at1, at2, 0;
    var e1: Option<nat>, e2: Option<nat> := None, None;
    while true
      invariant 0 <= counter <= MAX_SUBSTRINGS + 1
      invariant Compared(b1, at1, b2, at2, MAX_SUBSTRINGS + 1) ==
                Ended(e1, e2, Compared(b1, cur1, b2, cur2, MAX_SUBSTRINGS + 1 - counter))
      decreases MAX_SUBSTRINGS + 1 - counter
    {
      var s1 := GetNextSubstring(b1, cur1);
      var s2 := GetNextSubstring(b2, cur2);
      if s1.Bad? || s2.Bad? || counter > MAX_SUBSTRINGS { return false, at1, at2; }
      counter := counter + 1;
      if s1.length != s2.length { return false, at1, at2; }
      if !CaseEqual(Text(b2, s2), Text(b1, s1)) { return false, at1, at2; }
      if s1.ref && e1.None? { e1 := Some(cur1 + 2); }
      if s2.ref && e2.None? { e2 := Some(cur2 + 2); }
      cur1, cur2 := s1.offset + s1.length, s2.offset + s2.length;
      if s1.length == 0 {
        return true, if e1.Some? then e1.value else cur1 + 1, if e2.Some? then e2.value else cur2 + 1;
      }
    }
  }

  lemma {:induction false} CaseEqualSymmetric(x: seq<byte>, y: seq<byte>)
    requires |x| == |y|
    ensures CaseEqual(x, y) <==> CaseEqual(y, x)
  {
    if x != [] {
      CaseEqualSymmetric(x[1..], y[1..]);
      assert Lower(x[0]) == Lower(y[0]) ==> (x[0] == 0 <==> y[0] == 0);
    }
  }

  /** Two names compare equal exactly when both can be read and agree label by label
      up to case; the comparison then ends where reading each of them ends. */
  lemma {:induction false} ComparedIsSameLabels(b1: seq<byte>, at1: nat, b2: seq<byte>, at2: nat, n: nat)
    ensures var x, y, r := Walk(b1, at1, n), Walk(b2, at2, n), Compared(b1, at1, b2, at2, n);
            && (r.Some? <==> x.Some? && y.Some? && SameLabels(x.value.labels, y.value.labels))
            && (r.Some? ==> r.value == (x.value.end, y.value.end))
    decreases n
  {
    hide CaseEqual, NextSub, Text;
    var s1, s2 := NextSub(b1, at1), NextSub(b2, at2);
    if n > 0 && s1.Sub? && s2.Sub? && s1.length == s2.length {
      CaseEqualSymmetric(Text(b1, s1), Text(b2, s2));
      if s1.length > 0 {
        ComparedIsSameLabels(b1, s1.offset + s1.length, b2, s2.offset + s2.length, n - 1);
        var x, y := Walk(b1, s1.offset + s1.length, n - 1), Walk(b2, s2.offset + s2.length, n - 1);
        if x.Some? && y.Some? { SameCons(Text(b1, s1), x.value.labels, Text(b2, s2), y.value.labels); }
      } else {
        EmptyEqual(Text(b2, s2), Text(b1, s1));
      }
    }
  }

  lemma SameCons(x: Label, xs: seq<Label>, y: Label, ys: seq<Label>)
    requires |x| == |y|
    ensures SameLabels([x] + xs, [y] + ys) <==> CaseEqual(x, y) && SameLabels(xs, ys)
  {
    assert ([x] + xs)[1..] == xs && ([y] + ys)[1..] == ys;
  }

  lemma EmptyEqual(x: seq<byte>, y: seq<byte>)
    requires |x| == |y| == 0
    ensures CaseEqual(x, y)
  {
  }

  /** When a name can be read, skipping it ends at the same place. */
  lemma {:induction false} SkipAgrees(b: seq<byte>, at: nat, n: nat)
    ensures Walk(b, at, n).Some? ==> Skipped(b, at, n) == Some(Walk(b, at, n).value.end)
    decreases n
  {
    var s := NextSub(b, at);
    if n > 0 && s.Sub? && s.length > 0 { SkipAgrees(b, s.offset + s.length, n - 1); }
  }

  // ----- Extracting a name as text

  /** The labels with a dot after each. */
  function Dotted(labels: seq<Label>): seq<byte> {
    if labels == [] then [] else labels[0] + [DOT] + Dotted(labels[1..])
  }

  function Prefix(s: seq<byte>, n: nat): seq<byte> {
    if |s| <= n then s else s[..n]
  }

  lemma PrefixPrefix(x: seq<byte>, y: seq<byte>, n: nat)
    ensures Prefix(Prefix(x, n) + y, n) == Prefix(x + y, n)
  {
  }

  /** Copies as much of text as fits and then, if there is still room, a dot. */
  method AppendLabel(str: array<byte>, dst: nat, text: Label) returns (end: nat)
    requires dst <= str.Length
    modifies str
    ensures dst <= end <= str.Length
    ensures str[..end] == Prefix(old(str[..dst]) + text + [DOT], str.Length)
  {
    var copy := if |text| < str.Length - dst then |text| else str.Length - dst;
    var i := 0;
    while i < copy
      invariant 0 <= i <= copy
      invariant str[..dst + i] == old(str[..dst]) + text[..i]
    {
      str[dst + i] := text[i];
      assert str[..dst + (i + 1)] == str[..dst + i] + [text[i]];
      i := i + 1;
    }
    end := dst + copy;
    if end < str.Length {
      ghost var before := str[..end];
      str[end] := DOT;
      end := end + 1;
      assert str[..end] == before + [DOT];
    }
  }

  /** The text a buffer of n bytes holds when the name is copied into it after `sofar`. */
  ghost function Extracted(sofar: seq<byte>, w: Option<Walked>, n: nat): Option<seq<byte>> {
    match w
    case None => None
    case Some(name) => Some(Prefix(sofar + Dotted(name.labels), n))
  }

  lemma ExtractedStep(sofar: seq<byte>, text: Label, labels: seq<Label>, n: nat)
    ensures Prefix(Prefix(sofar + text + [DOT], n) + Dotted(labels), n)
            == Prefix(sofar + Dotted([text] + labels), n)
  {
    assert ([text] + labels)[1..] == labels;
    PrefixPrefix(sofar + text + [DOT], Dotted(labels), n);
    assert sofar + text + [DOT] + Dotted(labels) == sofar + (text + [DOT] + Dotted(labels));
  }

  /** Where a name ends, once a pointer may have been passed. */
  ghost function EndOf(e: Option<nat>, w: Option<Walked>): Option<nat> {
    if w.None? then None else if e.Some? then e else Some(w.value.end)
  }

  /** Reads a name into a buffer: exactly as many bytes of its dotted text as fit. A
      name that cannot be read yields no text and leaves the offset alone. */
  method StringExtract(b: seq<byte>, offset: nat, str: array<byte>) returns (length: nat, end: nat)
    modifies str
    ensures var w := NameAt(b, offset);
            if w.None? then length == 0 && end == offset
            else length <= str.Length && end == w.value.end
                 && str[..length] == Prefix(Dotted(w.value.labels), str.Length)
  {
    hide NextSub, Text, Prefix, Dotted;
    var cur: nat, counter, dst: nat := offset, 0, 0;
    var e: Option<nat> := None;
    ghost var w := NameAt(b, offset);
    while true
      invariant 0 <= counter <= MAX_SUBSTRINGS + 1 && dst <= str.Length
      invariant EndOf(None, w) == EndOf(e, Walk(b, cur, MAX_SUBSTRINGS + 1 - counter))
      invariant Extracted([], w, str.Length) ==
                Extracted(str[..dst], Walk(b, cur, MAX_SUBSTRINGS + 1 - counter), str.Length)
      decreases MAX_SUBSTRINGS + 1 - counter
    {
      var s := GetNextSubstring(b, cur);
      if s.Bad? || counter > MAX_SUBSTRINGS { return 0, offset; }
      counter := counter + 1;
      if s.ref && e.None? { e := Some(cur + 2); }
      cur := s.offset + s.length;
      if s.length == 0 {
        length, end := dst, if e.Some? then e.value else cur + 1;
        FullText(str[..dst], str.Length);
        assert [] + Dotted(w.value.labels) == Dotted(w.value.labels);
        return;
      }
      ghost var rest := Walk(b, cur, MAX_SUBSTRINGS + 1 - counter);
      if rest.Some? { ExtractedStep(str[..dst], Text(b, s), rest.value.labels, str.Length); }
      dst := AppendLabel(str, dst, Text(b, s));
    }
  }

  lemma FullText(s: seq<byte>, n: nat)
    requires |s| <= n
    ensures Prefix(s + Dotted([]), n) == s
  {
  }
}
