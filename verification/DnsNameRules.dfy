/** When two names are the same, and the limits within which names are read, in plain numbers. */
module DnsNameRules {
  import opened Bytes
  import opened DnsNames
  import opened DnsNameWriter

  // ----- Equality

  /** The same byte, or the same ASCII letter in the other case. */
  predicate SameLetter(c: byte, d: byte) {
    || c == d
    || ('A' as byte <= c <= 'Z' as byte && d as int == c as int + 32)
    || ('A' as byte <= d <= 'Z' as byte && c as int == d as int + 32)
  }

  /** The same letters up to the end, or up to a zero byte in both. */
  ghost predicate SameText(x: Label, y: Label) {
    |x| == |y| && forall i :: 0 <= i < |x| && 0 !in x[..i] ==> SameLetter(x[i], y[i])
  }

  lemma LowerMeans(c: byte, d: byte)
    ensures Lower(c) == Lower(d) <==> SameLetter(c, d)
  {
  }

  lemma {:induction false} CaseEqualMeans(x: Label, y: Label)
    requires |x| == |y|
    ensures CaseEqual(x, y) <==> SameText(x, y)
  {
    hide Lower, SameLetter;
    if x != [] {
      LowerMeans(x[0], y[0]);
      CaseEqualMeans(x[1..], y[1..]);
      assert x[..0] == [];
      if x[0] == 0 {
        forall i | 0 < i < |x| ensures 0 in x[..i] { assert x[..i][0] == 0; }
      } else {
        SameTextCons(x, y);
      }
    }
  }

  lemma SameTextCons(x: Label, y: Label)
    requires |x| == |y| > 0 && x[0] != 0
    ensures SameText(x, y) <==> SameLetter(x[0], y[0]) && SameText(x[1..], y[1..])
  {
    hide SameLetter;
    assert x[..0] == [];
    forall i | 0 < i < |x| ensures 0 in x[..i] <==> 0 in x[1..][..i - 1] {
      assert x[..i] == [x[0]] + x[1..][..i - 1];
    }
    if SameText(x, y) {
      forall i | 0 <= i < |x| - 1 && 0 !in x[1..][..i] ensures SameLetter(x[1..][i], y[1..][i]) {
        assert 0 !in x[..i + 1];
      }
    }
    if SameLetter(x[0], y[0]) && SameText(x[1..], y[1..]) {
      forall i | 0 <= i < |x| && 0 !in x[..i] ensures SameLetter(x[i], y[i]) {
        if i > 0 { assert x[1..][i - 1] == x[i] && y[1..][i - 1] == y[i]; }
      }
    }
  }

  ghost predicate SameName(x: seq<Label>, y: seq<Label>) {
    |x| == |y| && forall k :: 0 <= k < |x| ==> SameText(x[k], y[k])
  }

  lemma {:induction false} SameLabelsMeans(x: seq<Label>, y: seq<Label>)
    ensures SameLabels(x, y) <==> SameName(x, y)
  {
    hide CaseEqual, SameText;
    if x != [] && y != [] {
      if |x[0]| == |y[0]| { CaseEqualMeans(x[0], y[0]); } else { SameTextSize(x[0], y[0]); }
      SameLabelsMeans(x[1..], y[1..]);
      SameNameCons(x, y);
    }
  }

  lemma SameTextSize(x: Label, y: Label)
    ensures SameText(x, y) ==> |x| == |y|
  {
  }

  lemma SameNameCons(x: seq<Label>, y: seq<Label>)
    requires x != [] && y != []
    ensures SameName(x, y) <==> SameText(x[0], y[0]) && SameName(x[1..], y[1..])
  {
    hide SameText;
    if SameText(x[0], y[0]) && SameName(x[1..], y[1..]) {
      forall k | 0 <= k < |x| ensures SameText(x[k], y[k]) {
        if k > 0 { assert x[1..][k - 1] == x[k] && y[1..][k - 1] == y[k]; }
      }
    }
  }

  /** Two names compare equal exactly when both can be read and they are the same but for the case of
      ASCII letters; what comes after a zero byte in a label makes no difference. */
  lemma EqualNames(b1: seq<byte>, at1: nat, b2: seq<byte>, at2: nat)
    ensures var x, y := NameAt(b1, at1), NameAt(b2, at2);
            Compared(b1, at1, b2, at2, 65).Some? <==> x.Some? && y.Some? && SameName(x.value.labels, y.value.labels)
  {
    hide SameLabels, SameName, Compared, Walk;
    ComparedIsSameLabels(b1, at1, b2, at2, 65);
    var x, y := NameAt(b1, at1), NameAt(b2, at2);
    if x.Some? && y.Some? { SameLabelsMeans(x.value.labels, y.value.labels); }
  }

  // ----- Limits

  /** Positions each of which but the last holds a pointer to the next. */
  ghost predicate PointerChain(b: seq<byte>, p: seq<nat>) {
    && p != [] && (forall i :: 0 <= i < |p| ==> p[i] < |b|) && b[p[|p| - 1]] < 192
    && forall i :: 0 <= i < |p| - 1 ==> Points(b, p[i], p[i + 1])
  }

  /** Two bytes whose top two bits are set and whose other 14 bits are the target. */
  ghost predicate Points(b: seq<byte>, at: nat, target: nat) {
    at + 2 <= |b| && b[at] >= 192 && target == (b[at] - 192) * 256 + b[at + 1] as nat
  }

  lemma PointsTarget(b: seq<byte>, at: nat, target: nat)
    requires Points(b, at, target)
    ensures IsRef(b[at]) && Target(b, at) == target
  {
  }

  lemma {:induction false} ChainFollowed(b: seq<byte>, p: seq<nat>, h: nat)
    requires PointerChain(b, p) && h < |p| && h <= 16
    ensures Follow(b, p[h], h) == if |p| <= 17 then Some(p[|p| - 1]) else None
    decreases |p| - h
  {
    hide Target;
    if h < |p| - 1 {
      PointsTarget(b, p[h], p[h + 1]);
      if h < 16 { ChainFollowed(b, p, h + 1); }
    }
  }

  /** Sixteen pointers in a row are followed, and no more. */
  lemma SixteenPointers(b: seq<byte>, p: seq<nat>)
    requires PointerChain(b, p)
    ensures Follow(b, p[0], 0) == if |p| - 1 <= 16 then Some(p[|p| - 1]) else None
  {
    ChainFollowed(b, p, 0);
  }

  lemma {:induction false} WalkEnough(b: seq<byte>, at: nat, n: nat, m: nat)
    requires Walk(b, at, n).Some?
    ensures Walk(b, at, m) == if |Walk(b, at, n).value.labels| < m then Walk(b, at, n) else None
    decreases n
  {
    hide NextSub, Text;
    var s := NextSub(b, at);
    if m > 0 && s.length > 0 { WalkEnough(b, s.offset + s.length, n - 1, m - 1); }
  }

  /** Of the names that can be read in any number of steps, those of up to 64 labels are read. */
  lemma SixtyFourLabels(b: seq<byte>, at: nat, n: nat)
    requires Walk(b, at, n).Some?
    ensures NameAt(b, at) == if |Walk(b, at, n).value.labels| <= 64 then Walk(b, at, n) else None
  {
    hide Walk;
    WalkEnough(b, at, n, 65);
  }

  /** The table after these positions were added to an empty one. */
  ghost function AddedAll(os: seq<nat>): (r: Ring<nat>)
    ensures r.Valid()
  {
    if os == [] then NO_POSITIONS else Added(AddedAll(os[..|os| - 1]), os[|os| - 1])
  }

  /** The table after n positions. */
  ghost predicate Counted(r: Ring<nat>, n: nat) {
    |r.slots| == (if n <= 16 then n else 16) && r.next == n % 16
  }

  /** Position n goes to slot n modulo sixteen. */
  lemma OneAdded(r: Ring<nat>, o: nat, n: nat)
    requires r.Valid() && Counted(r, n)
    ensures var s := Added(r, o).slots;
            n % 16 < |s| && s[n % 16] == o && forall j :: 0 <= j < |r.slots| && j != n % 16 ==> j < |s| && s[j] == r.slots[j]
    ensures Counted(Added(r, o), n + 1)
  {
  }

  lemma SlotsDiffer(k: nat, n: nat)
    requires k < n <= k + 15
    ensures k % 16 != n % 16
  {
  }

  /** The table holds exactly the last sixteen positions, each in the slot of its number modulo sixteen. */
  lemma {:induction false} SixteenPositions(os: seq<nat>, k: nat)
    requires k < |os|
    ensures Counted(AddedAll(os), |os|)
    ensures |os| - 16 <= k ==> k % 16 < |AddedAll(os).slots| && AddedAll(os).slots[k % 16] == os[k]
  {
    hide Added;
    var n := |os| - 1;
    var before := AddedAll(os[..n]);
    if n > 0 { SixteenPositions(os[..n], if k < n then k else 0); }
    OneAdded(before, os[n], n);
    if |os| - 16 <= k < n { SlotsDiffer(k, n); }
  }
}
