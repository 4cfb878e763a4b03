/** Compressed names: what mdns_string_make writes, and that earlier names stay readable. */
module DnsCompression {
  import opened Bytes
  import opened DnsNames
  import opened DnsSpelling
  import opened DnsNameWriter

  /** Labels that can be written: not empty and short enough not to be read as a pointer. */
  ghost predicate Writable(labels: seq<Label>) {
    forall i :: 0 <= i < |labels| ==> 1 <= |labels[i]| <= MAX_LABEL
  }

  /** While the labels from i on are still to be written, they or their beginning repeat the
      labels from j up to i, of which the table still has the position. */
  ghost predicate Repeats(labels: seq<Label>, j: nat, i: nat) {
    && j < i < |labels| && i - j <= RING
    && (labels[i..] <= labels[j..i] || labels[j..i] <= labels[i..])
  }

  /** A name whose writing can find itself in the table. */
  ghost predicate Circular(labels: seq<Label>) {
    exists i: nat, j: nat :: Repeats(labels, j, i)
  }

  /** A name without repeated labels never finds itself. */
  lemma DistinctNotCircular(labels: seq<Label>)
    requires forall i, j :: 0 <= i < j < |labels| ==> labels[i] != labels[j]
    ensures !Circular(labels)
  {
    forall i: nat, j: nat | j < i < |labels| ensures !Repeats(labels, j, i) {
      assert labels[i..][0] == labels[i] && labels[j..i][0] == labels[j];
    }
  }

  /** Labels as written without compression, and without the final zero byte. */
  ghost function Enc(labels: seq<Label>): seq<byte> {
    if labels == [] then []
    else Enc(labels[..|labels| - 1]) + [|labels[|labels| - 1]| % 256] + labels[|labels| - 1]
  }

  lemma EmptyEnc()
    ensures Enc([]) == []
  {
  }

  lemma EncSnoc(labels: seq<Label>, k: nat)
    requires k < |labels|
    ensures Enc(labels[..k + 1]) == Enc(labels[..k]) + [|labels[k]| % 256] + labels[k]
  {
    var t := labels[..k + 1];
    assert t[..|t| - 1] == labels[..k] && t[|t| - 1] == labels[k];
  }

  /** m is what remains of some name after dropping labels from its front. */
  ghost predicate IsSuffixOf(m: seq<Label>, all: set<seq<Label>>) {
    exists v :: v in all && |m| <= |v| && v[|v| - |m|..] == m
  }

  /** The rest of a name could be taken for the start of a longer one. */
  ghost predicate Clash(labels: seq<Label>, all: set<seq<Label>>) {
    exists m, i :: IsSuffixOf(m, all) && 0 <= i < |labels| && labels[i..] <= m && labels[i..] != m
  }

  /** A table entry stands at a label from where the rest of some name is spelled. */
  ghost predicate SlotOk(b: seq<byte>, mark: seq<bool>, e: nat, all: set<seq<Label>>)
    requires |mark| == |b|
  {
    e < |b| && !IsRef(b[e]) && exists m :: Spells(b, mark, e, m) && m != [] && IsSuffixOf(m, all)
  }

  ghost predicate TableOk(b: seq<byte>, mark: seq<bool>, slots: seq<nat>, all: set<seq<Label>>)
    requires |mark| == |b|
  {
    forall e :: e in slots ==> SlotOk(b, mark, e, all)
  }

  lemma SlotKept(b: seq<byte>, mark: seq<bool>, b': seq<byte>, mark': seq<bool>, e: nat, all: set<seq<Label>>, all': set<seq<Label>>)
    requires |mark| == |b| && |mark'| == |b'| && Keeps(b, mark, b', mark') && SlotOk(b, mark, e, all) && all <= all'
    ensures SlotOk(b', mark', e, all')
  {
    var m :| Spells(b, mark, e, m) && m != [] && IsSuffixOf(m, all);
    SpellsKept(b, mark, b', mark', e, m);
    var v :| v in all && |m| <= |v| && v[|v| - |m|..] == m;
    assert v in all';
    assert mark[e];
  }

  // ----- While a name is being written

  ghost predicate Direct(b: seq<byte>, at: nat, l: Label) {
    at + 1 + |l| <= |b| && b[at] == |l| && b[at + 1..at + 1 + |l|] == l
  }

  /** An entry of the unfinished name: label j of it has been written there. */
  ghost predicate Pending(b: seq<byte>, start: nat, labels: seq<Label>, cur: nat, data: nat, e: nat)
    requires cur <= |labels|
  {
    exists j :: 0 <= j < cur && e == start + |Enc(labels[..j])| && e + 1 + |labels[j]| <= data && Direct(b, e, labels[j])
  }

  /** The first cur labels of a name that starts at `start` are written; no byte from
      there on belongs to a name yet. */
  ghost predicate Writing(b: seq<byte>, mark: seq<bool>, slots: seq<nat>, all: set<seq<Label>>,
                          start: nat, labels: seq<Label>, cur: nat, data: nat)
    requires |mark| == |b|
  {
    && cur <= |labels| && start <= data <= |b| && b[start..data] == Enc(labels[..cur])
    && (forall i :: start <= i < |b| ==> !mark[i])
    && (forall e :: e in slots ==> SlotOk(b, mark, e, all) || Pending(b, start, labels, cur, data, e))
  }

  lemma PendingStep(b: seq<byte>, b': seq<byte>, start: nat, labels: seq<Label>, cur: nat, data: nat, e: nat)
    requires cur < |labels| && data <= |b| == |b'| && b'[..data] == b[..data]
    requires Pending(b, start, labels, cur, data, e)
    ensures Pending(b', start, labels, cur + 1, data + 1 + |labels[cur]|, e)
  {
    hide Direct, Enc;
    var j :| 0 <= j < cur && e == start + |Enc(labels[..j])| && e + 1 + |labels[j]| <= data && Direct(b, e, labels[j]);
    DirectKept(b, b', e, labels[j], data);
  }

  lemma DirectKept(b: seq<byte>, b': seq<byte>, at: nat, l: Label, data: nat)
    requires Direct(b, at, l) && at + 1 + |l| <= data <= |b| == |b'| && b'[..data] == b[..data]
    ensures Direct(b', at, l)
  {
    assert b'[at] == b'[..data][at] == b[..data][at] == b[at];
    forall i | at + 1 <= i < at + 1 + |l| ensures b'[i] == b[i] {
      assert b'[..data][i] == b[..data][i];
    }
  }

  /** One more label in the buffer. */
  lemma EncStep(b: seq<byte>, b': seq<byte>, start: nat, labels: seq<Label>, cur: nat, data: nat)
    requires cur < |labels| && |labels[cur]| < 256 && start <= data && data + 1 + |labels[cur]| <= |b| == |b'|
    requires b[start..data] == Enc(labels[..cur])
    requires b'[..data] == b[..data] && b'[data..data + 1 + |labels[cur]|] == [|labels[cur]| % 256] + labels[cur]
    ensures b'[start..data + 1 + |labels[cur]|] == Enc(labels[..cur + 1])
    ensures data == start + |Enc(labels[..cur])| && Direct(b', data, labels[cur])
  {
    hide Enc;
    EncSnoc(labels, cur);
    var l, next := labels[cur], data + 1 + |labels[cur]|;
    SamePart(b, b', data, start, data);
    assert b'[start..next] == b'[start..data] + b'[data..next];
    assert |b[start..data]| == data - start;
    var w := b'[data..next];
    assert b'[data] == w[0] && b'[data + 1..next] == w[1..] == l;
  }

  /** Writing one more label, and entering it in the table. */
  lemma WritingStep(b: seq<byte>, b': seq<byte>, mark: seq<bool>, slots: seq<nat>, slots': seq<nat>,
                    all: set<seq<Label>>, start: nat, labels: seq<Label>, cur: nat, data: nat)
    requires |mark| == |b| == |b'| && Writing(b, mark, slots, all, start, labels, cur, data)
    requires cur < |labels| && |labels[cur]| < 256 && data + 1 + |labels[cur]| <= |b|
    requires b'[..data] == b[..data] && b'[data..data + 1 + |labels[cur]|] == [|labels[cur]| % 256] + labels[cur]
    requires forall e :: e in slots' ==> e in slots || e == data
    ensures Writing(b', mark, slots', all, start, labels, cur + 1, data + 1 + |labels[cur]|)
  {
    var l := labels[cur];
    var next := data + 1 + |l|;
    forall i | 0 <= i < |b| && mark[i] ensures b'[i] == b[i] {
      assert b'[..data][i] == b[..data][i];
    }
    assert Keeps(b, mark, b', mark);
    hide Enc, SlotOk, Direct, Keeps;
    EncStep(b, b', start, labels, cur, data);
    forall e | e in slots' ensures SlotOk(b', mark, e, all) || Pending(b', start, labels, cur + 1, next, e) {
      if e == data {
        assert 0 <= cur < cur + 1 && e == start + |Enc(labels[..cur])|;
      } else if SlotOk(b, mark, e, all) {
        SlotKept(b, mark, b', mark, e, all, all);
      } else {
        PendingStep(b, b', start, labels, cur, data, e);
      }
    }
  }

  /** A match found while writing that leads to an earlier name. */
  lemma MatchIsSpelled(b: seq<byte>, mark: seq<bool>, slots: seq<nat>, all: set<seq<Label>>,
                       start: nat, labels: seq<Label>, cur: nat, data: nat, e: nat) returns (m: seq<Label>)
    requires |mark| == |b| && Writing(b, mark, slots, all, start, labels, cur, data)
    requires cur < |labels| && e in slots && Chain(b, e, labels[cur..]) && e < start
    ensures Spells(b, mark, e, m) && labels[cur..] <= m && IsSuffixOf(m, all) && !IsRef(b[e])
  {
    assert SlotOk(b, mark, e, all);
    m :| Spells(b, mark, e, m) && m != [] && IsSuffixOf(m, all);
    ChainIsPrefix(b, mark, e, m, labels[cur..]);
  }

  /** Any other match leads to a label of the name itself. */
  lemma MatchIsOwn(b: seq<byte>, mark: seq<bool>, slots: seq<nat>, all: set<seq<Label>>,
                   start: nat, labels: seq<Label>, cur: nat, data: nat, e: nat) returns (j: nat)
    requires |mark| == |b| && Writing(b, mark, slots, all, start, labels, cur, data) && e in slots && e >= start
    ensures j < cur && e == start + |Enc(labels[..j])|
  {
    hide Enc, Direct, Spells;
    if SlotOk(b, mark, e, all) { SlotMarked(b, mark, e, all); }
    assert Pending(b, start, labels, cur, data, e);
    j :| 0 <= j < cur && e == start + |Enc(labels[..j])| && e + 1 + |labels[j]| <= data && Direct(b, e, labels[j]);
  }

  lemma SlotMarked(b: seq<byte>, mark: seq<bool>, e: nat, all: set<seq<Label>>)
    requires |mark| == |b| && SlotOk(b, mark, e, all)
    ensures e < |b| && mark[e]
  {
    var m :| Spells(b, mark, e, m) && m != [] && IsSuffixOf(m, all);
  }

  // ----- When the name is finished

  ghost predicate Marked(mark: seq<bool>, from: nat, to: nat) {
    to <= |mark| && forall i :: from <= i < to ==> mark[i]
  }

  /** With its end in place, the name is spelled from each of its labels on. */
  lemma {:induction false} SpelledFrom(b: seq<byte>, mark: seq<bool>, start: nat, labels: seq<Label>, k: nat, j: nat, tail: seq<Label>)
    requires |mark| == |b| && j <= k <= |labels| && Writable(labels)
    requires var data := start + |Enc(labels[..k])|;
             data <= |b| && b[start..data] == Enc(labels[..k]) && Marked(mark, start, data) && Spells(b, mark, data, tail)
    ensures start + |Enc(labels[..j])| <= |b|
    ensures Spells(b, mark, start + |Enc(labels[..j])|, labels[j..k] + tail)
    ensures NameEnd(b, start + |Enc(labels[..j])|) == NameEnd(b, start + |Enc(labels[..k])|)
    decreases k - j
  {
    hide Spells, NameEnd, HasLabel, Enc;
    if j == k {
      assert labels[j..k] + tail == tail;
    } else {
      SpelledFrom(b, mark, start, labels, k, j + 1, tail);
      var at, l := start + |Enc(labels[..j])|, labels[j];
      LabelInPlace(b, mark, start, labels, k, j);
      SpellsCons(b, mark, at, l, labels[j + 1..k] + tail);
      assert labels[j..k] + tail == [l] + (labels[j + 1..k] + tail);
    }
  }

  lemma SpellsCons(b: seq<byte>, mark: seq<bool>, at: nat, l: Label, rest: seq<Label>)
    requires |mark| == |b| && HasLabel(b, mark, at, l) && 1 <= |l| <= MAX_LABEL && Spells(b, mark, at + 1 + |l|, rest)
    ensures Spells(b, mark, at, [l] + rest) && NameEnd(b, at) == NameEnd(b, at + 1 + |l|)
  {
    assert ([l] + rest)[1..] == rest;
  }

  lemma {:induction false} EncPrefix(labels: seq<Label>, j: nat, k: nat)
    requires j <= k <= |labels|
    ensures Enc(labels[..j]) <= Enc(labels[..k])
  {
    if j < k {
      EncSnoc(labels, k - 1);
      EncPrefix(labels, j, k - 1);
    }
  }

  lemma SliceOfSlice(b: seq<byte>, start: nat, enc: seq<byte>, head: seq<byte>, l: seq<byte>)
    requires start + |enc| <= |b| && b[start..start + |enc|] == enc && head + [|l| % 256] + l <= enc && |l| < 256
    ensures var at := start + |head|;
            at + 1 + |l| <= start + |enc| && b[at] == |l| && b[at + 1..at + 1 + |l|] == l
  {
    var whole := head + [|l| % 256] + l;
    var p := |head|;
    assert b[start + p] == b[start..start + |enc|][p] == whole[p];
    forall i | 0 <= i < |l| ensures b[start + p + 1 + i] == l[i] {
      assert b[start + p + 1 + i] == b[start..start + |enc|][p + 1 + i] == whole[p + 1 + i];
    }
  }

  lemma LabelInPlace(b: seq<byte>, mark: seq<bool>, start: nat, labels: seq<Label>, k: nat, j: nat)
    requires |mark| == |b| && j < k <= |labels| && Writable(labels)
    requires start + |Enc(labels[..k])| <= |b| && b[start..start + |Enc(labels[..k])|] == Enc(labels[..k])
    requires Marked(mark, start, start + |Enc(labels[..k])|)
    ensures HasLabel(b, mark, start + |Enc(labels[..j])|, labels[j])
    ensures start + |Enc(labels[..j])| + 1 + |labels[j]| == start + |Enc(labels[..j + 1])|
  {
    hide Enc;
    EncSnoc(labels, j);
    EncPrefix(labels, j + 1, k);
    SliceOfSlice(b, start, Enc(labels[..k]), Enc(labels[..j]), labels[j]);
  }
}
