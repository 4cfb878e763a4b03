/** The buffer a DNS message is built in, and mdns_string_make. */
module DnsWriter {
  import opened Bytes
  import opened DnsNames
  import opened DnsSpelling
  import opened DnsNameWriter
  import opened DnsCompression
  import opened DnsSearch

  /** Positions must fit the 14 bits of a pointer. */
  const MAX_CAPACITY := 0x4000

  /** Copies bytes into a buffer. */
  method Write(buf: array<byte>, at: nat, bytes: seq<byte>)
    requires at + |bytes| <= buf.Length
    modifies buf
    ensures buf[..] == old(buf[..at]) + bytes + old(buf[at + |bytes|..])
  {
    var i := 0;
    while i < |bytes|
      invariant 0 <= i <= |bytes|
      invariant buf[..] == old(buf[..at]) + bytes[..i] + old(buf[at + i..])
    {
      ghost var before := buf[..];
      buf[at + i] := bytes[i];
      assert buf[..] == before[at + i := bytes[i]];
      i := i + 1;
    }
  }

  lemma {:induction false} EncLength(labels: seq<Label>, k: nat)
    requires k <= |labels|
    ensures |Enc(labels[..k])| + |Dotted(labels[k..])| == |Dotted(labels)|
  {
    if k == 0 {
      assert labels[0..] == labels;
    } else {
      EncLength(labels, k - 1);
      EncSnoc(labels, k - 1);
      assert labels[k - 1..][1..] == labels[k..];
    }
  }

  /** A written prefix of a name, and the bytes that turn it into a finished name. */
  lemma Finished(b: seq<byte>, b': seq<byte>, mark: seq<bool>, mark': seq<bool>, slots: seq<nat>, all: set<seq<Label>>,
                 start: nat, labels: seq<Label>, cur: nat, data: nat, end: nat, tail: seq<Label>)
    requires |mark| == |b| == |b'| == |mark'| && Writable(labels)
    requires Writing(b, mark, slots, all, start, labels, cur, data)
    requires data < end <= |b| && b'[..data] == b[..data]
    requires forall i :: 0 <= i < |b| ==> mark'[i] == (mark[i] || start <= i < end)
    requires Spells(b', mark', data, tail) && NameEnd(b', data) == end && (tail == [] || IsSuffixOf(tail, all))
    ensures var spelled := labels[..cur] + tail;
            Keeps(b, mark, b', mark') && Spells(b', mark', start, spelled) && NameEnd(b', start) == end
            && TableOk(b', mark', slots, all + {spelled})
  {
    hide Enc, Spells, NameEnd, SlotOk, Chain;
    var spelled := labels[..cur] + tail;
    forall i | 0 <= i < |b| && mark[i] ensures b'[i] == b[i] {
      assert b'[..data][i] == b[..data][i];
    }
    assert b'[start..data] == b'[..data][start..] == b[..data][start..] == b[start..data];
    FromLabel(b', mark', start, labels, cur, 0, data, tail);
    assert labels[0..cur] == labels[..cur] && labels[..0] == [];
    EmptyEnc();
    forall e | e in slots ensures SlotOk(b', mark', e, all + {spelled}) {
      if SlotOk(b, mark, e, all) {
        SlotKept(b, mark, b', mark', e, all, all + {spelled});
      } else {
        PendingDone(b, b', mark', start, labels, cur, data, tail, e, all + {spelled});
      }
    }
  }

  lemma FromLabel(b: seq<byte>, mark: seq<bool>, start: nat, labels: seq<Label>, cur: nat, j: nat, data: nat, tail: seq<Label>)
    requires |mark| == |b| && Writable(labels) && j <= cur <= |labels| && start <= data <= |b|
    requires b[start..data] == Enc(labels[..cur]) && Marked(mark, start, data) && Spells(b, mark, data, tail)
    ensures var at := start + |Enc(labels[..j])|;
            at <= |b| && Spells(b, mark, at, labels[j..cur] + tail) && NameEnd(b, at) == NameEnd(b, data)
  {
    assert data == start + |Enc(labels[..cur])|;
    SpelledFrom(b, mark, start, labels, cur, j, tail);
  }

  /** Once the name is finished, its table entries spell the rest of it. */
  lemma PendingDone(b: seq<byte>, b': seq<byte>, mark: seq<bool>, start: nat, labels: seq<Label>, cur: nat, data: nat,
                    tail: seq<Label>, e: nat, all: set<seq<Label>>)
    requires |b| == |b'| == |mark| && Writable(labels) && cur <= |labels| && start <= data <= |b|
    requires b'[start..data] == Enc(labels[..cur]) && Marked(mark, start, data) && Spells(b', mark, data, tail)
    requires Pending(b, start, labels, cur, data, e) && b'[..data] == b[..data]
    requires labels[..cur] + tail in all
    ensures SlotOk(b', mark, e, all)
  {
    hide Enc, Spells, NameEnd, SlotOk, Marked, Writable, Direct, Pending;
    var j := PendingAt(b, start, labels, cur, data, e);
    DirectLength(b, b', e, labels[j], data);
    NotRef(labels, j);
    FromLabel(b', mark, start, labels, cur, j, data, tail);
    SlotFrom(b', mark, e, labels, j, cur, tail, all);
  }

  lemma PendingAt(b: seq<byte>, start: nat, labels: seq<Label>, cur: nat, data: nat, e: nat) returns (j: nat)
    requires cur <= |labels| && Pending(b, start, labels, cur, data, e)
    ensures j < cur && e == start + |Enc(labels[..j])| && e < data && Direct(b, e, labels[j])
  {
    hide Enc, Direct;
    j :| 0 <= j < cur && e == start + |Enc(labels[..j])| && e + 1 + |labels[j]| <= data && Direct(b, e, labels[j]);
  }

  lemma DirectLength(b: seq<byte>, b': seq<byte>, e: nat, l: Label, data: nat)
    requires |b| == |b'| && Direct(b, e, l) && e < data <= |b| && b'[..data] == b[..data]
    ensures b'[e] == |l|
  {
    assert b'[e] == b'[..data][e] == b[..data][e];
  }

  lemma NotRef(labels: seq<Label>, j: nat)
    requires Writable(labels) && j < |labels|
    ensures |labels[j]| < 256 && !IsRef(|labels[j]|)
  {
  }

  lemma SlotFrom(b: seq<byte>, mark: seq<bool>, e: nat, labels: seq<Label>, j: nat, cur: nat, tail: seq<Label>, all: set<seq<Label>>)
    requires |b| == |mark| && j < cur <= |labels| && e < |b| && !IsRef(b[e])
    requires Spells(b, mark, e, labels[j..cur] + tail) && labels[..cur] + tail in all
    ensures SlotOk(b, mark, e, all)
  {
    hide Spells;
    var v, m := labels[..cur] + tail, labels[j..cur] + tail;
    assert v[|v| - |m|..] == m;
  }

  /** The zero byte at the end of a name. */
  lemma ZeroSpells(b: seq<byte>, mark: seq<bool>, data: nat)
    requires |mark| == |b| && data < |b| && mark[data] && b[data] == 0
    ensures Spells(b, mark, data, []) && NameEnd(b, data) == data + 1
  {
  }

  /** The pointer bytes written for a match. */
  lemma PointerSpells(b: seq<byte>, mark: seq<bool>, data: nat, e: nat, m: seq<Label>)
    requires |mark| == |b| && data + 2 <= |b| && mark[data] && mark[data + 1] && e < data && e < MAX_CAPACITY
    requires b[data..data + 2] == Net16(0xC000 + e) && !IsRef(b[e]) && Spells(b, mark, e, m) && m != []
    ensures Spells(b, mark, data, m) && NameEnd(b, data) == data + 2
  {
    Net16RoundTrip(b, data, 0xC000 + e);
    assert b[data] == b[data..data + 2][0];
  }

  class Writer {
    const buf: array<byte>
    const table: StringTable
    /** Which bytes belong to names. */
    ghost var mark: seq<bool>

    constructor (buf: array<byte>)
      requires buf.Length <= MAX_CAPACITY
      ensures this.buf == buf && fresh(table) && fresh(table.offset) && Ready(0, {}) && table.View() == NO_POSITIONS
      ensures forall i :: 0 <= i < buf.Length ==> !mark[i]
    {
      this.buf := buf;
      table := new StringTable();
      mark := seq(buf.Length, _ => false);
    }

    ghost predicate Valid()
      reads this, table
    {
      table.Valid() && |mark| == buf.Length <= MAX_CAPACITY
    }

    /** The message so far ends at data; all is a set of names the table entries come from. */
    ghost predicate Ready(data: nat, all: set<seq<Label>>)
      reads this, buf, table, table.offset
    {
      && Valid() && data <= buf.Length
      && (forall i :: data <= i < buf.Length ==> !mark[i])
      && TableOk(buf[..], mark, table.Slots(), all)
    }

    /** What a successful write at data leaves alone: the bytes before it and their marks. */
    twostate predicate Appended(data: nat)
      requires old(Valid()) && Valid() && data <= buf.Length
      reads this, buf, table
    {
      buf[..data] == old(buf[..data]) && mark[..data] == old(mark[..data])
    }

    method MarkTo(start: nat, end: nat)
      requires Valid()
      modifies this`mark
      ensures Valid()
      ensures forall i :: 0 <= i < |mark| ==> mark[i] == (old(mark)[i] || start <= i < end)
    {
      ghost var m := mark;
      mark := seq(|m|, i requires 0 <= i < |m| => m[i] || start <= i < end);
    }

    /** Writes bytes that belong to no name. */
    method Put(at: nat, bytes: seq<byte>, ghost data: nat, ghost all: set<seq<Label>>)
      requires Ready(data, all) && at + |bytes| <= buf.Length
      requires forall i :: at <= i < at + |bytes| ==> !mark[i]
      modifies buf
      ensures Ready(data, all) && Keeps(old(buf[..]), mark, buf[..], mark)
      ensures buf[..] == old(buf[..at]) + bytes + old(buf[at + |bytes|..])
    {
      hide SlotOk;
      ghost var b := buf[..];
      Write(buf, at, bytes);
      forall i | 0 <= i < |b| && mark[i] ensures buf[..][i] == b[i] {
      }
      forall e | e in table.Slots() ensures SlotOk(buf[..], mark, e, all) {
        SlotKept(b, mark, buf[..], mark, e, all, all);
      }
    }

    /** Ends a name whose first labels are written with a pointer to a match. */
    method MakeRef(start: nat, ghost labels: seq<Label>, ghost cur: nat, data: nat, e: nat, ghost m: seq<Label>,
                   ghost all: set<seq<Label>>)
      requires Valid() && Writable(labels) && data + 2 <= buf.Length
      requires Writing(buf[..], mark, table.Slots(), all, start, labels, cur, data)
      requires e < start && !IsRef(buf[e]) && Spells(buf[..], mark, e, m) && m != [] && IsSuffixOf(m, all)
      modifies this`mark, buf
      ensures Ready(data + 2, all + {labels[..cur] + m}) && Appended(start) && buf[..data] == old(buf[..data])
      ensures Keeps(old(buf[..]), old(mark), buf[..], mark)
      ensures Spells(buf[..], mark, start, labels[..cur] + m) && NameEnd(buf[..], start) == data + 2
    {
      hide Spells, NameEnd, SlotOk, Enc;
      ghost var b := buf[..];
      Write(buf, data, Net16(0xC000 + e));
      MarkTo(start, data + 2);
      ghost var b' := buf[..];
      assert b'[..data] == b[..data] && b'[data..data + 2] == Net16(0xC000 + e);
      assert b'[e] == b'[..data][e] == b[..data][e];
      forall i | 0 <= i < |b| && old(mark)[i] ensures b'[i] == b[i] {
        assert b'[..data][i] == b[..data][i];
      }
      SpellsKept(b, old(mark), b', mark, e, m);
      PointerSpells(b', mark, data, e, m);
      Finished(b, b', old(mark), mark, table.Slots(), all, start, labels, cur, data, data + 2, m);
      assert buf[..data] == b'[..data] == b[..data];
      assert buf[..start] == b'[..data][..start] && old(buf[..start]) == b[..data][..start];
    }

    /** Ends a name that is written in full. */
    method MakeEnd(start: nat, ghost labels: seq<Label>, data: nat, ghost all: set<seq<Label>>)
      requires Valid() && Writable(labels) && data < buf.Length
      requires Writing(buf[..], mark, table.Slots(), all, start, labels, |labels|, data)
      modifies this`mark, buf
      ensures Ready(data + 1, all + {labels}) && Appended(start)
      ensures Keeps(old(buf[..]), old(mark), buf[..], mark)
      ensures Spells(buf[..], mark, start, labels) && NameEnd(buf[..], start) == data + 1
      ensures buf[..data] == old(buf[..data])
    {
      hide SlotOk, Enc, Spells, NameEnd, Writable;
      ghost var b := buf[..];
      buf[data] := 0;
      MarkTo(start, data + 1);
      ghost var b' := buf[..];
      assert b'[..data] == b[..data];
      ZeroSpells(b', mark, data);
      Finished(b, b', old(mark), mark, table.Slots(), all, start, labels, |labels|, data, data + 1, []);
      assert labels[..|labels|] + [] == labels;
      assert buf[..data] == b'[..data];
      assert buf[..start] == b'[..data][..start] && old(buf[..start]) == b[..data][..start];
    }

    /** Ends a name whose first labels are written with a pointer to one of them: what stands
        there cannot be read. */
    method MakeOwnRef(start: nat, ghost labels: seq<Label>, ghost cur: nat, data: nat, e: nat, ghost j: nat)
      requires Valid() && Writable(labels) && j < cur <= |labels| && data + 2 <= buf.Length
      requires Stand(buf[..], start, labels, cur) && data == Pos(start, labels, cur) && e == Pos(start, labels, j)
      modifies buf
      ensures buf[..start] == old(buf[..start])
      ensures forall n: nat :: Walk(buf[..], start, n) == None
    {
      hide Walk, Enc;
      ghost var b := buf[..];
      PosGrows(start, labels, j, cur);
      PosGrows(start, labels, 0, cur);
      PosZero(start, labels);
      Write(buf, data, Net16(0xC000 + e));
      ghost var b' := buf[..];
      assert b'[start..data] == b[start..data] && b'[data..data + 2] == Net16(0xC000 + e);
      forall n: nat ensures Walk(b', start, n) == None {
        OwnPointerUnreadable(b', start, labels, cur, j, 0, n);
      }
      assert buf[..start] == b'[..start] == b[..start];
    }

    /** Writes one label and enters it in the table. */
    method MakeLabel(ghost start: nat, ghost labels: seq<Label>, ghost cur: nat, data: nat, l: Label, ghost all: set<seq<Label>>)
      requires Valid() && Writable(labels) && cur < |labels| && l == labels[cur] && data + 1 + |l| < buf.Length
      requires Writing(buf[..], mark, table.Slots(), all, start, labels, cur, data)
      modifies buf, table, table.offset
      ensures Valid() && Writing(buf[..], mark, table.Slots(), all, start, labels, cur + 1, data + 1 + |l|)
      ensures buf[..data] == old(buf[..data])
      ensures buf[..] == WithLabel(old(buf[..]), data, l) && table.View() == Added(old(table.View()), data)
    {
      hide Writing, Enc;
      ghost var b, slots := buf[..], table.Slots();
      assert 1 <= |l| <= MAX_LABEL;
      Write(buf, data, [|l| % 256] + l);
      table.Add(data);
      assert buf[..][..data] == b[..data];
      WritingStep(b, buf[..], mark, slots, table.Slots(), all, start, labels, cur, data);
      assert buf[..data] == buf[..][..data];
    }

    /** Searches the table for what is still to be written of a name. An entry before the name
        spells a name of the table that starts with the rest, m; any other is a label of it, j. */
    method FindRest(ghost data: nat, ghost labels: seq<Label>, ghost cur: nat, ghost at: nat, text: seq<byte>, last: nat,
                    dot: nat, ghost all: set<seq<Label>>) returns (found: Option<nat>, ghost m: seq<Label>, ghost j: nat)
      requires Valid() && Writable(labels) && cur <= |labels| && Writing(buf[..], mark, table.Slots(), all, data, labels, cur, at)
      requires last < |text| && dot == DotAt(text, last) && LabelsFrom(text, last) == labels[cur..]
      ensures found == Found(buf[..], table.Slots(), labels[cur..])
      ensures cur < |labels| && labels[cur] == text[last..dot] && LabelsFrom(text, dot + 1) == labels[cur + 1..]
      ensures 1 <= |labels[cur]| && at + 1 + |labels[cur]| <= data + |Dotted(labels)| && at <= buf.Length
      ensures found.Some? && found.value < data ==>
                Spells(buf[..], mark, found.value, m) && labels[cur..] <= m && IsSuffixOf(m, all) && !IsRef(buf[found.value])
      ensures found.Some? && found.value >= data ==> j < cur && found.value == Pos(data, labels, j)
    {
      hide Spells, SlotOk, Enc, Labels, DotAt, Dotted, Writing, Chain, IsSuffixOf;
      LabelsFromStep(text, last);
      DotShift(text, last, last);
      assert labels[cur] == labels[cur..][0] && labels[cur + 1..] == labels[cur..][1..];
      WritingRoom(buf[..], mark, table.Slots(), all, data, labels, cur, at);
      found := TableFind(buf[..], table.Slots(), text[last..], dot - last);
      m, j := [], 0;
      if found.Some? {
        if found.value < data {
          m := MatchIsSpelled(buf[..], mark, table.Slots(), all, data, labels, cur, at, found.value);
        } else {
          j := MatchIsOwn(buf[..], mark, table.Slots(), all, data, labels, cur, at, found.value);
        }
      }
    }

    /** Ends a name with a pointer to the entry found for the rest of it, which is earlier or a
        label of the name itself. b0 is the buffer before the name was begun. */
    method MakeFound(data: nat, ghost labels: seq<Label>, ghost cur: nat, at: nat, e: nat, ghost m: seq<Label>, ghost j: nat,
                     ghost all: set<seq<Label>>, ghost b0: seq<byte>, ghost hit: Option<Hit>) returns (ghost spelled: seq<Label>)
      requires Valid() && Writable(labels) && at + 2 <= buf.Length && cur < |labels| && hit == Some(Hit(cur, e))
      requires Writing(buf[..], mark, table.Slots(), all, data, labels, cur, at)
      requires |b0| == buf.Length && buf[..data] == b0[..data]
      requires e < data ==> Spells(buf[..], mark, e, m) && labels[cur..] <= m && IsSuffixOf(m, all) && !IsRef(buf[e])
      requires e >= data ==> j < cur && e == Pos(data, labels, j)
      modifies this`mark, buf
      ensures Valid() && data <= buf.Length && buf[..data] == b0[..data] && mark[..data] == old(mark[..data])
      ensures Keeps(b0, old(mark), buf[..], mark)
      ensures Reads(buf[..], data, labels) <==> |labels| <= MAX_SUBSTRINGS && EndsThere(b0, data, labels, hit)
      ensures if e < data then
                && Ready(at + 2, all + {spelled}) && Spells(buf[..], mark, data, spelled) && NameEnd(buf[..], data) == at + 2
                && labels <= spelled && (spelled == labels || Clash(labels, all)) && spelled[cur..] == m
                && Spells(b0, old(mark), e, m) && buf[..at] == old(buf[..at])
              else forall n: nat :: Walk(buf[..], data, n) == None
    {
      hide Spells, NameEnd, SlotOk, Enc, Writing, Clash, IsSuffixOf, Writable, TableOk, Circular, Reads, Walk, Stand, Pos, EndsThere;
      ghost var b1, mark1 := buf[..], mark;
      spelled := labels[..cur] + m;
      WritingBounds(b1, mark, table.Slots(), all, data, labels, cur, at);
      UnmarkedRest(b0, b1, mark, data);
      if e < data {
        UnmarkedRest(b1, b0, mark, data);
        SpellsKept(b1, mark, b0, mark, e, m);
        MakeRef(data, labels, cur, at, e, m, all);
        SpelledOrClash(labels, cur, m, all);
        if |labels| <= MAX_SUBSTRINGS {
          EntryReads(b0, b1, mark1, data, labels, cur, e, m, hit);
        }
        SpelledReads(buf[..], mark, data, spelled, labels);
      } else {
        WritingStands(b1, mark, table.Slots(), all, data, labels, cur, at);
        MakeOwnRef(data, labels, cur, at, e, j);
        UnmarkedRest(b0, buf[..], mark, data);
        UnreadableDoesNotRead(buf[..], data, labels);
        ItselfDoesNotEnd(b0, data, labels, hit);
      }
    }

    /** Writes the labels of a name one after the other until the table has an entry for the rest of
        it, or all are written; ok tells whether there was room for them and for what follows. */
    method MakeLabels(data: nat, name: seq<byte>, ghost all: set<seq<Label>>)
      returns (ok: bool, found: Option<nat>, at: nat, ghost cur: nat, ghost m: seq<Label>, ghost j: nat)
      requires Ready(data, all) && name != [] && Writable(NameLabels(name))
      modifies buf, table, table.offset
      ensures Valid() && data <= at && cur <= |NameLabels(name)| && buf[..data] == old(buf[..data])
      ensures Writing(buf[..], mark, table.Slots(), all, data, NameLabels(name), cur, at)
      ensures table.View() == Entered(old(table.View()), data, NameLabels(name), cur)
      ensures !ok ==> data + |Dotted(NameLabels(name))| + 1 > buf.Length
      ensures ok ==> at + (if found.Some? then 2 else 1) <= buf.Length && at <= data + |Dotted(NameLabels(name))| - if found.Some? then 1 else 0
      ensures var hit := Search(old(buf[..]), old(table.View()), data, NameLabels(name), 0);
              if found.Some? then cur < |NameLabels(name)| && hit == Some(Hit(cur, found.value))
              else ok ==> cur == |NameLabels(name)| && hit == None
      ensures found.Some? && found.value < data ==>
                && Spells(buf[..], mark, found.value, m) && NameLabels(name)[cur..] <= m && IsSuffixOf(m, all)
                && !IsRef(buf[found.value])
      ensures found.Some? && found.value >= data ==> j < cur && found.value == Pos(data, NameLabels(name), j)
      ensures ok && NameLabels(name) != [] && old(Found(buf[..], table.Slots(), NameLabels(name))).Some? ==> at == data && found.Some?
    {
      hide Spells, NameEnd, SlotOk, Enc, Labels, DotAt, Dotted, Writing, Chain, Clash, IsSuffixOf, Writable, TableOk, Found, LabelsFrom,
           Search, Circular, Reads, Walk, Stand, Pos, EndsThere, OwnOrEarlier, WithLabel, Added, Stripped, Entered, Placed;
      ghost var labels := NameLabels(name);
      var text, last: nat := Stripped(name), 0;
      at, cur := data, 0;
      ghost var b0, match0, ring0 := buf[..], Found(buf[..], table.Slots(), labels), table.View();
      ghost var hit := Search(b0, ring0, data, labels, 0);
      WritingStart(b0, mark, table.Slots(), all, data, labels, text);
      assert labels[0..] == labels;
      EnteredFirst(ring0, data, labels);
      while last < |text|
        invariant Valid() && cur <= |labels| && data <= at
        invariant Writing(buf[..], mark, table.Slots(), all, data, labels, cur, at)
        invariant LabelsFrom(text, last) == labels[cur..]
        invariant buf[..data] == b0[..data]
        invariant hit == Search(buf[..], table.View(), at, labels, cur)
        invariant table.View() == Entered(ring0, data, labels, cur)
        invariant if cur == 0 then at == data && match0 == Found(buf[..], table.Slots(), labels[cur..]) else match0.None?
        decreases |text| - last
      {
        var dot := DotAt(text, last);
        var remain := buf.Length - at;
        found, m, j := FindRest(data, labels, cur, at, text, last, dot, all);
        SearchStep(buf[..], table.View(), at, labels, cur);
        if found.Some? { return remain >= 2, found, at, cur, m, j; }
        if remain <= dot - last + 1 { return false, None, at, cur, m, j; }
        EnteredNext(ring0, data, labels, cur);
        WritingStands(buf[..], mark, table.Slots(), all, data, labels, cur, at);
        MakeLabel(data, labels, cur, at, text[last..dot], all);
        at := at + (dot - last) + 1;
        last := dot + 1;
        cur := cur + 1;
      }
      NothingFrom(text, last);
      assert cur == |labels|;
      SearchDone(buf[..], table.View(), at, labels);
      WritingEnd(buf[..], mark, table.Slots(), all, data, labels, at);
      ok, found, m, j := at < buf.Length, None, [], 0;
    }

    /** Writes a name at data, replacing as much of its end as possible by a pointer to a
        table entry, and all of it if an entry for the whole name is found. Fails only when
        the name might not fit uncompressed. The readers read the name back exactly if it has
        at most 64 labels and the entry found, if any, is of an earlier name and reads as the rest. An
        entry of the name itself, which only a circular name can find, makes it unreadable.
        Otherwise what is spelled starts with the labels of the name, and is longer only if
        the names clash. */
    method StringMake(data: nat, name: seq<byte>, ghost all: set<seq<Label>>)
      returns (r: Option<nat>, ghost spelled: seq<Label>, ghost hit: Option<Hit>)
      requires Ready(data, all) && name != [] && Writable(NameLabels(name))
      modifies this`mark, buf, table, table.offset
      ensures Valid() && hit == Search(old(buf[..]), old(table.View()), data, NameLabels(name), 0)
      ensures r.None? ==> data + |Dotted(NameLabels(name))| + 1 > buf.Length
      ensures r.None? ==> mark == old(mark) && buf[..data] == old(buf[..data])
      ensures r.Some? ==> data < r.value <= data + |Dotted(NameLabels(name))| + 1 && Appended(data)
      ensures r.Some? ==> Keeps(old(buf[..]), old(mark), buf[..], mark)
      ensures r.Some? ==> (Reads(buf[..], data, NameLabels(name)) <==>
                         |NameLabels(name)| <= MAX_SUBSTRINGS && EndsThere(old(buf[..]), data, NameLabels(name), hit))
      ensures r.Some? && FindsItself(data, hit) ==> Circular(NameLabels(name)) && forall n: nat :: Walk(buf[..], data, n) == None
      ensures r.Some? && !FindsItself(data, hit) ==>
                && Ready(r.value, all + {spelled}) && Spells(buf[..], mark, data, spelled) && NameEnd(buf[..], data) == r.value
                && NameLabels(name) <= spelled && (spelled == NameLabels(name) || Clash(NameLabels(name), all))
                && (hit.Some? ==> IsSuffixOf(spelled[hit.value.i..], all))
      ensures r.Some? && !FindsItself(data, hit) ==>
                Placed(old(buf[..]), old(mark), old(table.View()), buf[..], table.View(), data, NameLabels(name), hit, spelled)
      ensures r.Some? && NameLabels(name) != [] && old(Found(buf[..], table.Slots(), NameLabels(name))).Some? ==> r.value == data + 2
    {
      hide Spells, NameEnd, SlotOk, Enc, Labels, DotAt, Dotted, Writing, Chain, Clash, IsSuffixOf, Writable, TableOk, Found, LabelsFrom,
           Search, Circular, Reads, Walk, Stand, Pos, EndsThere, OwnOrEarlier, WithLabel, Added, Stripped, Entered, Placed;
      ghost var labels := NameLabels(name);
      ghost var b0, mark0, ring0 := buf[..], mark, table.View();
      hit := Search(b0, ring0, data, labels, 0);
      SearchStart(b0, mark, ring0, all, data, labels);
      spelled := labels;
      var ok, found, at;
      ghost var cur, m, j;
      ok, found, at, cur, m, j := MakeLabels(data, name, all);
      if !ok { return None, spelled, hit; }
      ghost var b1 := buf[..];
      WritingStands(b1, mark, table.Slots(), all, data, labels, cur, at);
      if found.Some? {
        spelled := MakeFound(data, labels, cur, at, found.value, m, j, all, b0, hit);
        if found.value < data { FoundPlaced(b0, mark0, ring0, b1, buf[..], table.View(), data, labels, at, hit, spelled); }
        return Some(at + 2), spelled, hit;
      }
      MakeEnd(data, labels, at, all);
      EndPlaced(b0, mark0, ring0, b1, buf[..], table.View(), data, labels, at, hit);
      SpelledReads(buf[..], mark, data, labels, labels);
      NoHitEnds(b0, data, labels, hit);
      UnmarkedRest(b0, b1, mark0, data);
      r := Some(at + 1);
    }
  }

  /** At the start of a name all table entries are earlier. */
  lemma SearchStart(b: seq<byte>, mark: seq<bool>, ring: Ring<nat>, all: set<seq<Label>>, data: nat, labels: seq<Label>)
    requires |mark| == |b| && data <= |b| && ring.Valid() && Writable(labels) && TableOk(b, mark, ring.slots, all)
    requires forall i :: data <= i < |b| ==> !mark[i]
    ensures FindsItself(data, Search(b, ring, data, labels, 0)) ==> Circular(labels)
  {
    hide SlotOk, Search, Stand, Circular, Writable, Pos;
    forall e | e in ring.slots ensures e < data { SlotMarked(b, mark, e, all); }
    NoneStand(b, data, labels);
    PosZero(data, labels);
    EarlierOnly(ring, data, labels);
    OwnHitIsCircular(b, ring, data, labels, 0);
  }

  lemma EarlierOnly(ring: Ring<nat>, data: nat, labels: seq<Label>)
    requires ring.Valid() && forall e :: e in ring.slots ==> e < data
    ensures OwnOrEarlier(ring, data, labels, 0)
  {
    forall p | 0 <= p < |ring.slots| ensures ring.slots[p] < data {
      assert ring.slots[p] in ring.slots;
    }
  }

  lemma EnteredFirst(ring: Ring<nat>, start: nat, labels: seq<Label>)
    requires ring.Valid()
    ensures Entered(ring, start, labels, 0) == ring
  {
  }

  lemma EnteredNext(ring: Ring<nat>, start: nat, labels: seq<Label>, i: nat)
    requires ring.Valid() && i < |labels|
    ensures Entered(ring, start, labels, i + 1) == Added(Entered(ring, start, labels, i), Pos(start, labels, i))
  {
  }

  lemma StillStands(b: seq<byte>, b': seq<byte>, start: nat, labels: seq<Label>, i: nat, at: nat)
    requires |b| == |b'| && i <= |labels| && Stand(b, start, labels, i) && at == Pos(start, labels, i) && at <= |b|
    requires b'[..at] == b[..at]
    ensures Stand(b', start, labels, i)
  {
    SamePart(b, b', at, start, at);
  }

  /** A name that ends in a pointer to an earlier one is in place. */
  lemma FoundPlaced(b0: seq<byte>, mark0: seq<bool>, ring0: Ring<nat>, b: seq<byte>, b': seq<byte>, ring: Ring<nat>, start: nat,
                    labels: seq<Label>, at: nat, hit: Option<Hit>, spelled: seq<Label>)
    requires |mark0| == |b0| && |b| == |b'| && ring0.Valid() && hit.Some? && hit.value.i <= |labels|
    requires Stand(b, start, labels, hit.value.i) && at == Pos(start, labels, hit.value.i) <= |b| && b'[..at] == b[..at]
    requires ring == Entered(ring0, start, labels, hit.value.i)
    requires hit.value.i <= |spelled| && Spells(b0, mark0, hit.value.e, spelled[hit.value.i..])
    ensures Placed(b0, mark0, ring0, b', ring, start, labels, hit, spelled)
  {
    hide Stand, Pos, Spells, Entered;
    StillStands(b, b', start, labels, hit.value.i, at);
  }

  /** A name that is written in full is in place. */
  lemma EndPlaced(b0: seq<byte>, mark0: seq<bool>, ring0: Ring<nat>, b: seq<byte>, b': seq<byte>, ring: Ring<nat>, start: nat,
                  labels: seq<Label>, at: nat, hit: Option<Hit>)
    requires |mark0| == |b0| && |b| == |b'| && ring0.Valid() && hit.None?
    requires Stand(b, start, labels, |labels|) && at == Pos(start, labels, |labels|) <= |b| && b'[..at] == b[..at]
    requires ring == Entered(ring0, start, labels, |labels|)
    ensures Placed(b0, mark0, ring0, b', ring, start, labels, hit, labels)
  {
    hide Stand, Pos, Spells, Entered;
    StillStands(b, b', start, labels, |labels|, at);
  }

  lemma WritingBounds(b: seq<byte>, mark: seq<bool>, slots: seq<nat>, all: set<seq<Label>>, start: nat, labels: seq<Label>,
                      cur: nat, at: nat)
    requires |b| == |mark| && Writing(b, mark, slots, all, start, labels, cur, at)
    ensures start <= at <= |b| && forall i :: start <= i < |b| ==> !mark[i]
  {
  }

  lemma WritingStands(b: seq<byte>, mark: seq<bool>, slots: seq<nat>, all: set<seq<Label>>, start: nat, labels: seq<Label>,
                      cur: nat, at: nat)
    requires |b| == |mark| && Writing(b, mark, slots, all, start, labels, cur, at)
    ensures cur <= |labels| && Stand(b, start, labels, cur) && at == Pos(start, labels, cur)
  {
    assert |b[start..at]| == at - start;
  }

  /** Whether the entry found ends where the match ends, seen on the buffer before the name was begun. */
  lemma EntryReads(b0: seq<byte>, b: seq<byte>, mark: seq<bool>, data: nat, labels: seq<Label>, cur: nat, e: nat, m: seq<Label>,
                   hit: Option<Hit>)
    requires |mark| == |b0| == |b| && data <= |b| && b[..data] == b0[..data] && forall i :: data <= i < |b| ==> !mark[i]
    requires cur < |labels| && e < data && hit == Some(Hit(cur, e)) && Spells(b, mark, e, m) && labels[cur..] <= m
    requires |labels| <= MAX_SUBSTRINGS
    ensures EndsThere(b0, data, labels, hit) <==> labels[..cur] + m == labels
  {
    hide Spells, Reads;
    UnmarkedRest(b, b0, mark, data);
    SpellsKept(b, mark, b0, mark, e, m);
    SpelledReads(b0, mark, e, m, labels[cur..]);
    assert labels == labels[..cur] + labels[cur..];
    if labels[..cur] + m == labels { assert m == (labels[..cur] + m)[cur..]; }
  }

  lemma UnreadableDoesNotRead(b: seq<byte>, at: nat, labels: seq<Label>)
    requires forall n: nat :: Walk(b, at, n) == None
    ensures !Reads(b, at, labels)
  {
    hide Walk;
  }

  lemma ItselfDoesNotEnd(b: seq<byte>, data: nat, labels: seq<Label>, hit: Option<Hit>)
    requires FindsItself(data, hit)
    ensures !EndsThere(b, data, labels, hit)
  {
    hide Reads;
  }

  lemma NoHitEnds(b: seq<byte>, data: nat, labels: seq<Label>, hit: Option<Hit>)
    requires hit.None?
    ensures EndsThere(b, data, labels, hit) && !FindsItself(data, hit)
  {
    hide Reads;
  }

  lemma NothingFrom(text: seq<byte>, last: nat)
    requires last >= |text|
    ensures LabelsFrom(text, last) == []
  {
  }

  lemma UnmarkedRest(b: seq<byte>, b': seq<byte>, mark: seq<bool>, data: nat)
    requires |b| == |b'| == |mark| && data <= |b| && b'[..data] == b[..data]
    requires forall i :: data <= i < |b| ==> !mark[i]
    ensures Keeps(b, mark, b', mark)
  {
    forall i | 0 <= i < |b| && mark[i] ensures b'[i] == b[i] {
      assert b'[..data][i] == b[..data][i];
    }
  }

  lemma WritingStart(b: seq<byte>, mark: seq<bool>, slots: seq<nat>, all: set<seq<Label>>, data: nat, labels: seq<Label>, text: seq<byte>)
    requires |b| == |mark| && data <= |b| && (forall i :: data <= i < |b| ==> !mark[i]) && TableOk(b, mark, slots, all)
    requires labels == Labels(text)
    ensures Writing(b, mark, slots, all, data, labels, 0, data)
    ensures LabelsFrom(text, 0) == labels[0..]
  {
    assert text[0..] == text && labels[0..] == labels && labels[..0] == [] && b[data..data] == [];
    EmptyEnc();
  }

  lemma WritingRoom(b: seq<byte>, mark: seq<bool>, slots: seq<nat>, all: set<seq<Label>>, start: nat, labels: seq<Label>, cur: nat, data: nat)
    requires |b| == |mark| && Writing(b, mark, slots, all, start, labels, cur, data) && cur < |labels| && Writable(labels)
    ensures data <= |b| && 1 <= |labels[cur]| <= MAX_LABEL
    ensures data + 1 + |labels[cur]| <= start + |Dotted(labels)|
  {
    EncLength(labels, cur + 1);
    EncSnoc(labels, cur);
    assert |b[start..data]| == data - start;
  }

  lemma WritingEnd(b: seq<byte>, mark: seq<bool>, slots: seq<nat>, all: set<seq<Label>>, start: nat, labels: seq<Label>, data: nat)
    requires |b| == |mark| && Writing(b, mark, slots, all, start, labels, |labels|, data)
    ensures data <= |b| && data == start + |Dotted(labels)|
  {
    EncLength(labels, |labels|);
    assert |b[start..data]| == data - start && labels[..|labels|] == labels && labels[|labels|..] == [];
  }

  lemma SpelledOrClash(labels: seq<Label>, cur: nat, m: seq<Label>, all: set<seq<Label>>)
    requires cur < |labels| && labels[cur..] <= m && IsSuffixOf(m, all)
    ensures labels <= labels[..cur] + m
    ensures labels[..cur] + m == labels || Clash(labels, all)
  {
    assert labels == labels[..cur] + labels[cur..];
    if m == labels[cur..] { assert labels[..cur] + m == labels; }
  }
}
