/** The builder and the parser undo each other, for names and for whole messages. */
module DnsRoundTrip {
  import opened Bytes
  import opened DnsNames
  import opened DnsSpelling
  import opened DnsNameWriter
  import opened DnsCompression
  import opened DnsRecords
  import opened DnsWriter
  import opened DnsMessage

  // ----- Names

  /** Where the names of a list were written. */
  ghost predicate AllRead(b: seq<byte>, at: seq<nat>, names: seq<seq<byte>>) {
    |at| == |names|
    && forall i :: 0 <= i < |at| ==>
         names[i] != [] && NameAt(b, at[i]).Some? && NameAt(b, at[i]).value.labels == NameLabels(names[i])
  }

  ghost predicate AllSpelled(b: seq<byte>, mark: seq<bool>, at: seq<nat>, names: seq<seq<byte>>)
    requires |mark| == |b|
  {
    |at| == |names| && forall i :: 0 <= i < |at| ==> names[i] != [] && Spells(b, mark, at[i], NameLabels(names[i]))
  }

  lemma SpelledKept(b: seq<byte>, mark: seq<bool>, b': seq<byte>, mark': seq<bool>, at: seq<nat>, names: seq<seq<byte>>)
    requires |mark| == |b| && |mark'| == |b'| && Keeps(b, mark, b', mark') && AllSpelled(b, mark, at, names)
    ensures AllSpelled(b', mark', at, names)
  {
    hide Spells, NameLabels, Keeps;
    forall i | 0 <= i < |at| ensures Spells(b', mark', at[i], NameLabels(names[i])) {
      SpellsKept(b, mark, b', mark', at[i], NameLabels(names[i]));
    }
  }

  lemma SpelledRead(b: seq<byte>, mark: seq<bool>, at: seq<nat>, names: seq<seq<byte>>, all: set<seq<Label>>)
    requires |mark| == |b| && AllSpelled(b, mark, at, names) && Compatible(all)
    requires forall i :: 0 <= i < |names| ==> NameIn(names[i], all)
    ensures AllRead(b, at, names)
  {
    hide Spells, NameLabels, Writable, Circular, Clash;
    forall i | 0 <= i < |at| ensures NameAt(b, at[i]).Some? && NameAt(b, at[i]).value.labels == NameLabels(names[i]) {
      NameIsRead(b, mark, at[i], NameLabels(names[i]));
    }
  }

  /** Names written one after the other through one table: each of them reads back as
      its own labels, however often the ring of table entries was overwritten. Writing
      stops only at a name that might not fit uncompressed. */
  method WriteNames(w: Writer, data: nat, names: seq<seq<byte>>, ghost all: set<seq<Label>>)
    returns (at: seq<nat>, end: nat)
    requires w.Ready(data, all) && Compatible(all) && forall i :: 0 <= i < |names| ==> NameIn(names[i], all)
    modifies w`mark, w.buf, w.table, w.table.offset
    ensures |at| <= |names| && AllRead(w.buf[..], at, names[..|at|])
    ensures |at| < |names| ==> end + |Dotted(LabelsOf(names[|at|]))| + 1 > w.buf.Length
  {
    hide Spells, NameEnd, NameLabels, TableOk, Compatible, Dotted;
    at, end := [], data;
    var i := 0;
    while i < |names|
      invariant 0 <= i == |at| <= |names| && w.Ready(end, all)
      invariant AllSpelled(w.buf[..], w.mark, at, names[..i])
    {
      ghost var b, m := w.buf[..], w.mark;
      var next := AddName(w, end, names[i], all);
      if next.None? {
        SpelledKept(b, m, w.buf[..], w.mark, at, names[..i]);
        SpelledRead(w.buf[..], w.mark, at, names[..i], all);
        return;
      }
      SpelledKept(b, m, w.buf[..], w.mark, at, names[..i]);
      at := at + [end];
      end := next.value;
      i := i + 1;
    }
    SpelledRead(w.buf[..], w.mark, at, names[..i], all);
  }

  // ----- Messages

  /** Reading a message: the counts in its header and the three sections parsed with them
      give exactly these records, and the message ends with the last of them. */
  ghost predicate ReadsAs(b: seq<byte>, answers: seq<Wire>, authority: seq<Wire>, additional: seq<Wire>) {
    && 12 <= |b| && Host16(b, 6) == |answers| && Host16(b, 8) == |authority| && Host16(b, 10) == |additional|
    && var p1 := ParsedAt(b, 12, Host16(b, 6));
    var p2 := ParsedAt(b, p1.1, Host16(b, 8));
    var p3 := ParsedAt(b, p2.1, Host16(b, 10));
    AllDecoded(b, p1.0, answers) && AllDecoded(b, p2.0, authority) && AllDecoded(b, p3.0, additional) && p3.1 == |b|
  }

  lemma {:induction false} RecordsSplit(b: seq<byte>, mark: seq<bool>, at: nat, xs: seq<Wire>, ys: seq<Wire>, end: nat)
    returns (mid: nat)
    requires |mark| == |b| && RecordsAt(b, mark, at, xs + ys, end)
    ensures RecordsAt(b, mark, at, xs, mid) && RecordsAt(b, mark, mid, ys, end)
    decreases |xs|
  {
    hide RecordAt;
    if xs == [] {
      mid := at;
      assert xs + ys == ys;
    } else {
      var all := xs + ys;
      var m: nat :| RecordAt(b, mark, at, all[0], m) && RecordsAt(b, mark, m, all[1..], end);
      assert all[1..] == xs[1..] + ys;
      mid := RecordsSplit(b, mark, m, xs[1..], ys, end);
    }
  }

  /** Every record takes at least ten bytes. */
  lemma {:induction false} RecordsFit(b: seq<byte>, mark: seq<bool>, at: nat, ws: seq<Wire>, end: nat)
    requires |mark| == |b| && RecordsAt(b, mark, at, ws, end)
    ensures at + 10 * |ws| <= end
    decreases |ws|
  {
    hide RecordAt;
    if ws != [] {
      var mid: nat :| RecordAt(b, mark, at, ws[0], mid) && RecordsAt(b, mark, mid, ws[1..], end);
      RecordInside(b, mark, at, ws[0], mid);
      RecordsFit(b, mark, mid, ws[1..], end);
    }
  }

  lemma HeaderReads(b: seq<byte>, n1: nat, n2: nat, n3: nat)
    requires 12 <= |b| && b[..12] == Header(n1, n2, n3) && n1 < 0x10000 && n2 < 0x10000 && n3 < 0x10000
    ensures Host16(b, 6) == n1 && Host16(b, 8) == n2 && Host16(b, 10) == n3
  {
    hide Net16, Host16;
    var z := Net16(0) + Net16(0x8400) + Net16(0);
    assert b[0..12] == b[..12];
    Middle(b, 0, z, Net16(n1), Net16(n2) + Net16(n3));
    Middle(b, 0, z + Net16(n1), Net16(n2), Net16(n3));
    Middle(b, 0, z + Net16(n1) + Net16(n2), Net16(n3), []);
    Net16RoundTrip(b, 6, n1);
    Net16RoundTrip(b, 8, n2);
    Net16RoundTrip(b, 10, n3);
  }

  /** A finished message reads back as what it was built from. */
  lemma MessageReads(b: seq<byte>, mark: seq<bool>, answers: seq<Wire>, authority: seq<Wire>, additional: seq<Wire>,
                     count1: nat, count2: nat)
    requires |mark| == |b| <= MAX_CAPACITY && Message(b, mark, answers, authority, additional, count1, count2)
    requires |answers| == 1
    requires forall w :: w in answers + authority + additional ==> Fitting(w)
    ensures ReadsAs(b, answers, authority, additional)
  {
    hide RecordsAt, Fitting, Header, AllDecoded, Decoded, ParsedAt, Host16;
    var m2 := RecordsSplit(b, mark, 12, answers + authority, additional, |b|);
    var m1 := RecordsSplit(b, mark, 12, answers, authority, m2);
    RecordsFit(b, mark, 12, answers, m1);
    RecordsFit(b, mark, m1, authority, m2);
    RecordsFit(b, mark, m2, additional, |b|);
    HeaderReads(b, 1, count1, count2);
    forall i | 0 <= i < |authority| ensures Fitting(authority[i]) { assert authority[i] in answers + authority + additional; }
    forall i | 0 <= i < |additional| ensures Fitting(additional[i]) { assert additional[i] in answers + authority + additional; }
    forall i | 0 <= i < |answers| ensures Fitting(answers[i]) { assert answers[i] in answers + authority + additional; }
    RecordsAreParsed(b, mark, 12, answers, m1);
    RecordsAreParsed(b, mark, m1, authority, m2);
    RecordsAreParsed(b, mark, m2, additional, |b|);
  }

  lemma WireFits(r: Record, rclass: nat, ttl: nat, all: set<seq<Label>>)
    requires Compatible(all) && ValidRecord(r, all) && !r.data.Txt?
    ensures Fitting(WireOf(Update(r, rclass, ttl)))
  {
    hide NameLabels, Writable, Circular, Clash;
  }

  lemma {:induction false} PlainFits(records: seq<Record>, rclass: nat, ttl: nat, all: set<seq<Label>>)
    requires Compatible(all) && ValidRecords(records, all)
    ensures forall w :: w in Plain(records, rclass, ttl) ==> Fitting(w)
  {
    hide Compatible, ValidRecord, WireOf, Update, Fitting;
    if records != [] {
      var last := records[|records| - 1];
      PlainFits(records[..|records| - 1], rclass, ttl, all);
      if !last.data.Txt? { WireFits(last, rclass, ttl, all); }
    }
  }

  lemma {:induction false} TxtsIn(records: seq<Record>, all: set<seq<Label>>)
    requires ValidRecords(records, all)
    ensures forall r :: r in Txts(records) ==> ValidRecord(r, all)
  {
    hide ValidRecord;
    if records != [] { TxtsIn(records[..|records| - 1], all); }
  }

  lemma SectionFits(records: seq<Record>, rclass: nat, ttl: nat, all: set<seq<Label>>)
    requires Compatible(all) && ValidRecords(records, all)
    ensures forall w :: w in Section(records, rclass, ttl) ==> Fitting(w)
  {
    hide NameLabels, Writable, Circular, Clash, Plain, Txts;
    PlainFits(records, rclass, ttl, all);
    TxtsIn(records, all);
    if Txts(records) != [] {
      assert ValidRecord(Txts(records)[0], all);
    }
  }

  /** The round trip: a message built from a non-TXT answer and any lists of records reads
      back as the same records in the same order, TXT records last and as one. */
  lemma RoundTrip(b: seq<byte>, mark: seq<bool>, answer: Record, authority: seq<Record>, additional: seq<Record>,
                  rclass: nat, ttl: nat, all: set<seq<Label>>)
    requires Compatible(all) && ValidRecord(answer, all) && ValidRecords(authority, all) && ValidRecords(additional, all)
    requires !answer.data.Txt? && |mark| == |b| <= MAX_CAPACITY
    requires var s1, s2 := Section(authority, rclass, ttl), Section(additional, rclass, ttl);
             Message(b, mark, Answer(answer, rclass, ttl), s1, s2, |s1| % 0x10000, |s2| % 0x10000)
    ensures ReadsAs(b, Answer(answer, rclass, ttl), Section(authority, rclass, ttl), Section(additional, rclass, ttl))
  {
    hide Message, ReadsAs, Section, Fitting, Compatible, ValidRecord, ValidRecords, WireOf, Update;
    var s1, s2 := Section(authority, rclass, ttl), Section(additional, rclass, ttl);
    WireFits(answer, rclass, ttl, all);
    SectionFits(authority, rclass, ttl, all);
    SectionFits(additional, rclass, ttl, all);
    MessageReads(b, mark, Answer(answer, rclass, ttl), s1, s2, |s1| % 0x10000, |s2| % 0x10000);
  }

  /** A TXT answer is announced in the header and never written: the message does not
      read back as what it holds. */
  lemma TxtAnswerMiscounted(b: seq<byte>, mark: seq<bool>, answer: Record, authority: seq<Wire>, additional: seq<Wire>,
                            rclass: nat, ttl: nat, count1: nat, count2: nat)
    requires |mark| == |b| && answer.data.Txt? && count1 < 0x10000 && count2 < 0x10000
    requires Message(b, mark, Answer(answer, rclass, ttl), authority, additional, count1, count2)
    ensures !ReadsAs(b, Answer(answer, rclass, ttl), authority, additional)
  {
    hide RecordsAt, Header, AllDecoded;
    HeaderReads(b, 1, count1, count2);
  }
}
