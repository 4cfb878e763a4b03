/** What a built mDNS response says to whoever reads it, in the numbers of RFC 1035, RFC 3596
    and RFC 2782. */
module DnsBuilt {
  import opened Bytes
  import opened DnsNames
  import opened DnsNameWriter
  import opened DnsRecords
  import opened DnsWriter
  import opened DnsMessage
  import opened DnsRoundTrip

  /** Labels that make up this name, up to a dot at its end. */
  ghost predicate Names(labels: seq<Label>, name: seq<byte>) {
    Dotted(labels) == name || Dotted(labels) == name + [46] || Dotted(labels) + [46] == name
  }

  /** The time to live is zero in a goodbye, otherwise the record's own or else the default one. Of the
      class only its lowest bit counts, and the highest, which asks others to flush their caches and is
      never set on a PTR record. */
  ghost predicate Defaulted(w: Wire, r: Record, rclass: nat, ttl: nat) {
    && (ttl == 0 ==> w.ttl == 0) && (ttl > 0 && r.ttl > 0 ==> w.ttl == r.ttl) && (ttl > 0 && r.ttl == 0 ==> w.ttl == ttl)
    && w.rclass in {0, 1, 0x8000, 0x8001}
    && (w.rclass % 2 == 1 <==> r.rclass % 2 == 1 || (r.rclass == 0 && rclass % 2 == 1))
    && (w.rclass >= 0x8000 <==> !r.data.Ptr? && (r.rclass >= 0x8000 || (r.rclass == 0 && rclass >= 0x8000)))
  }

  /** A record other than a TXT record on the wire. */
  ghost predicate Conveys(w: Wire, r: Record, rclass: nat, ttl: nat) {
    Names(w.labels, r.name) && Defaulted(w, r, rclass, ttl)
    && match r.data
       case A(address) => w.rtype == 1 && w.data == WBytes(address)
       case Ptr(target) => w.rtype == 12 && w.data.WName? && Names(w.data.labels, target)
       case Aaaa(address) => w.rtype == 28 && w.data == WBytes(address)
       case Srv(priority, weight, port, host) =>
         w.rtype == 33 && w.data.WSrv? && Names(w.data.target, host)
         && (w.data.priority, w.data.weight, w.data.port) == (priority, weight, port)
       case Other(rtype) => w.rtype == rtype && w.data == WBytes([])
       case Txt(_, _) => false
  }

  /** All the TXT records of a section as one: it goes by the first of them. */
  ghost predicate ConveysTxt(w: Wire, records: seq<Record>, rclass: nat, ttl: nat)
    requires Txts(records) != []
  {
    var first := Txts(records)[0];
    Names(w.labels, first.name) && Defaulted(w, first, rclass, ttl) && w.rtype == 16 && w.data == WBytes(TxtBytes(records))
  }

  /** The records that are not TXT records, in order. */
  ghost function NonTxts(records: seq<Record>): seq<Record> {
    if records == [] then []
    else
      var last := records[|records| - 1];
      NonTxts(records[..|records| - 1]) + if last.data.Txt? then [] else [last]
  }

  ghost predicate EachConveyed(ws: seq<Wire>, rs: seq<Record>, rclass: nat, ttl: nat) {
    |ws| == |rs| && forall i :: 0 <= i < |rs| ==> Conveys(ws[i], rs[i], rclass, ttl)
  }

  /** A section holds its records other than TXT records one for one, then at most one TXT record. */
  ghost predicate SectionConveys(ws: seq<Wire>, records: seq<Record>, rclass: nat, ttl: nat) {
    if Txts(records) == [] then EachConveyed(ws, NonTxts(records), rclass, ttl)
    else ws != [] && EachConveyed(ws[..|ws| - 1], NonTxts(records), rclass, ttl)
         && ConveysTxt(ws[|ws| - 1], records, rclass, ttl)
  }

  lemma NamesLabels(name: seq<byte>)
    requires name != []
    ensures Names(LabelsOf(name), name)
  {
    hide Dotted, Labels;
    DottedLabels(Stripped(name));
  }

  lemma Updated(w: Wire, r: Record, rclass: nat, ttl: nat)
    requires rclass < 0x10000 && r.rclass < 0x10000
    requires var u := Update(r, rclass, ttl); w.rclass == u.rclass && w.ttl == u.ttl
    ensures Defaulted(w, r, rclass, ttl)
  {
    UpdateMeaning(r, rclass, ttl);
  }

  lemma WireConveys(r: Record, rclass: nat, ttl: nat, all: set<seq<Label>>)
    requires ValidRecord(r, all) && !r.data.Txt? && rclass < 0x10000
    ensures Conveys(WireOf(Update(r, rclass, ttl)), r, rclass, ttl)
  {
    hide Defaulted, Names, LabelsOf, NameLabels;
    Updated(WireOf(Update(r, rclass, ttl)), r, rclass, ttl);
    NamesLabels(r.name);
    match r.data
    case Ptr(target) => NamesLabels(target);
    case Srv(_, _, _, host) => NamesLabels(host);
    case _ =>
  }

  lemma {:induction false} PlainConveys(records: seq<Record>, rclass: nat, ttl: nat, all: set<seq<Label>>)
    requires ValidRecords(records, all) && rclass < 0x10000
    ensures EachConveyed(Plain(records, rclass, ttl), NonTxts(records), rclass, ttl)
  {
    hide ValidRecord, Conveys, WireOf, Update;
    if records != [] {
      var last := records[|records| - 1];
      PlainConveys(records[..|records| - 1], rclass, ttl, all);
      if !last.data.Txt? { WireConveys(last, rclass, ttl, all); }
    }
  }

  lemma CoalescedConveys(records: seq<Record>, rclass: nat, ttl: nat, all: set<seq<Label>>)
    requires ValidRecords(records, all) && rclass < 0x10000 && Txts(records) != []
    ensures ConveysTxt(Coalesced(records, rclass, ttl), records, rclass, ttl)
  {
    hide ValidRecords, Defaulted, Names, LabelsOf, NameLabels, Txts, TxtBytes;
    TxtsIn(records, all);
    var first := Txts(records)[0];
    assert ValidRecord(first, all);
    Updated(Coalesced(records, rclass, ttl), first, rclass, ttl);
    NamesLabels(first.name);
  }

  lemma SectionSays(records: seq<Record>, rclass: nat, ttl: nat, all: set<seq<Label>>)
    requires ValidRecords(records, all) && rclass < 0x10000
    ensures SectionConveys(Section(records, rclass, ttl), records, rclass, ttl)
  {
    hide ValidRecords, EachConveyed, ConveysTxt, Coalesced, Plain, Txts, NonTxts;
    PlainConveys(records, rclass, ttl, all);
    var ws := Section(records, rclass, ttl);
    if Txts(records) != [] {
      CoalescedConveys(records, rclass, ttl, all);
      assert ws[..|ws| - 1] == Plain(records, rclass, ttl);
    } else {
      assert ws == Plain(records, rclass, ttl);
    }
  }

  /** A response with id 0, no questions and one answer, in whose flags the bits for a response
      and for an authoritative answer are the only ones set. */
  ghost predicate ResponseHeader(b: seq<byte>) {
    12 <= |b| && b[..8] == [0, 0, 0x84, 0, 0, 0, 0, 1]
  }

  lemma HeaderSays(n1: nat, n2: nat)
    ensures ResponseHeader(Header(1, n1, n2))
  {
  }

  /** What a message built from a non-TXT answer and any lists of records says: it parses to one
      answer and two sections with the right counts, and each parsed record has the name, the type,
      the data, the class and the time to live of the record it was built from or the defaults. */
  lemma BuiltMessage(b: seq<byte>, mark: seq<bool>, answer: Record, authority: seq<Record>, additional: seq<Record>,
                     rclass: nat, ttl: nat, all: set<seq<Label>>)
    requires Compatible(all) && ValidRecord(answer, all) && ValidRecords(authority, all) && ValidRecords(additional, all)
    requires !answer.data.Txt? && |mark| == |b| <= MAX_CAPACITY && rclass < 0x10000
    requires var s1, s2 := Section(authority, rclass, ttl), Section(additional, rclass, ttl);
             Message(b, mark, Answer(answer, rclass, ttl), s1, s2, |s1| % 0x10000, |s2| % 0x10000)
    ensures ResponseHeader(b)
    ensures exists a: Wire, ws1: seq<Wire>, ws2: seq<Wire> ::
              ReadsAs(b, [a], ws1, ws2) && Conveys(a, answer, rclass, ttl)
              && SectionConveys(ws1, authority, rclass, ttl) && SectionConveys(ws2, additional, rclass, ttl)
  {
    hide ReadsAs, Section, SectionConveys, Conveys, Compatible, ValidRecord, ValidRecords, WireOf, Update, RecordsAt, Header;
    RoundTrip(b, mark, answer, authority, additional, rclass, ttl, all);
    var s1, s2 := Section(authority, rclass, ttl), Section(additional, rclass, ttl);
    HeaderSays(|s1| % 0x10000, |s2| % 0x10000);
    assert b[..8] == b[..12][..8];
    WireConveys(answer, rclass, ttl, all);
    SectionSays(authority, rclass, ttl, all);
    SectionSays(additional, rclass, ttl, all);
    var a := WireOf(Update(answer, rclass, ttl));
    assert ReadsAs(b, [a], s1, s2);
  }

  // ----- Room

  lemma NameRoomMeans(name: seq<byte>)
    requires name != []
    ensures NameRoom(name) <= |name| + 2
  {
    hide Dotted, LabelsOf, NameLabels;
    NamesLabels(name);
  }

  /** The room that is enough for a record other than a TXT record: its names with two bytes more
      each, ten bytes of fields, and its data. */
  lemma RecordRoomMeans(r: Record, all: set<seq<Label>>)
    requires ValidRecord(r, all) && !r.data.Txt?
    ensures RecordRoom(r) <= |r.name| + 2 + 10 + match r.data
                                                 case A(_) => 4
                                                 case Aaaa(_) => 16
                                                 case Ptr(target) => |target| + 2
                                                 case Srv(_, _, _, host) => 6 + |host| + 2
                                                 case _ => 0
  {
    hide NameRoom, NameLabels;
    NameRoomMeans(r.name);
    match r.data
    case Ptr(target) => NameRoomMeans(target);
    case Srv(_, _, _, host) => NameRoomMeans(host);
    case _ =>
  }

  /** The bytes of all keys and values, each pair with an equals sign and a length byte. */
  ghost function PairBytes(records: seq<Record>): nat {
    if records == [] then 0
    else
      var last := records[|records| - 1];
      PairBytes(records[..|records| - 1]) + if last.data.Txt? then |last.data.key| + |last.data.value| + 2 else 0
  }

  lemma {:induction false} TxtBytesSize(records: seq<Record>)
    ensures |TxtBytes(records)| == PairBytes(records)
  {
    if records != [] { TxtBytesSize(records[..|records| - 1]); }
  }

  /** The same for the TXT records of a section. */
  lemma TxtRoomMeans(records: seq<Record>, all: set<seq<Label>>)
    requires ValidRecords(records, all)
    ensures TxtRoom(records) <= if Txts(records) == [] then 0 else |Txts(records)[0].name| + 2 + 10 + PairBytes(records)
  {
    hide NameRoom, Txts, TxtBytes, PairBytes, ValidRecords;
    TxtsIn(records, all);
    TxtBytesSize(records);
    if Txts(records) != [] {
      assert ValidRecord(Txts(records)[0], all);
      NameRoomMeans(Txts(records)[0].name);
    }
  }
}
