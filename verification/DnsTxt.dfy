/** Reading the key/value strings of a TXT record (section 6 of RFC 6763). */
module DnsTxt {
  import opened Bytes
  import opened DnsNames
  import opened DnsRecords
  import opened DnsWriter
  import opened DnsMessage
  import opened DnsRoundTrip

  const EQUALS: byte := 61

  /** A string of a TXT record; without an equals sign there is no value. */
  datatype Pair = Pair(key: seq<byte>, value: Option<seq<byte>>)

  predicate Printable(c: byte) {
    0x20 <= c <= 0x7E
  }

  /** Where the key ends: at the first equals sign, at the end of the string, or, when
      something unprintable comes first, nowhere (0). */
  function Separator(s: seq<byte>, from: nat): (r: nat)
    requires from <= |s|
    ensures r <= |s|
    decreases |s| - from
  {
    if from == |s| then |s|
    else if !Printable(s[from]) then 0
    else if s[from] == EQUALS then from
    else Separator(s, from + 1)
  }

  function PairOf(s: seq<byte>, sep: nat): Pair
    requires sep <= |s|
  {
    if sep < |s| then Pair(s[..sep], Some(s[sep + 1..])) else Pair(s, None)
  }

  /** The pairs of the strings in b[at..end], at most cap of them. */
  function Pairs(b: seq<byte>, at: nat, end: nat, cap: nat): seq<Pair>
    requires end <= |b|
    decreases end - at
  {
    if at >= end || cap == 0 || b[at] >= end - at then []
    else
      var next := at + 1 + b[at];
      var s := b[at + 1..next];
      var sep := Separator(s, 0);
      if sep == 0 then Pairs(b, next, end, cap) else [PairOf(s, sep)] + Pairs(b, next, end, cap - 1)
  }

  /** Parses the strings of a TXT record. */
  method ParseTxt(b: seq<byte>, offset: nat, length: nat, cap: nat) returns (pairs: seq<Pair>)
    ensures pairs == Pairs(b, offset, if |b| < offset + length then |b| else offset + length, cap)
  {
    hide Separator, PairOf, Pairs;
    var end := if |b| < offset + length then |b| else offset + length;
    var at: nat := offset;
    pairs := [];
    assert [] + Pairs(b, offset, end, cap) == Pairs(b, offset, end, cap);
    while at < end && |pairs| < cap
      invariant |pairs| <= cap
      invariant Pairs(b, offset, end, cap) == pairs + Pairs(b, at, end, cap - |pairs|)
      decreases end - at
    {
      PairsStep(b, at, end, cap - |pairs|);
      var sub := b[at];
      if sub >= end - at { break; }
      var s := b[at + 1..at + 1 + sub];
      ghost var before := pairs;
      at := at + sub + 1;
      var separator := FindSeparator(s);
      if separator != 0 {
        pairs := pairs + [PairOf(s, separator)];
        assert before + ([PairOf(s, separator)] + Pairs(b, at, end, cap - |pairs|)) == pairs + Pairs(b, at, end, cap - |pairs|);
      }
    }
    if at >= end || |pairs| == cap { PairsEnd(b, at, end, cap - |pairs|); }
    assert pairs + [] == pairs;
  }

  lemma PairsStep(b: seq<byte>, at: nat, end: nat, cap: nat)
    requires at < end <= |b| && cap > 0
    ensures var next := at + 1 + b[at];
            Pairs(b, at, end, cap) ==
            if b[at] >= end - at then []
            else
              var s := b[at + 1..next];
              var sep := Separator(s, 0);
              if sep == 0 then Pairs(b, next, end, cap) else [PairOf(s, sep)] + Pairs(b, next, end, cap - 1)
  {
    hide Separator, PairOf;
  }

  lemma PairsEnd(b: seq<byte>, at: nat, end: nat, cap: nat)
    requires end <= |b| && (at >= end || cap == 0)
    ensures Pairs(b, at, end, cap) == []
  {
  }

  method FindSeparator(s: seq<byte>) returns (r: nat)
    ensures r == Separator(s, 0)
  {
    var c := 0;
    while c < |s|
      invariant 0 <= c <= |s| && Separator(s, 0) == Separator(s, c)
    {
      if !Printable(s[c]) { return 0; }
      if s[c] == EQUALS { return c; }
      c := c + 1;
    }
    r := |s|;
  }

  /** A key/value pair that survives: the key is not empty, printable and without an
      equals sign, and the whole string has a length that fits one byte. */
  ghost predicate Sendable(d: Data)
    requires d.Txt?
  {
    1 <= |d.key| && |d.key| + |d.value| + 1 <= 255
    && forall i :: 0 <= i < |d.key| ==> 0x20 <= d.key[i] <= 0x7E && d.key[i] != '=' as byte
  }

  ghost function Sent(records: seq<Record>): seq<Pair>
    requires forall i :: 0 <= i < |records| ==> records[i].data.Txt?
  {
    if records == [] then []
    else [Pair(records[0].data.key, Some(records[0].data.value))] + Sent(records[1..])
  }

  /** The strings of TXT records, first to last. */
  ghost function Strings(records: seq<Record>): seq<byte>
    requires forall i :: 0 <= i < |records| ==> records[i].data.Txt?
  {
    if records == [] then [] else TxtString(records[0].data) + Strings(records[1..])
  }

  lemma {:induction false} SeparatorSkips(s: seq<byte>, from: nat, until: nat)
    requires from <= until <= |s| && forall i :: from <= i < until ==> Printable(s[i]) && s[i] != EQUALS
    ensures Separator(s, from) == Separator(s, until)
    decreases until - from
  {
    if from < until { SeparatorSkips(s, from + 1, until); }
  }

  /** What a separator tells about the key in front of it. */
  lemma {:induction false} SeparatorMeans(s: seq<byte>, from: nat)
    requires from <= |s|
    ensures var r := Separator(s, from);
            r > 0 ==> from <= r && (r < |s| ==> s[r] == EQUALS)
                      && forall i :: from <= i < r ==> Printable(s[i]) && s[i] != EQUALS
    decreases |s| - from
  {
    if from < |s| && Printable(s[from]) && s[from] != EQUALS { SeparatorMeans(s, from + 1); }
  }

  /** Every parsed pair with a value is one that could have been sent. */
  lemma {:induction false} ParsedAreSendable(b: seq<byte>, at: nat, end: nat, cap: nat, i: nat)
    requires end <= |b| && i < |Pairs(b, at, end, cap)| && Pairs(b, at, end, cap)[i].value.Some?
    ensures var p := Pairs(b, at, end, cap)[i]; Sendable(Txt(p.key, p.value.value))
    decreases end - at
  {
    hide Separator;
    var next := at + 1 + b[at];
    var s := b[at + 1..next];
    var sep := Separator(s, 0);
    if sep == 0 {
      ParsedAreSendable(b, next, end, cap, i);
    } else if i > 0 {
      ParsedAreSendable(b, next, end, cap - 1, i - 1);
    } else {
      SeparatorMeans(s, 0);
    }
  }

  /** A string that can be sent reads back as its key and value. */
  lemma StringReads(b: seq<byte>, at: nat, end: nat, cap: nat, d: Data)
    requires d.Txt? && Sendable(d) && cap > 0 && end <= |b|
    requires at + |TxtString(d)| <= end && b[at..at + |TxtString(d)|] == TxtString(d)
    ensures Pairs(b, at, end, cap) == [Pair(d.key, Some(d.value))] + Pairs(b, at + |TxtString(d)|, end, cap - 1)
  {
    hide Separator;
    var t := TxtString(d);
    var n := |d.key| + |d.value| + 1;
    assert b[at] == b[at..at + |t|][0] == n;
    var s := b[at + 1..at + 1 + n];
    assert s == b[at..at + |t|][1..] == d.key + [EQUALS] + d.value;
    SeparatorSkips(s, 0, |d.key|);
    SeparatorHere(s, |d.key|);
    assert s[..|d.key|] == d.key && s[|d.key| + 1..] == d.value;
    assert at + 1 + b[at] == at + |t|;
  }

  lemma SeparatorHere(s: seq<byte>, i: nat)
    requires i < |s| && s[i] == EQUALS
    ensures Separator(s, i) == i
  {
  }

  lemma {:induction false} StringsRead(b: seq<byte>, at: nat, end: nat, cap: nat, records: seq<Record>)
    requires forall i :: 0 <= i < |records| ==> records[i].data.Txt? && Sendable(records[i].data)
    requires |records| <= cap && at <= end <= |b| && b[at..end] == Strings(records)
    ensures Pairs(b, at, end, cap) == Sent(records)
    decreases |records|
  {
    hide Pairs, Sendable, TxtString;
    if records == [] {
      NoPairs(b, at, end, cap);
    } else {
      var t := TxtString(records[0].data);
      assert b[at..at + |t|] == b[at..end][..|t|] == t;
      assert b[at + |t|..end] == b[at..end][|t|..] == Strings(records[1..]);
      StringReads(b, at, end, cap, records[0].data);
      StringsRead(b, at + |t|, end, cap - 1, records[1..]);
    }
  }

  lemma NoPairs(b: seq<byte>, at: nat, end: nat, cap: nat)
    requires at >= end && end <= |b|
    ensures Pairs(b, at, end, cap) == []
  {
  }

  lemma {:induction false} SentAt(records: seq<Record>, i: nat)
    requires (forall j :: 0 <= j < |records| ==> records[j].data.Txt?) && i < |records|
    ensures |Sent(records)| == |records|
    ensures Sent(records)[i] == Pair(records[i].data.key, Some(records[i].data.value))
  {
    if i > 0 {
      SentAt(records[1..], i - 1);
    } else if |records| > 1 {
      SentAt(records[1..], 0);
    }
  }

  ghost predicate AllSendable(records: seq<Record>) {
    forall i :: 0 <= i < |records| ==> records[i].data.Txt? && Sendable(records[i].data)
  }

  /** Wherever the data of TXT records stands, it reads back as their keys and values exactly when
      every one of them is sendable. */
  lemma TxtRoundTrip(b: seq<byte>, at: nat, end: nat, records: seq<Record>, cap: nat)
    requires forall i :: 0 <= i < |records| ==> records[i].data.Txt?
    requires |records| <= cap && at <= end <= |b| && b[at..end] == Strings(records)
    ensures Pairs(b, at, end, cap) == Sent(records) <==> AllSendable(records)
  {
    hide Pairs, Sendable, Strings, Sent;
    if AllSendable(records) { StringsRead(b, at, end, cap, records); }
    if Pairs(b, at, end, cap) == Sent(records) {
      forall i | 0 <= i < |records| ensures Sendable(records[i].data) {
        SentAt(records, i);
        ParsedAreSendable(b, at, end, cap, i);
      }
    }
  }

  lemma {:induction false} StringsSnoc(records: seq<Record>, last: Record)
    requires last.data.Txt? && forall i :: 0 <= i < |records| ==> records[i].data.Txt?
    ensures Strings(records + [last]) == Strings(records) + TxtString(last.data)
  {
    hide TxtString;
    if records == [] {
      assert [last][1..] == [];
      assert Strings([last]) == TxtString(last.data) + Strings([]);
    } else {
      StringsSnoc(records[1..], last);
      assert (records + [last])[1..] == records[1..] + [last];
    }
  }

  lemma {:induction false} TxtsAreTxt(records: seq<Record>)
    ensures forall i :: 0 <= i < |Txts(records)| ==> Txts(records)[i].data.Txt?
  {
    if records != [] { TxtsAreTxt(records[..|records| - 1]); }
  }

  /** What the writer puts into the TXT record are the strings of the TXT records. */
  lemma {:induction false} TxtBytesAreStrings(records: seq<Record>)
    ensures (forall i :: 0 <= i < |Txts(records)| ==> Txts(records)[i].data.Txt?) && TxtBytes(records) == Strings(Txts(records))
  {
    hide TxtString, Strings;
    TxtsAreTxt(records);
    if records != [] {
      var front, last := records[..|records| - 1], records[|records| - 1];
      TxtBytesAreStrings(front);
      TxtsAreTxt(front);
      if last.data.Txt? {
        StringsSnoc(Txts(front), last);
      } else {
        assert Txts(records) == Txts(front) + [] == Txts(front);
        assert TxtBytes(records) == TxtBytes(front) + [] == TxtBytes(front);
      }
    } else {
      NoStrings();
    }
  }

  lemma NoStrings()
    ensures Strings([]) == []
  {
  }

  // ----- TXT records in a message

  /** The last record parsed is the TXT record, and the pairs parsed from its data are those of
      these TXT records exactly when every one of them is sendable. */
  ghost predicate TxtReads(b: seq<byte>, parsed: seq<Parsed>, records: seq<Record>, cap: nat)
    requires forall i :: 0 <= i < |records| ==> records[i].data.Txt?
  {
    parsed != []
    && var p := parsed[|parsed| - 1];
    p.rtype == TYPE_TXT && p.dataAt + p.length <= |b|
    && (Pairs(b, p.dataAt, p.dataAt + p.length, cap) == Sent(records) <==> AllSendable(records))
  }

  lemma SectionTxt(b: seq<byte>, parsed: seq<Parsed>, records: seq<Record>, rclass: nat, ttl: nat, cap: nat)
    requires AllDecoded(b, parsed, Section(records, rclass, ttl)) && Txts(records) != [] && |Txts(records)| <= cap
    ensures (forall i :: 0 <= i < |Txts(records)| ==> Txts(records)[i].data.Txt?) && TxtReads(b, parsed, Txts(records), cap)
  {
    hide Pairs, Sent, AllSendable, Strings, Txts, TxtBytes, Plain, LabelsOf, NameAt;
    TxtsAreTxt(records);
    TxtBytesAreStrings(records);
    var ws, p := Section(records, rclass, ttl), parsed[|parsed| - 1];
    assert ws[|ws| - 1] == Coalesced(records, rclass, ttl);
    assert Decoded(b, p) == Some(ws[|ws| - 1]);
    TxtRoundTrip(b, p.dataAt, p.dataAt + p.length, Txts(records), cap);
  }

  /** The TXT round trip: in a message built from a non-TXT answer and any lists of records, the last
      record of a section with TXT records is their TXT record, and parsing it gives the pairs that
      were sent exactly when every one of them is sendable. */
  lemma MessageTxtRoundTrip(b: seq<byte>, mark: seq<bool>, answer: Record, authority: seq<Record>, additional: seq<Record>,
                            rclass: nat, ttl: nat, all: set<seq<Label>>, cap: nat)
    requires Compatible(all) && ValidRecord(answer, all) && ValidRecords(authority, all) && ValidRecords(additional, all)
    requires !answer.data.Txt? && |mark| == |b| <= MAX_CAPACITY
    requires var s1, s2 := Section(authority, rclass, ttl), Section(additional, rclass, ttl);
             Message(b, mark, Answer(answer, rclass, ttl), s1, s2, |s1| % 0x10000, |s2| % 0x10000)
    ensures 12 <= |b| && forall i :: 0 <= i < |Txts(authority)| ==> Txts(authority)[i].data.Txt?
    ensures forall i :: 0 <= i < |Txts(additional)| ==> Txts(additional)[i].data.Txt?
    ensures var p1 := ParsedAt(b, 12, Host16(b, 6));
            var p2 := ParsedAt(b, p1.1, Host16(b, 8));
            var p3 := ParsedAt(b, p2.1, Host16(b, 10));
            && (Txts(authority) != [] && |Txts(authority)| <= cap ==> TxtReads(b, p2.0, Txts(authority), cap))
            && (Txts(additional) != [] && |Txts(additional)| <= cap ==> TxtReads(b, p3.0, Txts(additional), cap))
  {
    hide Message, Section, Compatible, ValidRecord, ValidRecords, Answer, TxtReads, ParsedAt, Host16, AllDecoded, Txts;
    RoundTrip(b, mark, answer, authority, additional, rclass, ttl, all);
    var p2 := ParsedAt(b, ParsedAt(b, 12, Host16(b, 6)).1, Host16(b, 8));
    var p3 := ParsedAt(b, p2.1, Host16(b, 10));
    TxtsAreTxt(authority);
    TxtsAreTxt(additional);
    if Txts(authority) != [] && |Txts(authority)| <= cap { SectionTxt(b, p2.0, authority, rclass, ttl, cap); }
    if Txts(additional) != [] && |Txts(additional)| <= cap { SectionTxt(b, p3.0, additional, rclass, ttl, cap); }
  }
}
