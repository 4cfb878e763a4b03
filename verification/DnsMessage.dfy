/** Building an mDNS response (mdns_answer_multicast_rclass_ttl), and the proof that
    the record parser reads it back. */
module DnsMessage {
  import opened Bytes
  import opened DnsNames
  import opened DnsSpelling
  import opened DnsNameWriter
  import opened DnsCompression
  import opened DnsSearch
  import opened DnsRecords
  import opened DnsWriter

  datatype Data =
    | Ptr(target: seq<byte>)
    | Srv(priority: nat, weight: nat, port: nat, host: seq<byte>)
    | A(address: seq<byte>)
    | Aaaa(address6: seq<byte>)
    | Txt(key: seq<byte>, value: seq<byte>)
    | Other(rtype: nat)

  datatype Record = Record(name: seq<byte>, rclass: nat, ttl: nat, data: Data)

  function TypeOf(d: Data): nat {
    match d
    case Ptr(_) => TYPE_PTR
    case Srv(_, _, _, _) => TYPE_SRV
    case A(_) => TYPE_A
    case Aaaa(_) => TYPE_AAAA
    case Txt(_, _) => TYPE_TXT
    case Other(rtype) => rtype
  }

  /** Names that can be told apart: no name's end could be taken for the start of a
      longer end, none finds itself, and every name has between 1 and 64 labels. */
  ghost predicate Compatible(all: set<seq<Label>>) {
    forall v :: v in all ==> Writable(v) && !Circular(v) && 1 <= |v| <= MAX_SUBSTRINGS && !Clash(v, all)
  }

  ghost predicate Distinct(labels: seq<Label>) {
    forall i, j :: 0 <= i < j < |labels| ==> labels[i] != labels[j]
  }

  /** Names with the same last label and no repeated labels are compatible. */
  lemma SameEndCompatible(all: set<seq<Label>>, last: Label)
    requires forall v :: v in all ==> Writable(v) && Distinct(v) && 1 <= |v| <= MAX_SUBSTRINGS && v[|v| - 1] == last
    ensures Compatible(all)
  {
    forall v | v in all ensures !Circular(v) { DistinctNotCircular(v); }
    forall v, m, i | v in all && IsSuffixOf(m, all) && 0 <= i < |v| && v[i..] <= m ensures v[i..] == m {
      var u :| u in all && |m| <= |u| && u[|u| - |m|..] == m;
      var k := |v| - i - 1;
      assert v[i..][k] == last;
      EndOnce(u, m, k);
    }
  }

  /** The last label of a name occurs in it only once. */
  lemma EndOnce(u: seq<Label>, m: seq<Label>, k: nat)
    requires Distinct(u) && k < |m| <= |u| && u[|u| - |m|..] == m && m[k] == u[|u| - 1]
    ensures k == |m| - 1
  {
    assert m[k] == u[|u| - |m| + k];
  }

  ghost predicate NameIn(name: seq<byte>, all: set<seq<Label>>) {
    name != [] && NameLabels(name) in all
  }

  ghost predicate ValidData(d: Data, all: set<seq<Label>>) {
    match d
    case Ptr(target) => NameIn(target, all)
    case Srv(priority, weight, port, host) =>
      priority < 0x10000 && weight < 0x10000 && port < 0x10000 && NameIn(host, all)
    case A(address) => |address| == 4
    case Aaaa(address) => |address| == 16
    case Txt(_, _) => true
    case Other(rtype) => rtype < 0x10000 && rtype !in {TYPE_PTR, TYPE_SRV, TYPE_A, TYPE_AAAA, TYPE_TXT}
  }

  /** Fields within their widths, names among `all`. */
  ghost predicate ValidRecord(r: Record, all: set<seq<Label>>) {
    NameIn(r.name, all) && r.rclass < 0x10000 && r.ttl < 0x1_0000_0000 && ValidData(r.data, all)
  }

  /** The labels of a name; the empty string, which no caller may pass on, has none. */
  function LabelsOf(name: seq<byte>): seq<Label> {
    if name == [] then [] else NameLabels(name)
  }

  /** The data as it should read. */
  ghost function WireDataOf(d: Data): WireData {
    match d
    case Ptr(target) => WName(LabelsOf(target))
    case Srv(priority, weight, port, host) => WSrv(priority, weight, port, LabelsOf(host))
    case A(address) => WBytes(address)
    case Aaaa(address) => WBytes(address)
    case _ => WBytes([])
  }

  ghost function WireOf(r: Record): Wire {
    Wire(LabelsOf(r.name), TypeOf(r.data), r.rclass, r.ttl, WireDataOf(r.data))
  }

  // ----- One record

  lemma KeepsTrans(b0: seq<byte>, m0: seq<bool>, b1: seq<byte>, m1: seq<bool>, b2: seq<byte>, m2: seq<bool>)
    requires |b0| == |m0| && |b1| == |m1| && |b2| == |m2| && Keeps(b0, m0, b1, m1) && Keeps(b1, m1, b2, m2)
    ensures Keeps(b0, m0, b2, m2)
  {
  }

  /** Writing ends within the room needed without compression, or fails because there may be less. */
  predicate Within(r: Option<nat>, data: nat, need: nat, capacity: nat) {
    match r
    case None => data + need > capacity
    case Some(end) => end <= data + need
  }

  /** Room for a name written in full. */
  function NameRoom(name: seq<byte>): nat {
    |Dotted(LabelsOf(name))| + 1
  }

  function DataRoom(d: Data): nat {
    match d
    case Ptr(target) => NameRoom(target)
    case Srv(_, _, _, host) => 6 + NameRoom(host)
    case A(address) => |address|
    case Aaaa(address) => |address|
    case _ => 0
  }

  function RecordRoom(r: Record): nat {
    if r.data.Txt? then 0 else NameRoom(r.name) + 10 + DataRoom(r.data)
  }

  /** Writes a name that is among the compatible names: exactly its labels are spelled. */
  method AddName(w: Writer, data: nat, name: seq<byte>, ghost all: set<seq<Label>>) returns (r: Option<nat>)
    requires w.Ready(data, all) && Compatible(all) && NameIn(name, all)
    modifies w`mark, w.buf, w.table, w.table.offset
    ensures w.Valid()
    ensures Within(r, data, NameRoom(name), w.buf.Length)
    ensures Keeps(old(w.buf[..]), old(w.mark), w.buf[..], w.mark)
    ensures r.Some? ==> data < r.value && w.Ready(r.value, all) && w.Appended(data)
                        && Spells(w.buf[..], w.mark, data, NameLabels(name)) && NameEnd(w.buf[..], data) == r.value
  {
    hide Spells, NameEnd, Clash, Writable, Circular, NameLabels, TableOk, Dotted, Reads, Walk, EndsThere, Search, FindsItself;
    ghost var spelled, hit, b, m := [], None, w.buf[..], w.mark;
    r, spelled, hit := w.StringMake(data, name, all);
    if r.None? { UnmarkedRest(b, w.buf[..], m, data); }
    assert NameLabels(name) in all && !Clash(NameLabels(name), all);
    if r.Some? { assert all + {spelled} == all; }
  }

  /** The ten bytes between a record's name and its data; the length is filled in later. */
  function Fields(rtype: nat, rclass: nat, ttl: nat): (r: seq<byte>)
    ensures |r| == 10
  {
    Net16(rtype) + Net16(rclass) + Net32(ttl) + Net16(0)
  }

  /** The middle one of three pieces found in b. */
  lemma Middle(b: seq<byte>, from: nat, x: seq<byte>, y: seq<byte>, z: seq<byte>)
    requires from + |x| + |y| + |z| <= |b| && b[from..from + |x| + |y| + |z|] == x + (y + z)
    ensures b[from + |x|..from + |x| + |y|] == y
  {
    forall i | 0 <= i < |y| ensures b[from + |x| + i] == y[i] {
      assert b[from..from + |x| + |y| + |z|][|x| + i] == y[i];
    }
  }

  lemma FieldsRead(b: seq<byte>, h: nat, w: Wire)
    requires w.rtype < 0x10000 && w.rclass < 0x10000 && w.ttl < 0x1_0000_0000
    requires h + 10 <= |b| && b[h..h + 10] == Fields(w.rtype, w.rclass, w.ttl)
    ensures FieldsAt(b, h, w, 0)
  {
    hide Net16, Net32, Host16, Host32;
    var t, c, l, z := Net16(w.rtype), Net16(w.rclass), Net32(w.ttl), Net16(0);
    Middle(b, h, [], t, c + l + z);
    Middle(b, h, t, c, l + z);
    Middle(b, h, t + c, l, z);
    Middle(b, h, t + c + l, z, []);
    Net16RoundTrip(b, h, w.rtype);
    Net16RoundTrip(b, h + 2, w.rclass);
    Net32RoundTrip(b, h + 4, w.ttl);
    Net16RoundTrip(b, h + 8, 0);
  }

  /** A record whose name and fields are written and whose data is still missing. */
  ghost predicate Headed(b: seq<byte>, mark: seq<bool>, data: nat, w: Wire, at: nat)
    requires |mark| == |b|
  {
    && data < at - 10 && at <= |b| && Spells(b, mark, data, w.labels) && NameEnd(b, data) == at - 10
    && FieldsAt(b, at - 10, w, 0) && (forall i :: at - 10 <= i < at ==> !mark[i])
  }

  method AddHeader(w: Writer, data: nat, name: seq<byte>, rtype: nat, rclass: nat, ttl: nat, ghost wire: Wire,
                   ghost all: set<seq<Label>>) returns (r: Option<nat>)
    requires w.Ready(data, all) && Compatible(all) && NameIn(name, all)
    requires rtype < 0x10000 && rclass < 0x10000 && ttl < 0x1_0000_0000
    requires wire.labels == NameLabels(name) && wire.rtype == rtype && wire.rclass == rclass && wire.ttl == ttl
    modifies w`mark, w.buf, w.table, w.table.offset
    ensures w.Valid() && Within(r, data, NameRoom(name) + 10, w.buf.Length)
    ensures r.Some? ==> w.Ready(r.value, all) && w.Appended(data) && data <= r.value
                        && Keeps(old(w.buf[..]), old(w.mark), w.buf[..], w.mark)
                        && Headed(w.buf[..], w.mark, data, wire, r.value)
  {
    hide Spells, NameEnd, NameLabels, Fields, FieldsAt, TableOk, Compatible, NameRoom;
    ghost var b0, m0 := w.buf[..], w.mark;
    r := AddName(w, data, name, all);
    if r.None? { return; }
    var h := r.value;
    if w.buf.Length - h < 10 { return None; }
    ghost var b1 := w.buf[..];
    w.Put(h, Fields(rtype, rclass, ttl), h, all);
    ghost var b2 := w.buf[..];
    assert b2[h..h + 10] == Fields(rtype, rclass, ttl);
    FieldsRead(b2, h, wire);
    SpellsKept(b1, w.mark, b2, w.mark, data, wire.labels);
    KeepsTrans(b0, m0, b1, w.mark, b2, w.mark);
    assert w.buf[..data] == b2[..data] == b1[..data] == b0[..data];
    r := Some(h + 10);
  }

  /** Filling in the length completes the record. */
  lemma Completed(b: seq<byte>, mark: seq<bool>, b': seq<byte>, data: nat, w: Wire, at: nat, end: nat)
    requires |mark| == |b| == |b'| && Headed(b, mark, data, w, at) && at <= end <= |b| && end - at < 0x10000
    requires DataAt(b, mark, at, w.data, end)
    requires b' == b[..at - 2] + Net16(end - at) + b[at..]
    requires Keeps(b, mark, b', mark)
    ensures RecordAt(b', mark, data, w, end)
  {
    hide Spells, NameEnd, Keeps, DataAt, Net16, Host16, Host32;
    SpellsKept(b, mark, b', mark, data, w.labels);
    assert b'[at..end] == b[at..end];
    DataKept(b, mark, b', mark, at, w.data, end);
    assert b'[at - 2..at] == Net16(end - at);
    Net16RoundTrip(b', at - 2, end - at);
    SameHost(b, b', at - 10, w);
  }

  lemma SameHost(b: seq<byte>, b': seq<byte>, h: nat, w: Wire)
    requires h + 10 <= |b| == |b'| && b'[..h + 8] == b[..h + 8] && FieldsAt(b, h, w, 0)
    ensures Host16(b', h) == w.rtype && Host16(b', h + 2) == w.rclass && Host32(b', h + 4) == w.ttl
  {
    forall i | 0 <= i < h + 8 ensures b'[i] == b[i] {
      assert b'[..h + 8][i] == b[..h + 8][i];
    }
  }

  /** A headed record stays so while its data is written. */
  lemma HeadedKept(b: seq<byte>, mark: seq<bool>, b': seq<byte>, mark': seq<bool>, data: nat, w: Wire, at: nat)
    requires |mark| == |b| == |b'| == |mark'| && Headed(b, mark, data, w, at) && Keeps(b, mark, b', mark')
    requires b'[..at] == b[..at] && mark'[..at] == mark[..at]
    ensures Headed(b', mark', data, w, at)
  {
    hide Spells, NameEnd, Keeps, FieldsAt;
    SpellsKept(b, mark, b', mark', data, w.labels);
    FieldsKept(b, b', at - 10, w, 0, at);
    forall i | at - 10 <= i < at ensures !mark'[i] {
      assert mark'[..at][i] == mark[..at][i];
    }
  }

  // ----- The data of a record

  method AddBytes(w: Writer, at: nat, bytes: seq<byte>, ghost all: set<seq<Label>>) returns (r: Option<nat>)
    requires w.Ready(at, all)
    modifies w.buf
    ensures w.Valid() && Within(r, at, |bytes|, w.buf.Length)
    ensures r.Some? ==> r.value == at + |bytes| && w.Ready(r.value, all) && w.Appended(at)
                        && Keeps(old(w.buf[..]), old(w.mark), w.buf[..], w.mark)
                        && DataAt(w.buf[..], w.mark, at, WBytes(bytes), r.value)
  {
    hide TableOk;
    if w.buf.Length - at < |bytes| { return None; }
    ghost var b := w.buf[..];
    w.Put(at, bytes, at, all);
    assert w.buf[..][at..at + |bytes|] == bytes;
    assert w.buf[..at] == w.buf[..][..at] == b[..at];
    r := Some(at + |bytes|);
  }

  method AddSrv(w: Writer, at: nat, d: Data, ghost all: set<seq<Label>>) returns (r: Option<nat>)
    requires w.Ready(at, all) && Compatible(all) && d.Srv? && ValidData(d, all)
    modifies w`mark, w.buf, w.table, w.table.offset
    ensures w.Valid() && Within(r, at, DataRoom(d), w.buf.Length)
    ensures r.Some? ==> at <= r.value && w.Ready(r.value, all) && w.Appended(at)
                        && Keeps(old(w.buf[..]), old(w.mark), w.buf[..], w.mark)
                        && DataAt(w.buf[..], w.mark, at, WireDataOf(d), r.value)
  {
    hide Spells, NameEnd, NameLabels, TableOk, Compatible, Net16;
    ghost var b0, m0 := w.buf[..], w.mark;
    if w.buf.Length - at <= 6 { return None; }
    w.Put(at, Net16(d.priority) + Net16(d.weight) + Net16(d.port), at, all);
    ghost var b1 := w.buf[..];
    r := AddName(w, at + 6, d.host, all);
    if r.None? { return; }
    ghost var b2 := w.buf[..];
    assert b2[..at + 6] == b1[..at + 6];
    SrvRead(b0, b2, at, d);
    KeepsTrans(b0, m0, b1, m0, b2, w.mark);
    assert w.buf[..at] == b2[..at + 6][..at] == b1[..at + 6][..at] == b0[..at];
    assert w.mark[..at] == w.mark[..at + 6][..at] == m0[..at + 6][..at] == m0[..at];
  }

  lemma SrvRead(b0: seq<byte>, b: seq<byte>, at: nat, d: Data)
    requires at + 6 <= |b| == |b0| && d.Srv? && d.priority < 0x10000 && d.weight < 0x10000 && d.port < 0x10000
    requires b[..at + 6] == b0[..at] + (Net16(d.priority) + Net16(d.weight) + Net16(d.port))
    ensures Host16(b, at) == d.priority && Host16(b, at + 2) == d.weight && Host16(b, at + 4) == d.port
  {
    hide Net16, Host16;
    var p, w, q := Net16(d.priority), Net16(d.weight), Net16(d.port);
    Middle(b, 0, b0[..at], p, w + q);
    Middle(b, 0, b0[..at] + p, w, q);
    Middle(b, 0, b0[..at] + p + w, q, []);
    Net16RoundTrip(b, at, d.priority);
    Net16RoundTrip(b, at + 2, d.weight);
    Net16RoundTrip(b, at + 4, d.port);
  }

  /** The data of a record, by its type; other types have none. */
  method AddData(w: Writer, at: nat, d: Data, ghost all: set<seq<Label>>) returns (r: Option<nat>)
    requires w.Ready(at, all) && Compatible(all) && ValidData(d, all) && !d.Txt?
    modifies w`mark, w.buf, w.table, w.table.offset
    ensures w.Valid() && Within(r, at, DataRoom(d), w.buf.Length)
    ensures r.Some? ==> at <= r.value && w.Ready(r.value, all) && w.Appended(at)
                        && Keeps(old(w.buf[..]), old(w.mark), w.buf[..], w.mark)
                        && DataAt(w.buf[..], w.mark, at, WireDataOf(d), r.value)
  {
    hide Spells, NameEnd, NameLabels, TableOk, Compatible;
    match d
    case Ptr(target) => r := AddName(w, at, target, all);
    case Srv(_, _, _, _) => r := AddSrv(w, at, d, all);
    case A(address) => r := AddBytes(w, at, address, all);
    case Aaaa(address) => r := AddBytes(w, at, address, all);
    case Other(_) => r := AddBytes(w, at, [], all);
  }

  /** Fills in the length of a record whose data is written. */
  method FillLength(w: Writer, ghost data: nat, ghost wire: Wire, at: nat, end: nat, ghost all: set<seq<Label>>)
    requires w.Ready(end, all) && at <= end
    requires Headed(w.buf[..], w.mark, data, wire, at) && DataAt(w.buf[..], w.mark, at, wire.data, end)
    modifies w.buf
    ensures w.Ready(end, all) && Keeps(old(w.buf[..]), w.mark, w.buf[..], w.mark)
    ensures w.buf[..data] == old(w.buf[..data])
    ensures RecordAt(w.buf[..], w.mark, data, wire, end)
  {
    hide Spells, NameEnd, TableOk, FieldsAt, DataAt;
    ghost var b := w.buf[..];
    w.Put(at - 2, Net16(end - at), end, all);
    ghost var b' := w.buf[..];
    assert b' == b[..at - 2] + Net16(end - at) + b[at..];
    Completed(b, w.mark, b', data, wire, at, end);
    assert w.buf[..data] == b'[..data] == b[..data];
  }

  /** Writes one record; TXT records are left for later and write nothing. */
  method AddRecord(w: Writer, data: nat, record: Record, ghost all: set<seq<Label>>) returns (r: Option<nat>)
    requires w.Ready(data, all) && Compatible(all) && ValidRecord(record, all)
    modifies w`mark, w.buf, w.table, w.table.offset
    ensures w.Valid() && Within(r, data, RecordRoom(record), w.buf.Length)
    ensures r.Some? ==> data <= r.value && w.Ready(r.value, all) && w.Appended(data)
                        && Keeps(old(w.buf[..]), old(w.mark), w.buf[..], w.mark)
    ensures r.Some? && record.data.Txt? ==> r.value == data
    ensures r.Some? && !record.data.Txt? ==> RecordAt(w.buf[..], w.mark, data, WireOf(record), r.value)
  {
    hide Spells, NameEnd, NameLabels, TableOk, Compatible, FieldsAt, DataAt, WireDataOf, RecordAt, Headed, NameRoom, DataRoom;
    if record.data.Txt? { return Some(data); }
    ghost var b0, m0 := w.buf[..], w.mark;
    ghost var wire := WireOf(record);
    r := AddHeader(w, data, record.name, TypeOf(record.data), record.rclass, record.ttl, wire, all);
    if r.None? { return; }
    var at := r.value;
    ghost var b1, m1 := w.buf[..], w.mark;
    HeadedRange(b1, m1, data, wire, at);
    r := AddData(w, at, record.data, all);
    if r.None? { return; }
    ghost var b2, m2 := w.buf[..], w.mark;
    assert b2[..at] == b1[..at];
    HeadedKept(b1, m1, b2, m2, data, wire, at);
    FillLength(w, data, wire, at, r.value, all);
    ghost var b3 := w.buf[..];
    KeepsTrans(b0, m0, b1, m1, b2, m2);
    KeepsTrans(b0, m0, b2, m2, b3, m2);
    assert w.buf[..data] == b3[..data] == b2[..data] == b2[..at][..data] == b1[..at][..data] == b1[..data] == b0[..data];
    assert w.mark[..data] == m2[..at][..data] == m1[..at][..data] == m1[..data] == m0[..data];
  }

  lemma HeadedRange(b: seq<byte>, mark: seq<bool>, data: nat, w: Wire, at: nat)
    requires |mark| == |b| && Headed(b, mark, data, w, at)
    ensures data < at <= |b|
  {
  }

  // ----- Defaults

  /** The class and time to live a record is sent with. */
  function Update(r: Record, rclass: nat, ttl: nat): Record {
    var c := if r.rclass == 0 then rclass else r.rclass;
    var masked := c / 0x8000 % 2 * 0x8000 + c % 2;
    r.(ttl := if r.ttl == 0 || ttl == 0 then ttl else r.ttl,
       rclass := if r.data.Ptr? then masked % 0x8000 else masked)
  }

  /** Only the class and the cache-flush bit survive, never the latter on a PTR record; an
      explicit time to live is kept and a missing one filled in, unless the whole message says goodbye. */
  lemma UpdateMeaning(r: Record, rclass: nat, ttl: nat)
    requires rclass < 0x10000 && r.rclass < 0x10000
    ensures var u := Update(r, rclass, ttl); var c := if r.rclass == 0 then rclass else r.rclass;
            && u.rclass in {0, 1, 0x8000, 0x8001} && u.rclass % 2 == c % 2
            && (u.rclass >= 0x8000 <==> c >= 0x8000 && !r.data.Ptr?)
            && (ttl == 0 ==> u.ttl == 0) && (ttl > 0 && r.ttl > 0 ==> u.ttl == r.ttl)
            && (ttl > 0 && r.ttl == 0 ==> u.ttl == ttl)
  {
  }

  lemma UpdateValid(r: Record, rclass: nat, ttl: nat, all: set<seq<Label>>)
    requires ValidRecord(r, all) && rclass < 0x10000 && ttl < 0x1_0000_0000
    ensures ValidRecord(Update(r, rclass, ttl), all)
  {
    hide NameIn;
  }

  // ----- Sections

  /** The TXT records, in order. */
  ghost function Txts(records: seq<Record>): seq<Record> {
    if records == [] then []
    else
      var last := records[|records| - 1];
      Txts(records[..|records| - 1]) + if last.data.Txt? then [last] else []
  }

  ghost function TxtString(d: Data): seq<byte>
    requires d.Txt?
  {
    [(|d.key| + |d.value| + 1) % 256] + d.key + [61] + d.value
  }

  /** The data of the coalesced TXT record. */
  ghost function TxtBytes(records: seq<Record>): seq<byte> {
    if records == [] then []
    else
      var last := records[|records| - 1];
      TxtBytes(records[..|records| - 1]) + if last.data.Txt? then TxtString(last.data) else []
  }

  /** One record for all TXT records: name, class and time to live of the first. */
  ghost function Coalesced(records: seq<Record>, rclass: nat, ttl: nat): Wire
    requires Txts(records) != []
  {
    var first := Update(Txts(records)[0], rclass, ttl);
    Wire(LabelsOf(first.name), TYPE_TXT, first.rclass, first.ttl, WBytes(TxtBytes(records)))
  }

  ghost function Plain(records: seq<Record>, rclass: nat, ttl: nat): seq<Wire> {
    if records == [] then []
    else
      var last := records[|records| - 1];
      Plain(records[..|records| - 1], rclass, ttl) + if last.data.Txt? then [] else [WireOf(Update(last, rclass, ttl))]
  }

  /** What a list of records becomes: the others in order, then one TXT record. */
  ghost function Section(records: seq<Record>, rclass: nat, ttl: nat): seq<Wire> {
    Plain(records, rclass, ttl) + if Txts(records) == [] then [] else [Coalesced(records, rclass, ttl)]
  }

  ghost predicate ValidRecords(records: seq<Record>, all: set<seq<Label>>) {
    forall i :: 0 <= i < |records| ==> ValidRecord(records[i], all)
  }

  lemma PlainStep(records: seq<Record>, i: nat, rclass: nat, ttl: nat)
    requires i < |records|
    ensures Plain(records[..i + 1], rclass, ttl) ==
            Plain(records[..i], rclass, ttl) + if records[i].data.Txt? then [] else [WireOf(Update(records[i], rclass, ttl))]
  {
    var t := records[..i + 1];
    assert t[..|t| - 1] == records[..i] && t[|t| - 1] == records[i];
  }

  lemma TxtStep(records: seq<Record>, i: nat)
    requires i < |records|
    ensures Txts(records[..i + 1]) == Txts(records[..i]) + if records[i].data.Txt? then [records[i]] else []
    ensures TxtBytes(records[..i + 1]) == TxtBytes(records[..i]) + if records[i].data.Txt? then TxtString(records[i].data) else []
  {
    var t := records[..i + 1];
    assert t[..|t| - 1] == records[..i] && t[|t| - 1] == records[i];
  }

  lemma {:induction false} TxtPrefix(records: seq<Record>, i: nat)
    requires i <= |records|
    ensures Txts(records[..i]) <= Txts(records)
    decreases |records| - i
  {
    if i == |records| {
      assert records[..i] == records;
    } else {
      TxtStep(records, i);
      TxtPrefix(records, i + 1);
    }
  }

  /** Everything a section of records relies on while it is written. */
  ghost predicate Progress(w: Writer, start: nat, ws: seq<Wire>, at: nat, all: set<seq<Label>>)
    reads w, w.buf, w.table, w.table.offset
  {
    w.Ready(at, all) && RecordsAt(w.buf[..], w.mark, start, ws, at)
  }

  /** Room for the records of a section, except TXT records. */
  ghost function RecordsRoom(records: seq<Record>): nat {
    if records == [] then 0 else RecordsRoom(records[..|records| - 1]) + RecordRoom(records[|records| - 1])
  }

  lemma RoomStep(records: seq<Record>, i: nat)
    requires i < |records|
    ensures RecordsRoom(records[..i + 1]) == RecordsRoom(records[..i]) + RecordRoom(records[i])
  {
    hide RecordRoom;
    var t := records[..i + 1];
    assert t[..|t| - 1] == records[..i] && t[|t| - 1] == records[i];
  }

  lemma {:induction false} RoomGrows(records: seq<Record>, i: nat)
    requires i <= |records|
    ensures RecordsRoom(records[..i]) <= RecordsRoom(records)
    decreases |records| - i
  {
    hide RecordsRoom, RecordRoom;
    if i < |records| {
      RoomStep(records, i);
      RoomGrows(records, i + 1);
    } else {
      assert records[..i] == records;
    }
  }

  lemma UpdateRoom(r: Record, rclass: nat, ttl: nat)
    ensures RecordRoom(Update(r, rclass, ttl)) == RecordRoom(r)
  {
    hide NameRoom, DataRoom;
  }

  /** Writes the records of a section, except TXT records. */
  method AddRecords(w: Writer, data: nat, records: seq<Record>, rclass: nat, ttl: nat,
                    ghost start: nat, ghost ws: seq<Wire>, ghost all: set<seq<Label>>) returns (r: Option<nat>)
    requires Progress(w, start, ws, data, all) && Compatible(all) && ValidRecords(records, all)
    requires rclass < 0x10000 && ttl < 0x1_0000_0000
    modifies w`mark, w.buf, w.table, w.table.offset
    ensures w.Valid() && Within(r, data, RecordsRoom(records), w.buf.Length)
    ensures r.Some? ==> data <= r.value && Progress(w, start, ws + Plain(records, rclass, ttl), r.value, all)
    ensures r.Some? ==> w.Appended(data) && Keeps(old(w.buf[..]), old(w.mark), w.buf[..], w.mark)
  {
    hide TableOk, Compatible, RecordAt, RecordsAt, ValidRecord, WireOf, Update, RecordsRoom, RecordRoom;
    var at, i := data, 0;
    ghost var b0, m0 := w.buf[..], w.mark;
    assert ws + Plain(records[..0], rclass, ttl) == ws;
    NoRoom(records[..0]);
    while i < |records|
      invariant 0 <= i <= |records| && data <= at <= data + RecordsRoom(records[..i])
      invariant Progress(w, start, ws + Plain(records[..i], rclass, ttl), at, all)
      invariant w.buf[..data] == b0[..data] && w.mark[..data] == m0[..data] && Keeps(b0, m0, w.buf[..], w.mark)
    {
      ghost var b1, m1, done := w.buf[..], w.mark, ws + Plain(records[..i], rclass, ttl);
      PlainStep(records, i, rclass, ttl);
      UpdateValid(records[i], rclass, ttl, all);
      UpdateKind(records[i], rclass, ttl);
      UpdateRoom(records[i], rclass, ttl);
      RoomStep(records, i);
      RoomGrows(records, i + 1);
      var next := AddRecord(w, at, Update(records[i], rclass, ttl), all);
      if next.None? { return None; }
      ghost var b2, m2 := w.buf[..], w.mark;
      assert b2[..at] == b1[..at] && b2[..data] == b2[..at][..data] == b1[..at][..data] == b1[..data];
      assert m2[..data] == m2[..at][..data] == m1[..at][..data] == m1[..data];
      RecordsKept(b1, m1, b2, m2, start, done, at);
      KeepsTrans(b0, m0, b1, m1, b2, m2);
      if !records[i].data.Txt? {
        RecordsSnoc(b2, m2, start, done, at, WireOf(Update(records[i], rclass, ttl)), next.value);
        assert ws + Plain(records[..i + 1], rclass, ttl) == done + [WireOf(Update(records[i], rclass, ttl))];
      } else {
        assert ws + Plain(records[..i + 1], rclass, ttl) == done;
      }
      at := next.value;
      i := i + 1;
    }
    assert records[..i] == records;
    r := Some(at);
  }

  lemma UpdateKind(r: Record, rclass: nat, ttl: nat)
    ensures Update(r, rclass, ttl).data == r.data && Update(r, rclass, ttl).name == r.name
  {
  }

  lemma NoRoom(none: seq<Record>)
    requires none == []
    ensures RecordsRoom(none) == 0
  {
  }

  // ----- The coalesced TXT record

  /** Writes one TXT string; one byte must stay free after it. */
  method AddTxtString(w: Writer, at: nat, d: Data, ghost all: set<seq<Label>>) returns (r: Option<nat>)
    requires w.Ready(at, all) && d.Txt?
    modifies w.buf
    ensures w.Valid() && Within(r, at, |TxtString(d)|, w.buf.Length)
    ensures r.Some? ==> r.value == at + |TxtString(d)| && w.Ready(r.value, all) && w.Appended(at)
                        && Keeps(old(w.buf[..]), old(w.mark), w.buf[..], w.mark)
                        && w.buf[at..r.value] == TxtString(d)
  {
    hide TableOk;
    var length := |d.key| + |d.value| + 1;
    if w.buf.Length - at <= length || length > 0x3FFF { return None; }
    ghost var b := w.buf[..];
    var bytes := [length % 256] + d.key + [61] + d.value;
    w.Put(at, bytes, at, all);
    assert w.buf[at..at + |bytes|] == w.buf[..][at..at + |bytes|] == bytes;
    assert w.buf[..at] == w.buf[..][..at] == b[..at];
    r := Some(at + |bytes|);
  }

  /** While the TXT record grows: its head is in place and the strings so far follow. */
  ghost predicate Growing(w: Writer, data: nat, wire: Wire, head: Option<nat>, at: nat, done: seq<Record>, all: set<seq<Label>>)
    reads w, w.buf, w.table, w.table.offset
  {
    && w.Ready(at, all)
    && (head.None? ==> at == data && Txts(done) == [] && TxtBytes(done) == [])
    && (head.Some? ==> head.value <= data + |Dotted(wire.labels)| + 11)
    && (head.Some? ==> Txts(done) != [] && data <= head.value <= at && Headed(w.buf[..], w.mark, data, wire, head.value)
                       && w.buf[head.value..at] == TxtBytes(done))
  }

  /** The head of the TXT record, written with its first string. */
  method StartTxt(w: Writer, data: nat, ghost wire: Wire, head: Option<nat>, at: nat, record: Record, ghost done: seq<Record>,
                  rclass: nat, ttl: nat, ghost all: set<seq<Label>>) returns (head': Option<nat>, at': nat)
    requires Growing(w, data, wire, head, at, done, all) && Compatible(all) && data <= at
    requires record.data.Txt? && ValidRecord(record, all) && rclass < 0x10000 && ttl < 0x1_0000_0000
    requires head.None? ==> var u := Update(record, rclass, ttl);
                            wire.labels == LabelsOf(u.name) && wire.rtype == TYPE_TXT
                            && wire.rclass == u.rclass && wire.ttl == u.ttl
    modifies w`mark, w.buf, w.table, w.table.offset
    ensures w.Valid()
    ensures head'.None? ==> data + |Dotted(wire.labels)| + 11 > w.buf.Length
    ensures head'.Some? ==> w.Ready(at', all) && data <= head'.value <= at' && Headed(w.buf[..], w.mark, data, wire, head'.value)
                            && w.buf[head'.value..at'] == TxtBytes(done) && head'.value <= data + |Dotted(wire.labels)| + 11
                            && w.Appended(data) && Keeps(old(w.buf[..]), old(w.mark), w.buf[..], w.mark)
  {
    hide TableOk, Compatible, Spells, NameEnd, FieldsAt, Update, Headed, NameLabels, TxtBytes, Txts, Dotted;
    head', at' := head, at;
    if head.None? {
      UpdateValid(record, rclass, ttl, all);
      UpdateKind(record, rclass, ttl);
      var u := Update(record, rclass, ttl);
      head' := AddHeader(w, data, u.name, TYPE_TXT, u.rclass, u.ttl, wire, all);
      if head'.Some? { at' := head'.value; }
    }
  }

  /** A string appended to the TXT record, seen on the contents of the buffer. */
  lemma TxtAppended(b: seq<byte>, m: seq<bool>, b': seq<byte>, m': seq<bool>, data: nat, wire: Wire, h: nat, at: nat, at': nat)
    requires |b| == |m| == |b'| == |m'| && data <= h <= at <= at' <= |b|
    requires Headed(b, m, data, wire, h) && Keeps(b, m, b', m') && b'[..at] == b[..at] && m'[..at] == m[..at]
    ensures Headed(b', m', data, wire, h) && b'[h..at'] == b[h..at] + b'[at..at']
    ensures b'[..data] == b[..data] && m'[..data] == m[..data]
  {
    hide Keeps, Headed;
    assert b'[..h] == b'[..at][..h] == b[..at][..h] == b[..h];
    assert m'[..h] == m'[..at][..h] == m[..at][..h] == m[..h];
    HeadedKept(b, m, b', m', data, wire, h);
    assert b'[h..at] == b'[..at][h..] == b[..at][h..] == b[h..at];
    assert b'[h..at'] == b'[h..at] + b'[at..at'];
    assert b'[..data] == b'[..h][..data] == b[..h][..data] == b[..data];
    assert m'[..data] == m'[..h][..data] == m[..h][..data] == m[..data];
  }

  /** What happens with one TXT record: the first also writes the head. */
  method GrowTxt(w: Writer, data: nat, ghost wire: Wire, head: Option<nat>, at: nat, record: Record, ghost done: seq<Record>,
                 rclass: nat, ttl: nat, ghost all: set<seq<Label>>) returns (ok: bool, head': Option<nat>, at': nat)
    requires Growing(w, data, wire, head, at, done, all) && Compatible(all) && data <= at
    requires record.data.Txt? && ValidRecord(record, all) && rclass < 0x10000 && ttl < 0x1_0000_0000
    requires head.None? ==> var u := Update(record, rclass, ttl);
                            wire.labels == LabelsOf(u.name) && wire.rtype == TYPE_TXT
                            && wire.rclass == u.rclass && wire.ttl == u.ttl
    modifies w`mark, w.buf, w.table, w.table.offset
    ensures w.Valid()
    ensures !ok ==> data + |Dotted(wire.labels)| + 11 + |TxtBytes(done + [record])| > w.buf.Length
    ensures ok ==> Growing(w, data, wire, head', at', done + [record], all) && data <= at'
    ensures ok ==> w.Appended(data) && Keeps(old(w.buf[..]), old(w.mark), w.buf[..], w.mark)
  {
    hide TableOk, Compatible, Update, Headed, Keeps, TxtBytes, Txts, TxtString, ValidRecord, Dotted;
    ghost var b0, m0 := w.buf[..], w.mark;
    TxtStep(done + [record], |done|);
    assert (done + [record])[..|done| + 1] == done + [record] && (done + [record])[..|done|] == done;
    head', at' := StartTxt(w, data, wire, head, at, record, done, rclass, ttl, all);
    if head'.None? { return false, head', at'; }
    ghost var b1, m1, at1 := w.buf[..], w.mark, at';
    ghost var h := head'.value;
    assert b1[h..at1] == TxtBytes(done);
    var next := AddTxtString(w, at', record.data, all);
    if next.None? { return false, head', at'; }
    at' := next.value;
    ghost var b2, m2 := w.buf[..], w.mark;
    assert b2[..at1] == w.buf[..at1] && b1[..at1] == b2[..at1] && b2[at1..at'] == w.buf[at1..at'];
    TxtAppended(b1, m1, b2, m2, data, wire, h, at1, at');
    assert w.buf[h..at'] == b2[h..at'];
    KeepsTrans(b0, m0, b1, m1, b2, m2);
    assert w.buf[..data] == b2[..data] == b1[..data] == b0[..data];
    ok := true;
  }

  /** Room for the TXT record of a section. */
  ghost function TxtRoom(records: seq<Record>): nat {
    if Txts(records) == [] then 0 else NameRoom(Txts(records)[0].name) + 10 + |TxtBytes(records)|
  }

  lemma {:induction false} TxtBytesGrow(records: seq<Record>, i: nat)
    requires i <= |records|
    ensures |TxtBytes(records[..i])| <= |TxtBytes(records)|
    decreases |records| - i
  {
    hide TxtBytes, TxtString;
    if i < |records| {
      TxtStep(records, i);
      TxtBytesGrow(records, i + 1);
    } else {
      assert records[..i] == records;
    }
  }

  /** The coalesced record has the name of the first TXT record. */
  lemma CoalescedRoom(records: seq<Record>, rclass: nat, ttl: nat)
    requires Txts(records) != []
    ensures |Dotted(Coalesced(records, rclass, ttl).labels)| + 11 + |TxtBytes(records)| == TxtRoom(records)
  {
    hide TxtBytes, Dotted, LabelsOf;
  }

  lemma KeepsSame(b: seq<byte>, m: seq<bool>)
    requires |b| == |m|
    ensures Keeps(b, m, b, m)
  {
  }

  lemma OneTxt(records: seq<Record>, i: nat)
    requires i < |records| && records[i].data.Txt?
    ensures Txts(records) != []
  {
    hide Txts;
    TxtStep(records, i);
    TxtPrefix(records, i + 1);
  }

  /** The first TXT record gives the coalesced one its name, class and time to live. */
  lemma CoalescedFirst(records: seq<Record>, i: nat, rclass: nat, ttl: nat)
    requires i < |records| && records[i].data.Txt? && Txts(records[..i]) == []
    ensures Txts(records) != []
    ensures var wire, u := Coalesced(records, rclass, ttl), Update(records[i], rclass, ttl);
            wire.labels == LabelsOf(u.name) && wire.rtype == TYPE_TXT && wire.rclass == u.rclass && wire.ttl == u.ttl
  {
    hide Txts, TxtBytes, LabelsOf, Update;
    TxtStep(records, i);
    TxtPrefix(records, i + 1);
    assert Txts(records[..i + 1])[0] == records[i];
  }

  /** Goes on to record i of a section, which belongs to the TXT record or does not. */
  method NextString(w: Writer, data: nat, ghost wire: Wire, head: Option<nat>, at: nat, records: seq<Record>, i: nat,
                    rclass: nat, ttl: nat, ghost all: set<seq<Label>>) returns (ok: bool, head': Option<nat>, at': nat)
    requires i < |records| && Growing(w, data, wire, head, at, records[..i], all) && data <= at
    requires Compatible(all) && ValidRecords(records, all) && rclass < 0x10000 && ttl < 0x1_0000_0000
    requires Txts(records) != [] ==> wire == Coalesced(records, rclass, ttl)
    modifies w`mark, w.buf, w.table, w.table.offset
    ensures w.Valid() && (!ok ==> data + TxtRoom(records) > w.buf.Length)
    ensures ok ==> data <= at' && Growing(w, data, wire, head', at', records[..i + 1], all)
                   && w.Appended(data) && Keeps(old(w.buf[..]), old(w.mark), w.buf[..], w.mark)
  {
    hide TableOk, Compatible, Spells, NameEnd, Update, Headed, RecordAt, ValidRecord, LabelsOf, Dotted, TxtRoom, Keeps, TxtString,
         Txts, TxtBytes, Coalesced;
    ok, head', at' := true, head, at;
    TxtStep(records, i);
    assert records[..i + 1] == records[..i] + [records[i]];
    if records[i].data.Txt? {
      OneTxt(records, i);
      if head.None? { CoalescedFirst(records, i, rclass, ttl); }
      ok, head', at' := GrowTxt(w, data, wire, head, at, records[i], records[..i], rclass, ttl, all);
      if !ok {
        TxtBytesGrow(records, i + 1);
        CoalescedRoom(records, rclass, ttl);
      }
    } else {
      KeepsSame(w.buf[..], w.mark);
    }
  }

  /** Writes the strings of all TXT records of a section, with the head of their record. */
  method AddStrings(w: Writer, data: nat, ghost wire: Wire, records: seq<Record>, rclass: nat, ttl: nat, ghost all: set<seq<Label>>)
    returns (ok: bool, head: Option<nat>, at: nat)
    requires w.Ready(data, all) && Compatible(all) && ValidRecords(records, all)
    requires rclass < 0x10000 && ttl < 0x1_0000_0000
    requires Txts(records) != [] ==> wire == Coalesced(records, rclass, ttl)
    modifies w`mark, w.buf, w.table, w.table.offset
    ensures w.Valid() && (!ok ==> data + TxtRoom(records) > w.buf.Length)
    ensures ok ==> data <= at && Growing(w, data, wire, head, at, records, all)
                   && w.Appended(data) && Keeps(old(w.buf[..]), old(w.mark), w.buf[..], w.mark)
  {
    hide TableOk, Compatible, ValidRecords, Headed, Dotted, TxtRoom, Keeps, Coalesced;
    KeepsSame(w.buf[..], w.mark);
    NoStrings(records[..0]);
    var i := 0;
    head, at := None, data;
    ghost var b0, m0 := w.buf[..], w.mark;
    while i < |records|
      invariant 0 <= i <= |records| && data <= at
      invariant Growing(w, data, wire, head, at, records[..i], all)
      invariant w.buf[..data] == b0[..data] && w.mark[..data] == m0[..data] && Keeps(b0, m0, w.buf[..], w.mark)
    {
      ghost var b1, m1 := w.buf[..], w.mark;
      ok, head, at := NextString(w, data, wire, head, at, records, i, rclass, ttl, all);
      if !ok { return; }
      KeepsTrans(b0, m0, b1, m1, w.buf[..], w.mark);
      i := i + 1;
    }
    assert records[..i] == records;
    ok := true;
  }

  lemma NoStrings(none: seq<Record>)
    requires none == []
    ensures Txts(none) == [] && TxtBytes(none) == []
  {
  }

  /** Writes all TXT records of a section as one. */
  method AddTxt(w: Writer, data: nat, records: seq<Record>, rclass: nat, ttl: nat, ghost all: set<seq<Label>>)
    returns (r: Option<nat>)
    requires w.Ready(data, all) && Compatible(all) && ValidRecords(records, all)
    requires rclass < 0x10000 && ttl < 0x1_0000_0000
    modifies w`mark, w.buf, w.table, w.table.offset
    ensures w.Valid() && Within(r, data, TxtRoom(records), w.buf.Length)
    ensures r.Some? ==> data <= r.value && w.Ready(r.value, all) && w.Appended(data)
                        && Keeps(old(w.buf[..]), old(w.mark), w.buf[..], w.mark)
    ensures r.Some? && Txts(records) == [] ==> r.value == data
    ensures r.Some? && Txts(records) != [] ==>
              RecordAt(w.buf[..], w.mark, data, Coalesced(records, rclass, ttl), r.value)
  {
    hide TableOk, Compatible, Spells, NameEnd, Update, Headed, RecordAt, ValidRecord, LabelsOf, Dotted, TxtRoom, Keeps, TxtString, Txts, TxtBytes;
    ghost var wire := if Txts(records) == [] then Wire([], 0, 0, 0, WBytes([])) else Coalesced(records, rclass, ttl);
    ghost var b0, m0 := w.buf[..], w.mark;
    var ok, head, at := AddStrings(w, data, wire, records, rclass, ttl, all);
    if !ok { return None; }
    if head.Some? {
      CoalescedRoom(records, rclass, ttl);
      ghost var b1, m1 := w.buf[..], w.mark;
      assert DataAt(b1, m1, head.value, wire.data, at);
      FillLength(w, data, wire, head.value, at, all);
      KeepsTrans(b0, m0, b1, m1, w.buf[..], w.mark);
    }
    r := Some(at);
  }

  // ----- Whole messages

  /** A section: its records, then its TXT records as one. */
  method AddSection(w: Writer, data: nat, records: seq<Record>, rclass: nat, ttl: nat,
                    ghost start: nat, ghost ws: seq<Wire>, ghost all: set<seq<Label>>) returns (r: Option<nat>)
    requires Progress(w, start, ws, data, all) && start <= data && Compatible(all) && ValidRecords(records, all)
    requires rclass < 0x10000 && ttl < 0x1_0000_0000
    modifies w`mark, w.buf, w.table, w.table.offset
    ensures w.Valid() && Within(r, data, RecordsRoom(records) + TxtRoom(records), w.buf.Length)
    ensures r.Some? ==> data <= r.value && Progress(w, start, ws + Section(records, rclass, ttl), r.value, all)
    ensures r.Some? ==> w.Appended(data)
  {
    hide TableOk, Compatible, RecordAt, RecordsAt, ValidRecord, ValidRecords, Coalesced, Txts, Plain, RecordsRoom, TxtRoom;
    r := AddRecords(w, data, records, rclass, ttl, start, ws, all);
    if r.None? { return; }
    var at := r.value;
    ghost var b1, m1, done := w.buf[..], w.mark, ws + Plain(records, rclass, ttl);
    ghost var b0, m0 := old(w.buf[..]), old(w.mark);
    assert b1[..data] == b0[..data] && m1[..data] == m0[..data];
    r := AddTxt(w, at, records, rclass, ttl, all);
    if r.None? { return; }
    ghost var b2, m2 := w.buf[..], w.mark;
    assert b2[..at] == b1[..at] && b2[..data] == b2[..at][..data] == b1[..at][..data] == b1[..data];
    assert m2[..data] == m2[..at][..data] == m1[..at][..data] == m1[..data];
    RecordsKept(b1, m1, b2, m2, start, done, at);
    if Txts(records) == [] {
      assert ws + Section(records, rclass, ttl) == done;
    } else {
      RecordsSnoc(b2, m2, start, done, at, Coalesced(records, rclass, ttl), r.value);
      assert ws + Section(records, rclass, ttl) == done + [Coalesced(records, rclass, ttl)];
    }
  }

  /** How many of the records are not TXT records. */
  ghost function Others(records: seq<Record>): nat {
    if records == [] then 0
    else Others(records[..|records| - 1]) + if records[|records| - 1].data.Txt? then 0 else 1
  }

  lemma {:induction false} PlainSize(records: seq<Record>, rclass: nat, ttl: nat)
    ensures |Plain(records, rclass, ttl)| == Others(records)
  {
    hide WireOf, Update;
    if records != [] { PlainSize(records[..|records| - 1], rclass, ttl); }
  }

  /** How many records a section becomes, as a 16-bit number. */
  method RecordCount(records: seq<Record>, ghost rclass: nat, ghost ttl: nat) returns (n: nat)
    ensures n == |Section(records, rclass, ttl)| % 0x10000
  {
    hide Coalesced, Plain, Others, Txts;
    var total, txt := 0, 0;
    var i := 0;
    NoRecords(records[..0]);
    while i < |records|
      invariant 0 <= i <= |records| && total == Others(records[..i]) % 0x10000
      invariant txt == if Txts(records[..i]) == [] then 0 else 1
    {
      TxtStep(records, i);
      OthersStep(records, i);
      if records[i].data.Txt? { txt := 1; } else { total := (total + 1) % 0x10000; }
      i := i + 1;
    }
    assert records[..i] == records;
    PlainSize(records, rclass, ttl);
    n := (total + txt) % 0x10000;
  }

  lemma NoRecords(none: seq<Record>)
    requires none == []
    ensures Others(none) == 0 && Txts(none) == []
  {
  }

  lemma OthersStep(records: seq<Record>, i: nat)
    requires i < |records|
    ensures Others(records[..i + 1]) % 0x10000 ==
            if records[i].data.Txt? then Others(records[..i]) % 0x10000 else (Others(records[..i]) % 0x10000 + 1) % 0x10000
  {
    var t := records[..i + 1];
    assert t[..|t| - 1] == records[..i] && t[|t| - 1] == records[i];
  }

  function Header(answers: nat, authority: nat, additional: nat): (r: seq<byte>)
    ensures |r| == 12
  {
    Net16(0) + Net16(0x8400) + Net16(0) + Net16(answers) + Net16(authority) + Net16(additional)
  }

  /** What the answer becomes: a TXT answer is not written at all. */
  ghost function Answer(answer: Record, rclass: nat, ttl: nat): seq<Wire> {
    if answer.data.Txt? then [] else [WireOf(Update(answer, rclass, ttl))]
  }

  method AddAnswer(w: Writer, answer: Record, rclass: nat, ttl: nat, ghost all: set<seq<Label>>) returns (r: Option<nat>)
    requires w.Ready(12, all) && Compatible(all) && ValidRecord(answer, all) && rclass < 0x10000 && ttl < 0x1_0000_0000
    modifies w`mark, w.buf, w.table, w.table.offset
    ensures w.Valid() && Within(r, 12, RecordRoom(answer), w.buf.Length)
    ensures r.Some? ==> 12 <= r.value && Progress(w, 12, Answer(answer, rclass, ttl), r.value, all) && w.Appended(12)
  {
    hide TableOk, Compatible, RecordAt, ValidRecord, Update, WireOf, RecordRoom;
    UpdateValid(answer, rclass, ttl, all);
    UpdateKind(answer, rclass, ttl);
    UpdateRoom(answer, rclass, ttl);
    r := AddRecord(w, 12, Update(answer, rclass, ttl), all);
    if r.Some? && !answer.data.Txt? {
      RecordsSnoc(w.buf[..], w.mark, 12, [], 12, WireOf(Update(answer, rclass, ttl)), r.value);
      assert Answer(answer, rclass, ttl) == [] + Answer(answer, rclass, ttl);
    }
  }

  /** A finished message: header and three sections, one right after the other. */
  ghost predicate Message(b: seq<byte>, mark: seq<bool>, answers: seq<Wire>, authority: seq<Wire>, additional: seq<Wire>,
                          count1: nat, count2: nat)
    requires |mark| == |b|
  {
    && 12 <= |b| && b[..12] == Header(1, count1, count2)
    && count1 == |authority| % 0x10000 && count2 == |additional| % 0x10000
    && RecordsAt(b, mark, 12, answers + authority + additional, |b|)
  }

  /** Room for a whole message without any compression. */
  ghost function MessageRoom(answer: Record, authority: seq<Record>, additional: seq<Record>): nat {
    12 + RecordRoom(answer) + (RecordsRoom(authority) + TxtRoom(authority)) + (RecordsRoom(additional) + TxtRoom(additional))
  }

  /** Builds the response. It fails only if the buffer has less than 48 bytes or the message
      might not fit uncompressed. On success the message holds the answer, the authority records
      and the additional records, each with its defaults filled in. */
  method AnswerMulticast(buf: array<byte>, answer: Record, authority: seq<Record>, additional: seq<Record>,
                         rclass: nat, ttl: nat, ghost all: set<seq<Label>>) returns (size: Option<nat>, ghost mark: seq<bool>)
    requires buf.Length <= MAX_CAPACITY && Compatible(all) && rclass < 0x10000 && ttl < 0x1_0000_0000
    requires ValidRecord(answer, all) && ValidRecords(authority, all) && ValidRecords(additional, all)
    modifies buf
    ensures buf.Length < 48 ==> size.None?
    ensures size.None? ==> buf.Length < 48 || MessageRoom(answer, authority, additional) > buf.Length
    ensures size.Some? ==> size.value <= MessageRoom(answer, authority, additional)
    ensures size.Some? ==> size.value <= buf.Length && |mark| == size.value
    ensures size.Some? ==>
              Message(buf[..size.value], mark, Answer(answer, rclass, ttl), Section(authority, rclass, ttl),
                      Section(additional, rclass, ttl),
                      |Section(authority, rclass, ttl)| % 0x10000, |Section(additional, rclass, ttl)| % 0x10000)
  {
    hide TableOk, Compatible, RecordAt, RecordsAt, ValidRecord, ValidRecords, Section, Answer, Header, RecordRoom, RecordsRoom, TxtRoom;
    mark := [];
    if buf.Length < 12 + 32 + 4 { return None, mark; }
    var w := new Writer(buf);
    var count1 := RecordCount(authority, rclass, ttl);
    var count2 := RecordCount(additional, rclass, ttl);
    assert w.Ready(0, all) by { EmptyTable(w, all); }
    w.Put(0, Header(1, count1, count2), 0, all);
    ghost var head := Header(1, count1, count2);
    assert buf[..12] == buf[..][..12] == head;
    var r := AddAnswer(w, answer, rclass, ttl, all);
    if r.None? { return None, mark; }
    ghost var ws := Answer(answer, rclass, ttl);
    ghost var at1, b1 := r.value, buf[..];
    r := AddSection(w, r.value, authority, rclass, ttl, 12, ws, all);
    if r.None? { return None, mark; }
    ghost var ws2 := ws + Section(authority, rclass, ttl);
    StartKept(b1, buf[..], at1, head);
    ghost var at2, b2 := r.value, buf[..];
    r := AddSection(w, r.value, additional, rclass, ttl, 12, ws2, all);
    if r.None? { return None, mark; }
    StartKept(b2, buf[..], at2, head);
    size := r;
    mark := w.mark[..r.value];
    Closed(w.buf[..], w.mark, ws2 + Section(additional, rclass, ttl), r.value);
    assert buf[..r.value] == buf[..][..r.value] && buf[..r.value][..12] == buf[..12];
    assert ws2 + Section(additional, rclass, ttl)
        == Answer(answer, rclass, ttl) + Section(authority, rclass, ttl) + Section(additional, rclass, ttl);
  }

  /** Writing behind the header leaves the header. */
  lemma StartKept(b: seq<byte>, b': seq<byte>, at: nat, head: seq<byte>)
    requires 12 <= at <= |b| == |b'| && b'[..at] == b[..at] && b[..12] == head
    ensures b'[..12] == head
  {
    SamePart(b, b', at, 0, 12);
  }

  lemma EmptyTable(w: Writer, all: set<seq<Label>>)
    requires w.Ready(0, {}) && w.table.View() == NO_POSITIONS
    ensures w.Ready(0, all)
  {
  }

  /** Only the bytes up to the end of the message matter. */
  lemma Closed(b: seq<byte>, mark: seq<bool>, ws: seq<Wire>, end: nat)
    requires |mark| == |b| && 12 <= end <= |b| && RecordsAt(b, mark, 12, ws, end)
    requires forall i :: end <= i < |b| ==> !mark[i]
    ensures RecordsAt(b[..end], mark[..end], 12, ws, end)
  {
    assert Keeps(b, mark, b[..end], mark[..end]);
    assert b[..end][..end] == b[..end];
    RecordsKept(b, mark, b[..end], mark[..end], 12, ws, end);
  }
}
