/** Resource records: what they look like in a message (section 4.1.3 of RFC 1035),
    and reading them back. */
module DnsRecords {
  import opened Bytes
  import opened DnsNames
  import opened DnsSpelling

  const TYPE_A := 1
  const TYPE_PTR := 12
  const TYPE_TXT := 16
  const TYPE_AAAA := 28
  const TYPE_SRV := 33

  /** Record data as it reads once names are decoded. */
  datatype WireData =
    | WName(labels: seq<Label>)
    | WSrv(priority: nat, weight: nat, port: nat, target: seq<Label>)
    | WBytes(bytes: seq<byte>)

  datatype Wire = Wire(labels: seq<Label>, rtype: nat, rclass: nat, ttl: nat, data: WireData)

  /** The data of a record type: a name, a service location, or plain bytes. */
  ghost predicate Fitting(w: Wire) {
    && (w.rtype == TYPE_PTR <==> w.data.WName?) && (w.rtype == TYPE_SRV <==> w.data.WSrv?)
    && |w.labels| <= MAX_SUBSTRINGS
    && (w.data.WName? ==> 1 <= |w.data.labels| <= MAX_SUBSTRINGS)
    && (w.data.WSrv? ==> 1 <= |w.data.target| <= MAX_SUBSTRINGS)
  }

  ghost predicate DataAt(b: seq<byte>, mark: seq<bool>, at: nat, d: WireData, end: nat)
    requires |mark| == |b|
  {
    match d
    case WName(labels) => Spells(b, mark, at, labels) && NameEnd(b, at) == end
    case WSrv(priority, weight, port, target) =>
      at + 6 <= end <= |b| && Host16(b, at) == priority && Host16(b, at + 2) == weight && Host16(b, at + 4) == port
      && Spells(b, mark, at + 6, target) && NameEnd(b, at + 6) == end
    case WBytes(bytes) => at <= end <= |b| && b[at..end] == bytes
  }

  /** The ten bytes after the owner name: type, class, time to live, length of the data. */
  ghost predicate FieldsAt(b: seq<byte>, h: nat, w: Wire, length: nat) {
    h + 10 <= |b| && Host16(b, h) == w.rtype && Host16(b, h + 2) == w.rclass && Host32(b, h + 4) == w.ttl
    && Host16(b, h + 8) == length
  }

  ghost predicate RecordAt(b: seq<byte>, mark: seq<bool>, at: nat, w: Wire, end: nat)
    requires |mark| == |b|
  {
    var h := NameEnd(b, at);
    Spells(b, mark, at, w.labels) && h + 10 <= end <= |b| && FieldsAt(b, h, w, end - (h + 10))
    && DataAt(b, mark, h + 10, w.data, end)
  }

  /** Records one after the other, from at to end. */
  ghost predicate RecordsAt(b: seq<byte>, mark: seq<bool>, at: nat, ws: seq<Wire>, end: nat)
    requires |mark| == |b|
    decreases |ws|
  {
    if ws == [] then at == end
    else exists mid: nat :: RecordAt(b, mark, at, ws[0], mid) && RecordsAt(b, mark, mid, ws[1..], end)
  }

  // ----- Later writes leave records alone

  lemma FieldsKept(b: seq<byte>, b': seq<byte>, h: nat, w: Wire, length: nat, end: nat)
    requires FieldsAt(b, h, w, length) && h + 10 <= end <= |b| && end <= |b'| && b'[..end] == b[..end]
    ensures FieldsAt(b', h, w, length)
  {
    forall i | 0 <= i < end ensures b'[i] == b[i] {
      assert b'[..end][i] == b[..end][i];
    }
  }

  lemma DataKept(b: seq<byte>, mark: seq<bool>, b': seq<byte>, mark': seq<bool>, at: nat, d: WireData, end: nat)
    requires |mark| == |b| && |mark'| == |b'| && Keeps(b, mark, b', mark') && DataAt(b, mark, at, d, end)
    requires at <= end <= |b| && end <= |b'| && b'[at..end] == b[at..end]
    ensures DataAt(b', mark', at, d, end)
  {
    hide Spells, NameEnd, Keeps;
    match d
    case WName(labels) => SpellsKept(b, mark, b', mark', at, labels);
    case WSrv(_, _, _, target) =>
      SpellsKept(b, mark, b', mark', at + 6, target);
      forall i | at <= i < end ensures b'[i] == b[i] {
        assert b'[at..end][i - at] == b[at..end][i - at];
      }
    case WBytes(bytes) =>
  }

  lemma RecordKept(b: seq<byte>, mark: seq<bool>, b': seq<byte>, mark': seq<bool>, at: nat, w: Wire, end: nat)
    requires |mark| == |b| && |mark'| == |b'| && Keeps(b, mark, b', mark') && RecordAt(b, mark, at, w, end)
    requires end <= |b| && end <= |b'| && b'[..end] == b[..end]
    ensures RecordAt(b', mark', at, w, end)
  {
    hide Spells, NameEnd, Keeps, FieldsAt, DataAt;
    SpellsKept(b, mark, b', mark', at, w.labels);
    var h := NameEnd(b, at);
    FieldsKept(b, b', h, w, end - (h + 10), end);
    assert b'[h + 10..end] == b'[..end][h + 10..] == b[..end][h + 10..] == b[h + 10..end];
    DataKept(b, mark, b', mark', h + 10, w.data, end);
  }

  lemma {:induction false} RecordsInside(b: seq<byte>, mark: seq<bool>, at: nat, ws: seq<Wire>, end: nat)
    requires |mark| == |b| && RecordsAt(b, mark, at, ws, end) && end <= |b|
    ensures at <= end
    decreases |ws|
  {
    hide RecordAt;
    if ws != [] {
      var mid: nat :| RecordAt(b, mark, at, ws[0], mid) && RecordsAt(b, mark, mid, ws[1..], end);
      RecordInside(b, mark, at, ws[0], mid);
      RecordsInside(b, mark, mid, ws[1..], end);
    }
  }

  lemma RecordInside(b: seq<byte>, mark: seq<bool>, at: nat, w: Wire, end: nat)
    requires |mark| == |b| && RecordAt(b, mark, at, w, end)
    ensures at + 10 <= end <= |b|
  {
  }

  lemma {:induction false} RecordsKept(b: seq<byte>, mark: seq<bool>, b': seq<byte>, mark': seq<bool>, at: nat, ws: seq<Wire>, end: nat)
    requires |mark| == |b| && |mark'| == |b'| && Keeps(b, mark, b', mark') && RecordsAt(b, mark, at, ws, end)
    requires end <= |b| && end <= |b'| && b'[..end] == b[..end]
    ensures RecordsAt(b', mark', at, ws, end)
    decreases |ws|
  {
    hide RecordAt, Keeps;
    if ws != [] {
      var mid: nat :| RecordAt(b, mark, at, ws[0], mid) && RecordsAt(b, mark, mid, ws[1..], end);
      RecordsInside(b, mark, mid, ws[1..], end);
      assert b'[..mid] == b'[..end][..mid] == b[..end][..mid] == b[..mid];
      RecordKept(b, mark, b', mark', at, ws[0], mid);
      RecordsKept(b, mark, b', mark', mid, ws[1..], end);
    }
  }

  lemma {:induction false} RecordsSnoc(b: seq<byte>, mark: seq<bool>, at: nat, ws: seq<Wire>, mid: nat, w: Wire, end: nat)
    requires |mark| == |b| && RecordsAt(b, mark, at, ws, mid) && RecordAt(b, mark, mid, w, end)
    ensures RecordsAt(b, mark, at, ws + [w], end)
    decreases |ws|
  {
    hide RecordAt;
    var all := ws + [w];
    if ws == [] {
      assert all[1..] == [] && RecordsAt(b, mark, end, all[1..], end);
    } else {
      var m: nat :| RecordAt(b, mark, at, ws[0], m) && RecordsAt(b, mark, m, ws[1..], mid);
      RecordsSnoc(b, mark, m, ws[1..], mid, w, end);
      assert all[1..] == ws[1..] + [w];
    }
  }

  // ----- Reading records

  /** One record as the parser reports it: positions rather than copies. */
  datatype Parsed = Parsed(nameAt: nat, rtype: nat, rclass: nat, ttl: nat, dataAt: nat, length: nat)

  /** n records from `at` on, and where parsing stops. */
  function ParsedAt(b: seq<byte>, at: nat, n: nat): (seq<Parsed>, nat)
    decreases n
  {
    var skipped := Skipped(b, at, MAX_SUBSTRINGS + 1);
    var h := if skipped.Some? then skipped.value else at;
    if n == 0 then ([], at)
    else if h + 10 > |b| then ([], h)
    else
      var length := Host16(b, h + 8);
      var (rest, end) := ParsedAt(b, h + 10 + length, n - 1);
      var p := Parsed(at, Host16(b, h), Host16(b, h + 2), Host32(b, h + 4), h + 10, length);
      (if h + 10 + length <= |b| then [p] + rest else rest, end)
  }

  /** Parses n records, handing each one that fits to the caller. Parsing ends early with the first
      one the caller stops at, and then stands at the data of that record. */
  method RecordsParse(b: seq<byte>, offset: nat, n: nat, stop: Parsed -> bool) returns (parsed: seq<Parsed>, end: nat)
    ensures parsed <= ParsedAt(b, offset, n).0
    ensures forall i :: 0 <= i < |parsed| - 1 ==> !stop(parsed[i])
    ensures if parsed != [] && stop(parsed[|parsed| - 1]) then end == parsed[|parsed| - 1].dataAt
            else (parsed, end) == ParsedAt(b, offset, n)
  {
    hide Skipped;
    parsed, end := [], offset;
    var i := 0;
    assert [] + ParsedAt(b, offset, n).0 == ParsedAt(b, offset, n).0;
    while i < n
      invariant 0 <= i <= n
      invariant ParsedAt(b, offset, n) == (parsed + ParsedAt(b, end, n - i).0, ParsedAt(b, end, n - i).1)
      invariant forall j :: 0 <= j < |parsed| ==> !stop(parsed[j])
    {
      var at := end;
      var _, h := StringSkip(b, end);
      end := h;
      if end + 10 > |b| {
        assert parsed + [] == parsed;
        return;
      }
      var length := Host16(b, end + 8);
      var p := Parsed(at, Host16(b, end), Host16(b, end + 2), Host32(b, end + 4), end + 10, length);
      end := end + 10;
      ghost var rest := ParsedAt(b, end + length, n - i - 1).0;
      if length <= |b| - end {
        assert parsed + ([p] + rest) == parsed + [p] + rest;
        parsed := parsed + [p];
        if stop(p) { return; }
      }
      end := end + length;
      i := i + 1;
    }
    assert parsed + [] == parsed;
  }

  /** The name a PTR record holds; a record too short to hold one has none. */
  method ParsePtr(b: seq<byte>, offset: nat, length: nat, str: array<byte>) returns (n: nat)
    modifies str
    ensures n <= str.Length
    ensures str[..n] == if |b| >= offset + length && length >= 2 && NameAt(b, offset).Some?
                        then Prefix(Dotted(NameAt(b, offset).value.labels), str.Length) else []
  {
    n := 0;
    if |b| >= offset + length && length >= 2 {
      var end;
      n, end := StringExtract(b, offset, str);
    }
  }

  /** Priority, weight, port and name of an SRV record; zeros if it is too short. */
  method ParseSrv(b: seq<byte>, offset: nat, length: nat, str: array<byte>)
    returns (priority: nat, weight: nat, port: nat, n: nat)
    modifies str
    ensures n <= str.Length
    ensures if |b| >= offset + length && length >= 8 then
              (priority, weight, port) == (Host16(b, offset), Host16(b, offset + 2), Host16(b, offset + 4))
              && str[..n] == if NameAt(b, offset + 6).Some?
                             then Prefix(Dotted(NameAt(b, offset + 6).value.labels), str.Length) else []
            else (priority, weight, port, n) == (0, 0, 0, 0)
  {
    priority, weight, port, n := 0, 0, 0, 0;
    if |b| >= offset + length && length >= 8 {
      priority, weight, port := Host16(b, offset), Host16(b, offset + 2), Host16(b, offset + 4);
      var end;
      n, end := StringExtract(b, offset + 6, str);
    }
  }

  /** What the record parsers make of a parsed record. */
  ghost function Decoded(b: seq<byte>, p: Parsed): Option<Wire>
    requires p.dataAt + p.length <= |b|
  {
    var name := NameAt(b, p.nameAt);
    var data := DecodedData(b, p);
    if name.None? || data.None? then None
    else Some(Wire(name.value.labels, p.rtype, p.rclass, p.ttl, data.value))
  }

  ghost function DecodedData(b: seq<byte>, p: Parsed): Option<WireData>
    requires p.dataAt + p.length <= |b|
  {
    if p.rtype == TYPE_PTR then
      var name := NameAt(b, p.dataAt);
      if p.length >= 2 && name.Some? then Some(WName(name.value.labels)) else None
    else if p.rtype == TYPE_SRV then
      if p.length < 8 then None
      else
        var name := NameAt(b, p.dataAt + 6);
        if name.None? then None
        else Some(WSrv(Host16(b, p.dataAt), Host16(b, p.dataAt + 2), Host16(b, p.dataAt + 4), name.value.labels))
    else Some(WBytes(b[p.dataAt..p.dataAt + p.length]))
  }

  lemma NameIsRead(b: seq<byte>, mark: seq<bool>, at: nat, labels: seq<Label>)
    requires |mark| == |b| && Spells(b, mark, at, labels) && |labels| <= MAX_SUBSTRINGS
    ensures NameAt(b, at) == Some(Walked(labels, NameEnd(b, at)))
    ensures Skipped(b, at, MAX_SUBSTRINGS + 1) == Some(NameEnd(b, at))
  {
    hide Spells, NameEnd, Walk, Skipped;
    SpellsIsRead(b, mark, at, labels, MAX_SUBSTRINGS + 1);
    SkipAgrees(b, at, MAX_SUBSTRINGS + 1);
  }

  /** A name with labels takes at least two bytes. */
  lemma NameSize(b: seq<byte>, mark: seq<bool>, at: nat, labels: seq<Label>)
    requires |mark| == |b| && Spells(b, mark, at, labels) && labels != []
    ensures NameEnd(b, at) >= at + 2
  {
  }

  lemma DataIsDecoded(b: seq<byte>, mark: seq<bool>, p: Parsed, w: Wire)
    requires |mark| == |b| && Fitting(w) && p.rtype == w.rtype && p.dataAt + p.length <= |b|
    requires DataAt(b, mark, p.dataAt, w.data, p.dataAt + p.length)
    ensures DecodedData(b, p) == Some(w.data)
  {
    hide Spells, NameEnd, Walk;
    if w.data.WName? {
      NameIsRead(b, mark, p.dataAt, w.data.labels);
      NameSize(b, mark, p.dataAt, w.data.labels);
    } else if w.data.WSrv? {
      NameIsRead(b, mark, p.dataAt + 6, w.data.target);
      NameSize(b, mark, p.dataAt + 6, w.data.target);
    }
  }

  lemma RecordIsParsed(b: seq<byte>, mark: seq<bool>, at: nat, w: Wire, end: nat, n: nat) returns (p: Parsed)
    requires |mark| == |b| && Fitting(w) && RecordAt(b, mark, at, w, end) && n > 0
    ensures p.dataAt + p.length == end <= |b| && Decoded(b, p) == Some(w)
    ensures ParsedAt(b, at, n) == ([p] + ParsedAt(b, end, n - 1).0, ParsedAt(b, end, n - 1).1)
  {
    hide Spells, NameEnd, Walk, DataAt, DecodedData;
    NameIsRead(b, mark, at, w.labels);
    var h := NameEnd(b, at);
    p := Parsed(at, w.rtype, w.rclass, w.ttl, h + 10, end - (h + 10));
    DataIsDecoded(b, mark, p, w);
  }

  /** The parsed records decode to these. */
  ghost predicate AllDecoded(b: seq<byte>, ps: seq<Parsed>, ws: seq<Wire>) {
    |ps| == |ws| && forall i :: 0 <= i < |ps| ==> ps[i].dataAt + ps[i].length <= |b| && Decoded(b, ps[i]) == Some(ws[i])
  }

  /** Parsing reads back what is laid out: the same records, in order, ending at the same place. */
  lemma {:induction false} RecordsAreParsed(b: seq<byte>, mark: seq<bool>, at: nat, ws: seq<Wire>, end: nat)
    requires |mark| == |b| && RecordsAt(b, mark, at, ws, end)
    requires forall i :: 0 <= i < |ws| ==> Fitting(ws[i])
    ensures ParsedAt(b, at, |ws|).1 == end && AllDecoded(b, ParsedAt(b, at, |ws|).0, ws)
    decreases |ws|
  {
    hide RecordAt, Decoded, Fitting;
    if ws != [] {
      var mid: nat :| RecordAt(b, mark, at, ws[0], mid) && RecordsAt(b, mark, mid, ws[1..], end);
      var p := RecordIsParsed(b, mark, at, ws[0], mid, |ws|);
      RecordsAreParsed(b, mark, mid, ws[1..], end);
    }
  }
}
