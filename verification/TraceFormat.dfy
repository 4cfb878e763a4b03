/** The allocation trace: its file format, and what a parser finds in a file. */
module TraceFormat {
  import opened Bytes
  import opened Bits

  const MAX_FRAMES := 12
  const ALLOC: byte := 65
  const FREE: byte := 70

  datatype Record = Record(kind: byte, size: nat, ptr: nat, ts: nat, frames: seq<nat>) {
    /** What the tracer is given: addresses and times of 64 bits, a bounded backtrace. */
    ghost predicate Valid() {
      && kind in {ALLOC, FREE} && ptr < Pow2(64) && ts < Pow2(64) && |frames| <= MAX_FRAMES
      && forall i :: 0 <= i < |frames| ==> frames[i] < Pow2(64)
    }

    /** What remains of it in the file: sizes have 32 bits there. */
    function Kept(): Record {
      Record(kind, size % 0x1_0000_0000, ptr, ts, frames)
    }
  }

  // ----- Little-endian numbers

  function Le(n: nat, k: nat): (s: seq<byte>)
    ensures |s| == k
    decreases k, n
  {
    if k == 0 then [] else [n % 256] + Le(n / 256, k - 1)
  }

  function FromLe(s: seq<byte>): nat {
    if s == [] then 0 else s[0] as nat + 256 * FromLe(s[1..])
  }

  lemma {:induction false} FromLeOfLe(n: nat, k: nat)
    requires n < Pow2(8 * k)
    ensures FromLe(Le(n, k)) == n
    decreases k
  {
    if k > 0 {
      Pow2Add(8, 8 * (k - 1));
      Pow2Values();
      FromLeOfLe(n / 256, k - 1);
      assert Le(n, k)[1..] == Le(n / 256, k - 1);
    }
  }

  lemma FromLe32(n: nat)
    ensures FromLe(Le(n % 0x1_0000_0000, 4)) == n % 0x1_0000_0000
  {
    Pow2Values();
    Pow2Add(16, 16);
    FromLeOfLe(n % 0x1_0000_0000, 4);
  }

  // ----- The file

  ghost function FramesBytes(frames: seq<nat>): (s: seq<byte>)
    ensures |s| == 8 * |frames|
  {
    if frames == [] then [] else Le(frames[0], 8) + FramesBytes(frames[1..])
  }

  ghost function Encode(r: Record): (s: seq<byte>)
    requires |r.frames| <= MAX_FRAMES
    ensures |s| == 22 + 8 * |r.frames| <= 118
  {
    [r.kind, |r.frames|] + Le(r.size % 0x1_0000_0000, 4) + Le(r.ptr, 8) + Le(r.ts, 8) + FramesBytes(r.frames)
  }

  ghost predicate AllValid(records: seq<Record>) {
    forall i :: 0 <= i < |records| ==> records[i].Valid()
  }

  ghost function EncodeAll(records: seq<Record>): seq<byte>
    requires AllValid(records)
  {
    if records == [] then [] else Encode(records[0]) + EncodeAll(records[1..])
  }

  /** "KDMT", the version, three bytes of padding, and the address the loader is found by. */
  function Header(anchor: nat): (s: seq<byte>)
    ensures |s| == 16
  {
    [75, 68, 77, 84, 2, 0, 0, 0] + Le(anchor, 8)
  }

  // ----- What a file means

  function Fixed(version: nat): nat {
    if version == 2 then 22 else 14
  }

  function FramesIn(s: seq<byte>, n: nat): (frames: seq<nat>)
    requires |s| == 8 * n
    ensures |frames| == n
    decreases n, s
  {
    if n == 0 then [] else [FromLe(s[..8])] + FramesIn(s[8..], n - 1)
  }

  /** Bytes of the first record, if there is a whole one of a known kind. */
  function Whole(s: seq<byte>, version: nat): Option<nat> {
    if |s| < Fixed(version) || s[0] !in {ALLOC, FREE} || |s| < Fixed(version) + 8 * s[1] as nat then None
    else Some(Fixed(version) + 8 * s[1] as nat)
  }

  function First(s: seq<byte>, version: nat): Record
    requires Whole(s, version).Some?
  {
    var at := Fixed(version);
    Record(s[0], FromLe(s[2..6]), FromLe(s[6..14]), if version == 2 then FromLe(s[14..22]) else 0,
           FramesIn(s[at..at + 8 * s[1] as nat], s[1]))
  }

  /** The records of a file after its header, up to the first that is not whole or not known. */
  ghost function Records(s: seq<byte>, version: nat): seq<Record>
    decreases |s|
  {
    match Whole(s, version)
    case None => []
    case Some(n) => [First(s, version)] + Records(s[n..], version)
  }

  datatype Parsed = NotATrace | Unsupported(found: nat) | Parsed(records: seq<Record>, anchor: nat, version: nat)

  ghost function Parse(file: seq<byte>): Parsed {
    if |file| < 8 || file[..4] != [75, 68, 77, 84] then NotATrace
    else if file[4] !in {1, 2} then Unsupported(file[4])
    else if |file| < 16 then Parsed([], 0, file[4])
    else Parsed(Records(file[16..], file[4]), FromLe(file[8..16]), file[4])
  }

  // ----- Reading back what was written

  lemma {:induction false} FramesReadBack(frames: seq<nat>)
    requires forall i :: 0 <= i < |frames| ==> frames[i] < Pow2(64)
    ensures FramesIn(FramesBytes(frames), |frames|) == frames
  {
    hide Le, FromLe;
    if frames != [] {
      FromLeOfLe(frames[0], 8);
      FramesReadBack(frames[1..]);
      var s := FramesBytes(frames);
      assert s[..8] == Le(frames[0], 8) && s[8..] == FramesBytes(frames[1..]);
    }
  }

  lemma EncodedParts(r: Record, rest: seq<byte>)
    requires r.Valid()
    ensures var s := Encode(r) + rest;
            && s[0] == r.kind && s[1] == |r.frames|
            && s[2..6] == Le(r.size % 0x1_0000_0000, 4) && s[6..14] == Le(r.ptr, 8) && s[14..22] == Le(r.ts, 8)
            && s[22..22 + 8 * |r.frames|] == FramesBytes(r.frames) && s[22 + 8 * |r.frames|..] == rest
  {
    hide Le, FramesBytes;
  }

  /** The first record of a file is read back, with its size in 32 bits. */
  lemma FirstReadBack(r: Record, rest: seq<byte>)
    requires r.Valid()
    ensures Whole(Encode(r) + rest, 2) == Some(|Encode(r)|) && First(Encode(r) + rest, 2) == r.Kept()
    ensures (Encode(r) + rest)[|Encode(r)|..] == rest
  {
    hide Le, FromLe, FramesBytes, FramesIn, Encode, Pow2;
    EncodedParts(r, rest);
    FromLe32(r.size);
    FromLeOfLe(r.ptr, 8);
    FromLeOfLe(r.ts, 8);
    FramesReadBack(r.frames);
  }

  ghost function AllKept(records: seq<Record>): (r: seq<Record>)
    ensures |r| == |records|
  {
    seq(|records|, i requires 0 <= i < |records| => records[i].Kept())
  }

  /** Part of a record at the end of a file is not taken for one. */
  lemma PartIsNothing(r: Record, k: nat)
    requires r.Valid() && k < |Encode(r)|
    ensures Records(Encode(r)[..k], 2) == []
  {
    hide Le, FramesBytes, First;
    if k >= 22 {
      EncodedParts(r, []);
      assert Encode(r) + [] == Encode(r);
      assert Encode(r)[..k][1] == |r.frames|;
    }
  }

  lemma NoRecords()
    ensures Records([], 2) == []
  {
  }

  /** Cut off anywhere, a file yields exactly the records that are whole in it. */
  lemma {:induction false} RecordsOfPrefix(records: seq<Record>, k: nat) returns (m: nat)
    requires AllValid(records) && k <= |EncodeAll(records)|
    ensures m <= |records| && |EncodeAll(records[..m])| <= k
    ensures m < |records| ==> |EncodeAll(records[..m + 1])| > k
    ensures k == |EncodeAll(records)| ==> m == |records|
    ensures Records(EncodeAll(records)[..k], 2) == AllKept(records[..m])
  {
    hide Encode, First, Whole, Records, AllKept, Record.Valid, Record.Kept;
    if records == [] {
      NoRecords();
      assert records[..0] == [] && EncodeAll(records)[..k] == [];
      return 0;
    }
    var first, rest := records[0], EncodeAll(records[1..]);
    if k < |Encode(first)| {
      PartIsNothing(first, k);
      assert (Encode(first) + rest)[..k] == Encode(first)[..k];
      OneEncoded(first);
      assert records[..1] == [first] && records[..0] == [];
      return 0;
    }
    var n := |Encode(first)|;
    var t := RecordsOfPrefix(records[1..], k - n);
    m := t + 1;
    RecordsAfter(first, rest, k);
    PrefixEncoded(records, t);
    if m < |records| { PrefixEncoded(records, t + 1); }
    KeptPrefix(records, t);
  }

  lemma RecordsAfter(first: Record, rest: seq<byte>, k: nat)
    requires first.Valid() && |Encode(first)| <= k <= |Encode(first)| + |rest|
    ensures Records((Encode(first) + rest)[..k], 2) == [first.Kept()] + Records(rest[..k - |Encode(first)|], 2)
  {
    hide Encode, First, Whole;
    var tail := rest[..k - |Encode(first)|];
    assert (Encode(first) + rest)[..k] == Encode(first) + tail;
    FirstReadBack(first, tail);
  }

  lemma KeptPrefix(records: seq<Record>, t: nat)
    requires t + 1 <= |records|
    ensures AllKept(records[..t + 1]) == [records[0].Kept()] + AllKept(records[1..][..t])
  {
  }

  lemma OneEncoded(r: Record)
    requires r.Valid()
    ensures EncodeAll([r]) == Encode(r)
  {
    hide Encode;
    assert [r][1..] == [];
    assert EncodeAll([r]) == Encode(r) + EncodeAll([]);
  }

  lemma PrefixEncoded(records: seq<Record>, t: nat)
    requires AllValid(records) && t + 1 <= |records|
    ensures EncodeAll(records[..t + 1]) == Encode(records[0]) + EncodeAll(records[1..][..t])
  {
    hide Encode;
    assert records[..t + 1][1..] == records[1..][..t];
  }

  lemma HeaderParts(anchor: nat)
    ensures var h := Header(anchor); h[8..16] == Le(anchor, 8) && h[..4] == [75, 68, 77, 84] && h[4] == 2
  {
    hide Le;
  }

  lemma Cut(header: seq<byte>, body: seq<byte>, k: nat)
    requires |header| == 16 <= k <= 16 + |body|
    ensures var file := (header + body)[..k];
            file[8..16] == header[8..16] && file[16..] == body[..k - 16] && file[..4] == header[..4] && file[4] == header[4]
  {
  }

  lemma ParsePrefix(anchor: nat, body: seq<byte>, k: nat)
    requires anchor < Pow2(64) && 16 <= k <= 16 + |body|
    ensures Parse((Header(anchor) + body)[..k]) == Parsed(Records(body[..k - 16], 2), anchor, 2)
  {
    hide Le, FromLe, Records, Pow2, Header;
    var file := (Header(anchor) + body)[..k];
    FromLeOfLe(anchor, 8);
    HeaderParts(anchor);
    Cut(Header(anchor), body, k);
  }

  /** A trace that keeps its header parses to exactly the whole records in it, however it is cut off. */
  lemma TruncatedTrace(anchor: nat, records: seq<Record>, k: nat) returns (m: nat)
    requires anchor < Pow2(64) && AllValid(records) && 16 <= k <= 16 + |EncodeAll(records)|
    ensures m <= |records| && 16 + |EncodeAll(records[..m])| <= k
    ensures m < |records| ==> 16 + |EncodeAll(records[..m + 1])| > k
    ensures Parse((Header(anchor) + EncodeAll(records))[..k]) == Parsed(AllKept(records[..m]), anchor, 2)
  {
    hide EncodeAll, Header, Records, Parse, AllKept, AllValid;
    m := RecordsOfPrefix(records, k - 16);
    ParsePrefix(anchor, EncodeAll(records), k);
  }

  /** A whole trace parses to all its records, each with the low 32 bits of its size. */
  lemma TraceRoundTrip(anchor: nat, records: seq<Record>)
    requires anchor < Pow2(64) && AllValid(records)
    ensures Parse(Header(anchor) + EncodeAll(records)) == Parsed(AllKept(records), anchor, 2)
  {
    hide EncodeAll, Header, Records, Parse, AllKept;
    var body := EncodeAll(records);
    var m := RecordsOfPrefix(records, |body|);
    ParsePrefix(anchor, body, 16 + |body|);
    assert body[..|body|] == body && records[..m] == records;
    assert (Header(anchor) + body)[..16 + |body|] == Header(anchor) + body;
  }

  /** Nothing is lost exactly when every size fits in 32 bits. */
  lemma KeptIsSame(records: seq<Record>)
    ensures AllKept(records) == records <==> forall i :: 0 <= i < |records| ==> records[i].size < 0x1_0000_0000
  {
    if AllKept(records) == records {
      forall i | 0 <= i < |records| ensures records[i].size < 0x1_0000_0000 {
        assert AllKept(records)[i] == records[i];
      }
    }
  }

  /** An allocation of 4 GiB parses as one of no bytes. */
  lemma SizeLost()
    ensures var r := Record(ALLOC, 0x1_0000_0000, 16, 1, []);
            AllValid([r]) && Parse(Header(0) + EncodeAll([r])) == Parsed([r.(size := 0)], 0, 2)
  {
    hide EncodeAll, Header, Records, Parse;
    var r := Record(ALLOC, 0x1_0000_0000, 16, 1, []);
    Pow2Values();
    Pow2Mono(9, 64);
    TraceRoundTrip(0, [r]);
    assert AllKept([r]) == [r.(size := 0)];
  }

  lemma {:induction false} EncodeAllSnoc(records: seq<Record>, r: Record)
    requires AllValid(records) && r.Valid()
    ensures AllValid(records + [r]) && EncodeAll(records + [r]) == EncodeAll(records) + Encode(r)
  {
    hide Encode, Record.Valid;
    var all := records + [r];
    if records == [] {
      assert all == [r];
      OneEncoded(r);
    } else {
      EncodeAllSnoc(records[1..], r);
      assert all[1..] == records[1..] + [r];
    }
  }
}
