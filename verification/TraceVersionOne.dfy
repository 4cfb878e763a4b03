/** Traces of the first format version, whose records carry no time. */
module TraceVersionOne {
  import opened Bytes
  import opened Bits
  import opened TraceFormat

  /** What a record of 14 bytes and its frames can hold: 'A' or 'F', 32 bits of size, 64 of address. */
  ghost predicate Holds(r: Record) {
    && r.kind in {65, 70} && r.size < 0x1_0000_0000 && r.ptr < Pow2(64) && r.ts == 0 && |r.frames| < 256
    && forall i :: 0 <= i < |r.frames| ==> r.frames[i] < Pow2(64)
  }

  ghost function Untimed(r: Record): (s: seq<byte>)
    requires |r.frames| < 256
    ensures |s| == 14 + 8 * |r.frames|
  {
    [r.kind, |r.frames|] + Le(r.size, 4) + Le(r.ptr, 8) + FramesBytes(r.frames)
  }

  ghost function UntimedAll(records: seq<Record>): seq<byte>
    requires forall i :: 0 <= i < |records| ==> Holds(records[i])
  {
    if records == [] then []
    else
      assert Holds(records[0]);
      Untimed(records[0]) + UntimedAll(records[1..])
  }

  lemma UntimedParts(r: Record, rest: seq<byte>)
    requires Holds(r)
    ensures var s := Untimed(r) + rest;
            && s[0] == r.kind && s[1] == |r.frames| && s[2..6] == Le(r.size, 4) && s[6..14] == Le(r.ptr, 8)
            && s[14..14 + 8 * |r.frames|] == FramesBytes(r.frames) && s[14 + 8 * |r.frames|..] == rest
  {
    hide Le, FramesBytes;
  }

  lemma UntimedReadBack(r: Record, rest: seq<byte>)
    requires Holds(r)
    ensures Records(Untimed(r) + rest, 1) == [r] + Records(rest, 1)
  {
    hide Le, FromLe, FramesBytes, FramesIn, Untimed, Pow2;
    UntimedParts(r, rest);
    FromLe32(r.size);
    FromLeOfLe(r.ptr, 8);
    FramesReadBack(r.frames);
    assert First(Untimed(r) + rest, 1) == r;
    assert Whole(Untimed(r) + rest, 1) == Some(|Untimed(r)|);
  }

  lemma {:induction false} UntimedRecords(records: seq<Record>, rest: seq<byte>)
    requires forall i :: 0 <= i < |records| ==> Holds(records[i])
    ensures Records(UntimedAll(records) + rest, 1) == records + Records(rest, 1)
    decreases |records|
  {
    hide Untimed, Records;
    if records == [] {
      assert [] + rest == rest;
    } else {
      assert Holds(records[0]);
      UntimedReadBack(records[0], UntimedAll(records[1..]) + rest);
      UntimedRecords(records[1..], rest);
      assert UntimedAll(records) + rest == Untimed(records[0]) + (UntimedAll(records[1..]) + rest);
      assert records == [records[0]] + records[1..];
      assert [records[0]] + (records[1..] + Records(rest, 1)) == records + Records(rest, 1);
    }
  }

  /** A file of version 1 parses to all its records, at time zero, and then to what can be made of
      the bytes after them. */
  lemma UntimedRoundTrip(pad: seq<byte>, anchor: nat, records: seq<Record>, rest: seq<byte>)
    requires |pad| == 3 && anchor < Pow2(64) && forall i :: 0 <= i < |records| ==> Holds(records[i])
    ensures Parse([75, 68, 77, 84, 1] + pad + Le(anchor, 8) + UntimedAll(records) + rest)
         == Parsed(records + Records(rest, 1), anchor, 1)
  {
    hide Le, FromLe, Records, UntimedAll, Holds, Pow2;
    UntimedRecords(records, rest);
    FromLeOfLe(anchor, 8);
    HeaderAndBody(pad, Le(anchor, 8), UntimedAll(records), rest);
  }

  lemma HeaderAndBody(pad: seq<byte>, address: seq<byte>, body: seq<byte>, rest: seq<byte>)
    requires |pad| == 3 && |address| == 8
    ensures var file := [75, 68, 77, 84, 1] + pad + address + body + rest;
            16 <= |file| && file[..4] == [75, 68, 77, 84] && file[4] == 1 && file[8..16] == address && file[16..] == body + rest
  {
  }

  // ----- What is no trace

  /** A file is taken for a trace exactly if it has eight bytes, starts with KDMT and is of version 1 or 2. */
  lemma ParsedExactly(file: seq<byte>)
    ensures Parse(file).Parsed? <==>
            8 <= |file| && file[..4] == ['K' as byte, 'D' as byte, 'M' as byte, 'T' as byte] && 1 <= file[4] <= 2
  {
  }

  /** Whatever follows a record of a kind other than 'A' and 'F' is not read. */
  lemma UnknownKindEnds(s: seq<byte>, version: nat)
    requires s != [] && s[0] != 'A' as byte && s[0] != 'F' as byte
    ensures Records(s, version) == []
  {
  }
}
