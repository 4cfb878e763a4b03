/** Writing an allocation trace through a write-back buffer, and parsing it. */
module TraceWriter {
  import opened Bytes
  import opened Bits
  import opened TraceFormat

  const WBUF_SIZE := 32768

  /** memcpy of src to position at. */
  method Copy(dst: array<byte>, at: nat, src: seq<byte>)
    requires at + |src| <= dst.Length
    modifies dst
    ensures dst[..] == old(dst[..at]) + src + old(dst[at + |src|..])
  {
    ghost var before := dst[..];
    var i := 0;
    while i < |src|
      invariant 0 <= i <= |src| && dst[..] == before[..at] + src[..i] + before[at + i..]
    {
      dst[at + i] := src[i];
      assert src[..i + 1] == src[..i] + [src[i]];
      i := i + 1;
    }
    assert src[..i] == src;
  }

  /** Appends to the first p bytes of a record under construction. */
  method Append(buf: array<byte>, p: nat, s: seq<byte>) returns (q: nat)
    requires p + |s| <= buf.Length
    modifies buf
    ensures q == p + |s| && buf[..q] == old(buf[..p]) + s
  {
    Copy(buf, p, s);
    q := p + |s|;
  }

  lemma {:induction false} FramesBytesSnoc(frames: seq<nat>, i: nat)
    requires i < |frames|
    ensures FramesBytes(frames[..i + 1]) == FramesBytes(frames[..i]) + Le(frames[i], 8)
  {
    hide Le;
    var s, t := frames[..i + 1], frames[..i];
    if i > 0 {
      FramesBytesSnoc(frames[1..], i - 1);
      assert s[1..] == frames[1..][..i] && t[1..] == frames[1..][..i - 1];
    } else {
      assert s == [frames[0]] && s[1..] == [] && t == [];
      assert FramesBytes(s) == Le(frames[0], 8) + FramesBytes([]);
    }
  }

  /** Lays a record out in a buffer of the largest record's size. */
  method Layout(buf: array<byte>, r: Record) returns (len: nat)
    requires buf.Length == 118 && r.Valid()
    modifies buf
    ensures len == |Encode(r)| && buf[..len] == Encode(r)
  {
    hide Le, FramesBytes, Pow2;
    buf[0] := r.kind;
    buf[1] := |r.frames|;
    var p: nat := 2;
    p := Append(buf, p, Le(r.size % 0x1_0000_0000, 4));
    p := Append(buf, p, Le(r.ptr, 8));
    p := Append(buf, p, Le(r.ts, 8));
    ghost var fixed := buf[..p];
    assert fixed == [r.kind, |r.frames|] + Le(r.size % 0x1_0000_0000, 4) + Le(r.ptr, 8) + Le(r.ts, 8);
    var i := 0;
    assert r.frames[..0] == [] && FramesBytes([]) == [];
    while i < |r.frames|
      invariant 0 <= i <= |r.frames| && p == 22 + 8 * i
      invariant buf[..p] == fixed + FramesBytes(r.frames[..i])
    {
      FramesBytesSnoc(r.frames, i);
      p := Append(buf, p, Le(r.frames[i], 8));
      i := i + 1;
    }
    assert r.frames[..i] == r.frames;
    len := p;
  }

  class Tracer {
    /** Whether a trace file is open, what has been written to it, and what is still buffered. */
    var open: bool
    var file: seq<byte>
    const wbuf: array<byte>
    var wbufPos: nat

    constructor ()
      ensures Valid() && !open && wbufPos == 0 && Contents() == [] && fresh(wbuf)
    {
      open, file, wbufPos := false, [], 0;
      wbuf := new byte[WBUF_SIZE];
    }

    ghost predicate Valid()
      reads this
    {
      wbuf.Length == WBUF_SIZE && wbufPos <= WBUF_SIZE
    }

    /** The trace so far: the file and the pending bytes. */
    ghost function Contents(): seq<byte>
      requires Valid()
      reads this, wbuf
    {
      file + wbuf[..wbufPos]
    }

    /** Writes the pending bytes to the file, if there is one. */
    method FlushLocked()
      requires Valid()
      modifies this`file, this`wbufPos
      ensures Valid() && Contents() == old(Contents())
      ensures open ==> wbufPos == 0 && file == Contents()
    {
      if wbufPos == 0 || !open { return; }
      file := file + wbuf[..wbufPos];
      wbufPos := 0;
    }

    /** Starts a trace in an emptied file, or fails to; bytes already pending stay pending. */
    method Init(anchor: nat, canOpen: bool)
      requires Valid() && anchor < Pow2(64)
      modifies this`open, this`file
      ensures Valid() && open == canOpen
      ensures Contents() == if canOpen then Header(anchor) + wbuf[..wbufPos] else old(Contents())
    {
      hide Le, Pow2;
      open := canOpen;
      if canOpen {
        file := [75, 68, 77, 84, 2, 0, 0, 0];
        file := file + Le(anchor, 8);
      }
    }

    /** Ends the trace: everything recorded is in the file. */
    method CloseTrace()
      requires Valid()
      modifies this`open, this`file, this`wbufPos
      ensures Valid() && !open && Contents() == old(Contents())
      ensures old(open) ==> wbufPos == 0 && file == Contents()
    {
      if open {
        FlushLocked();
        open := false;
      }
    }

    /** Appends bytes to those pending, and writes these to the file first if there is no room. */
    method Pend(bytes: seq<byte>)
      requires Valid() && |bytes| <= WBUF_SIZE && (open || wbufPos == 0)
      modifies this`file, this`wbufPos, wbuf
      ensures Valid() && Contents() == old(Contents()) + bytes
      ensures old(wbufPos) == 0 ==> file == old(file)
    {
      if wbufPos + |bytes| > WBUF_SIZE { FlushLocked(); }
      ghost var was, pos := wbuf[..], wbufPos;
      Copy(wbuf, wbufPos, bytes);
      wbufPos := wbufPos + |bytes|;
      assert wbuf[..wbufPos] == was[..pos] + bytes;
    }

    /** Appends a record to the trace; without an open trace it is dropped. Whether a trace is open is
        looked at before the lock is taken: if another thread closes the trace in between, the record
        stays pending and is not in the file. */
    method WriteRecord(r: Record, closed: bool)
      requires Valid() && r.Valid()
      modifies this`open, this`file, this`wbufPos, wbuf
      ensures Valid() && open == (old(open) && !closed)
      ensures Contents() == old(Contents()) + if old(open) then Encode(r) else []
      ensures old(open) && closed ==> file == old(Contents())
    {
      hide Encode, Record.Valid;
      if !open { return; }
      var buf := new byte[118];
      var len := Layout(buf, r);
      if closed { CloseTrace(); }
      Pend(buf[..len]);
    }
  }

  /** Traces these events into an open trace. */
  method TraceAll(t: Tracer, records: seq<Record>)
    requires t.Valid() && t.open && AllValid(records)
    modifies t, t.wbuf
    ensures t.Valid() && t.open && t.Contents() == old(t.Contents()) + EncodeAll(records)
  {
    hide Encode, EncodeAll, Record.Valid, Pow2;
    ghost var before := t.Contents();
    var i := 0;
    TracedNone(before, records);
    while i < |records|
      invariant 0 <= i <= |records| && t.Valid() && t.open
      invariant AllValid(records[..i]) && t.Contents() == before + EncodeAll(records[..i])
    {
      t.WriteRecord(records[i], false);
      EncodeAllSnoc(records[..i], records[i]);
      assert records[..i + 1] == records[..i] + [records[i]];
      JoinMore(before, EncodeAll(records[..i]), Encode(records[i]));
      i := i + 1;
    }
    assert records[..i] == records;
  }

  lemma JoinMore(a: seq<byte>, b: seq<byte>, c: seq<byte>)
    ensures a + b + c == a + (b + c)
  {
  }

  /** Traces these events from start to end. */
  method Trace(anchor: nat, records: seq<Record>) returns (file: seq<byte>)
    requires anchor < Pow2(64) && AllValid(records)
    ensures Parse(file) == Parsed(AllKept(records), anchor, 2)
  {
    hide Encode, EncodeAll, Record.Valid, Parse, AllKept, Header, Pow2;
    var t := new Tracer();
    t.Init(anchor, true);
    assert t.Contents() == Header(anchor) + [] == Header(anchor);
    TraceAll(t, records);
    t.CloseTrace();
    file := t.file;
    TraceRoundTrip(anchor, records);
  }

  lemma TracedNone(header: seq<byte>, records: seq<Record>)
    ensures AllValid(records[..0]) && header == header + EncodeAll(records[..0])
  {
  }

  // ----- The parser

  /** Reads records one by one, as long as they are whole and known. */
  method ReadRecords(file: seq<byte>, version: nat) returns (records: seq<Record>)
    requires |file| >= 16
    ensures records == Records(file[16..], version)
  {
    hide Records, Whole, First;
    records := [];
    var at := 16;
    while at < |file|
      invariant 16 <= at <= |file|
      invariant Records(file[16..], version) == records + Records(file[at..], version)
      decreases |file| - at
    {
      var fixed := Fixed(version);
      var rest := |file| - at;
      if rest < fixed || file[at] !in {ALLOC, FREE} || rest < fixed + 8 * file[at + 1] as nat {
        NoRecordAt(file, at, version, records);
        return;
      }
      RecordAt(file, at, version, records);
      records := records + [First(file[at..], version)];
      at := at + fixed + 8 * file[at + 1] as nat;
    }
    NoRecordAt(file, at, version, records);
  }

  lemma NoRecordAt(file: seq<byte>, at: nat, version: nat, records: seq<Record>)
    requires at <= |file|
    requires |file| - at < Fixed(version) || file[at] !in {ALLOC, FREE} || |file| - at < Fixed(version) + 8 * file[at + 1] as nat
    ensures records + Records(file[at..], version) == records
  {
    hide Records, Whole;
    RecordsUnfold(file[at..], version);
    NotWhole(file[at..], version);
  }

  /** A record that is whole is the next one. */
  lemma RecordAt(file: seq<byte>, at: nat, version: nat, records: seq<Record>)
    requires at <= |file| && |file| - at >= Fixed(version) && file[at] in {ALLOC, FREE}
    requires |file| - at >= Fixed(version) + 8 * file[at + 1] as nat
    ensures var next := at + Fixed(version) + 8 * file[at + 1] as nat;
            && Whole(file[at..], version).Some?
            && records + Records(file[at..], version) == records + [First(file[at..], version)] + Records(file[next..], version)
  {
    hide Records, Whole, First;
    var s := file[at..];
    RecordsUnfold(s, version);
    IsWhole(s, version);
    var n := Fixed(version) + 8 * file[at + 1] as nat;
    assert s[n..] == file[at + n..];
  }

  /** Reads the header and the records after it. */
  method ParseTrace(file: seq<byte>) returns (parsed: Parsed)
    ensures parsed == Parse(file)
  {
    hide Records, FromLe;
    if |file| < 8 || file[..4] != [75, 68, 77, 84] { return NotATrace; }
    var version: nat := file[4];
    if version !in {1, 2} { return Unsupported(version); }
    if |file| < 16 { return Parsed([], 0, version); }
    var records := ReadRecords(file, version);
    parsed := Parsed(records, FromLe(file[8..16]), version);
  }

  lemma RecordsUnfold(s: seq<byte>, version: nat)
    ensures Records(s, version) ==
            match Whole(s, version) { case None => [] case Some(n) => [First(s, version)] + Records(s[n..], version) }
  {
  }

  lemma NotWhole(s: seq<byte>, version: nat)
    ensures |s| < Fixed(version) || s[0] !in {ALLOC, FREE} || |s| < Fixed(version) + 8 * s[1] as nat ==> Whole(s, version) == None
  {
  }

  lemma IsWhole(s: seq<byte>, version: nat)
    requires |s| >= Fixed(version) && s[0] in {ALLOC, FREE} && |s| >= Fixed(version) + 8 * s[1] as nat
    ensures Whole(s, version) == Some(Fixed(version) + 8 * s[1] as nat)
  {
  }
}
