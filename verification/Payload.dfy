/** Downloading a payload to a file through a chunk buffer (kdeconnect_client.cpp). */
module Payload {
  import opened Bytes

  const CHUNK_SIZE := 65536

  /** The files on the card. */
  class Storage {
    var files: map<string, seq<byte>>

    constructor ()
      ensures files == map[]
    {
      files := map[];
    }
  }

  /** What one attempt to read from the connection brings. */
  datatype Read = WantRead | Ended | Got(n: nat)

  /** One turn of the download loop: whether the session is seen to be gone, and the read. */
  datatype Turn = Turn(disconnected: bool, read: Read)

  /** How the outside world behaves during one download: whether the connection, the new file
      (of the announced size, its contents arbitrary) and its handle come about, what the peer
      sends, in which portions it arrives, which writes succeed, and whether the session is
      gone at the end. */
  datatype Link = Link(connected: bool, created: bool, hasHandle: bool, size: int, blank: seq<byte>, stream: seq<byte>,
                       turns: seq<Turn>, writes: seq<bool>, lost: bool) {
    /** A file that exists has a size. */
    ghost predicate Valid() {
      created ==> size == |blank|
    }
  }

  predicate WriteWorks(writes: seq<bool>, k: nat) {
    k < |writes| ==> writes[k]
  }

  function Min(a: nat, b: nat): nat {
    if a < b then a else b
  }

  /** Bytes a read brings, given those the peer still has, the free space and those still missing. */
  function Portion(n: nat, available: nat, free: nat, remaining: nat): nat {
    Min(Min(n, available), Min(free, remaining))
  }

  /** Bytes still missing when no more can be read. */
  ghost function Left(turns: seq<Turn>, available: nat, fill: nat, remaining: nat): (r: nat)
    requires fill < CHUNK_SIZE
    ensures r <= remaining
    decreases |turns|
  {
    if remaining == 0 || turns == [] || turns[0].disconnected then remaining
    else
      match turns[0].read
      case WantRead => Left(turns[1..], available, fill, remaining)
      case Ended => remaining
      case Got(n) =>
        var ret := Portion(n, available, CHUNK_SIZE - fill, remaining);
        if ret == 0 then remaining
        else Left(turns[1..], available - ret, if fill + ret == CHUNK_SIZE then 0 else fill + ret, remaining - ret)
  }

  /** Chunks a file takes. */
  function Chunks(size: nat): nat {
    (size + CHUNK_SIZE - 1) / CHUNK_SIZE
  }

  /** When a download succeeds. */
  ghost predicate Delivered(link: Link) {
    && link.connected && link.created && link.hasHandle && !link.lost && link.size >= 0
    && Left(link.turns, |link.stream|, 0, link.size) == 0
    && forall k: nat :: k < Chunks(link.size) ==> WriteWorks(link.writes, k)
  }

  /** A download is delivered however the stream is split into reads, if enough reads bring something. */
  lemma {:induction false} AnySplitArrives(turns: seq<Turn>, available: nat, fill: nat, remaining: nat)
    requires fill < CHUNK_SIZE && remaining <= available && Productive(turns) >= remaining
    requires forall i :: 0 <= i < |turns| ==> !turns[i].disconnected && turns[i].read != Ended && turns[i].read != Got(0)
    ensures Left(turns, available, fill, remaining) == 0
    decreases |turns|
  {
    if remaining > 0 {
      match turns[0].read
      case WantRead => AnySplitArrives(turns[1..], available, fill, remaining);
      case Got(n) =>
        var ret := Portion(n, available, CHUNK_SIZE - fill, remaining);
        AnySplitArrives(turns[1..], available - ret, if fill + ret == CHUNK_SIZE then 0 else fill + ret, remaining - ret);
    }
  }

  /** Once the session is gone, the connection has ended or a read fails, nothing more arrives. */
  lemma {:induction false} EndedForGood(turns: seq<Turn>, i: nat, available: nat, fill: nat, remaining: nat)
    requires fill < CHUNK_SIZE && i < |turns|
    requires turns[i].disconnected || turns[i].read == Ended || turns[i].read == Got(0)
    ensures Left(turns, available, fill, remaining) == Left(turns[..i], available, fill, remaining)
    decreases i
  {
    if i > 0 && remaining > 0 && !turns[0].disconnected {
      assert turns[..i][1..] == turns[1..][..i - 1];
      match turns[0].read
      case WantRead => EndedForGood(turns[1..], i - 1, available, fill, remaining);
      case Ended =>
      case Got(n) =>
        var ret := Portion(n, available, CHUNK_SIZE - fill, remaining);
        if ret > 0 {
          EndedForGood(turns[1..], i - 1, available - ret, if fill + ret == CHUNK_SIZE then 0 else fill + ret, remaining - ret);
        }
    }
  }

  /** Reads that bring something. */
  ghost function Productive(turns: seq<Turn>): nat {
    if turns == [] then 0 else (if turns[0].read.Got? then 1 else 0) + Productive(turns[1..])
  }

  class Download {
    const storage: Storage
    const path: string
    const size: nat
    const stream: seq<byte>
    const writes: seq<bool>
    const chunk: array<byte>
    var chunkFill: nat
    var offset: nat
    var remaining: nat
    var attempts: nat

    constructor (storage: Storage, path: string, size: nat, stream: seq<byte>, writes: seq<bool>)
      requires path in storage.files && |storage.files[path]| == size
      ensures Valid() && fresh(chunk)
      ensures this.storage == storage && this.path == path && this.size == size && this.stream == stream && this.writes == writes
      ensures chunkFill == 0 && offset == 0 && remaining == size && attempts == 0
    {
      this.storage, this.path, this.size, this.stream, this.writes := storage, path, size, stream, writes;
      chunk := new byte[CHUNK_SIZE];
      chunkFill, offset, remaining, attempts := 0, 0, size, 0;
    }

    /** Nothing is lost between the stream and the file: what is written, what is buffered and
        what is missing make up the announced size, and the first two are the stream so far. */
    ghost predicate Valid()
      reads this, chunk, storage
    {
      && chunk.Length == CHUNK_SIZE && chunkFill <= CHUNK_SIZE
      && offset + chunkFill + remaining == size && offset + chunkFill <= |stream|
      && path in storage.files && |storage.files[path]| == size
      && storage.files[path][..offset] == stream[..offset]
      && chunk[..chunkFill] == stream[offset..offset + chunkFill]
    }

    /** Writes the buffered bytes to the file. */
    method FlushChunk() returns (ok: bool)
      requires Valid()
      modifies this`chunkFill, this`offset, this`attempts, storage
      ensures Valid() && storage.files == old(storage.files)[path := storage.files[path]]
      ensures ok == (old(chunkFill) == 0 || WriteWorks(writes, old(attempts)))
      ensures attempts == old(attempts) + if old(chunkFill) == 0 then 0 else 1
      ensures if ok then chunkFill == 0 && offset == old(offset + chunkFill) else chunkFill == old(chunkFill) && offset == old(offset)
    {
      if chunkFill == 0 {
        assert storage.files == storage.files[path := storage.files[path]];
        return true;
      }
      ok := WriteWorks(writes, attempts);
      attempts := attempts + 1;
      if !ok {
        assert storage.files == storage.files[path := storage.files[path]];
        return;
      }
      ghost var was := storage.files[path];
      var now := storage.files[path][..offset] + chunk[..chunkFill] + storage.files[path][offset + chunkFill..];
      Written(was, now, chunk[..chunkFill], stream, offset);
      storage.files := storage.files[path := now];
      offset := offset + chunkFill;
      chunkFill := 0;
    }

    /** Reads ret bytes of the stream into the buffer. */
    method Receive(ret: nat)
      requires Valid() && ret <= CHUNK_SIZE - chunkFill && ret <= remaining && offset + chunkFill + ret <= |stream|
      modifies this`chunkFill, this`remaining, chunk
      ensures Valid() && chunkFill == old(chunkFill) + ret && remaining == old(remaining) - ret
    {
      var fill, start := chunkFill, offset + chunkFill;
      var i := 0;
      while i < ret
        invariant 0 <= i <= ret && chunk[..fill + i] == stream[offset..start + i]
        modifies chunk
      {
        chunk[fill + i] := stream[start + i];
        assert stream[offset..start + (i + 1)] == stream[offset..start + i] + [stream[start + i]];
        i := i + 1;
      }
      chunkFill, remaining := chunkFill + ret, remaining - ret;
    }

    /** While something is missing, whole chunks have been written, each with one write. */
    ghost predicate Steady()
      reads this
    {
      && (remaining > 0 ==> offset == CHUNK_SIZE * attempts && chunkFill < CHUNK_SIZE)
      && (remaining == 0 ==> chunkFill == 0 && attempts == Chunks(size))
      && forall k: nat :: k < attempts ==> WriteWorks(writes, k)
    }

    /** Takes ret bytes of the stream, and writes the chunk if it is full or the last one. */
    method Absorb(ret: nat) returns (ok: bool)
      requires Valid() && Steady() && 0 < ret <= CHUNK_SIZE - chunkFill && ret <= remaining && offset + chunkFill + ret <= |stream|
      modifies this`chunkFill, this`offset, this`remaining, this`attempts, chunk, storage
      ensures Valid() && storage.files == old(storage.files)[path := storage.files[path]]
      ensures !ok ==> exists k: nat :: k < Chunks(size) && !WriteWorks(writes, k)
      ensures ok ==>
        && Steady() && offset + chunkFill == old(offset + chunkFill) + ret && remaining == old(remaining) - ret
        && (remaining > 0 ==> chunkFill == if old(chunkFill) + ret == CHUNK_SIZE then 0 else old(chunkFill) + ret)
    {
      hide Chunks, WriteWorks;
      assert storage.files == storage.files[path := storage.files[path]];
      Receive(ret);
      if chunkFill != CHUNK_SIZE && remaining != 0 { return true; }
      FillsChunks(offset, chunkFill, remaining, size, attempts);
      ghost var n := attempts;
      ok := FlushChunk();
      assert !ok ==> n < Chunks(size) && !WriteWorks(writes, n);
    }

    /** The download loop. */
    method Run(turns: seq<Turn>) returns (writeError: bool)
      requires Valid() && chunkFill == 0 && offset == 0 && remaining == size && attempts == 0
      modifies this`chunkFill, this`offset, this`remaining, this`attempts, chunk, storage
      ensures Valid() && storage.files == old(storage.files)[path := storage.files[path]]
      ensures writeError ==> exists k: nat :: k < Chunks(size) && !WriteWorks(writes, k)
      ensures !writeError ==> Steady() && remaining == Left(turns, |stream|, 0, size)
    {
      hide Chunks, WriteWorks, Left;
      writeError := false;
      var i := 0;
      NoChunks();
      assert storage.files == storage.files[path := storage.files[path]];
      assert turns[0..] == turns;
      while i < |turns| && remaining > 0 && !turns[i].disconnected
        invariant 0 <= i <= |turns| && Valid() && Steady()
        invariant storage.files == old(storage.files)[path := storage.files[path]]
        invariant Left(turns[i..], |stream| - (offset + chunkFill), chunkFill, remaining) == Left(turns, |stream|, 0, size)
      {
        ghost var available: nat, fill := |stream| - (offset + chunkFill), chunkFill;
        LeftUnfold(turns[i..], available, chunkFill, remaining);
        var read := turns[i].read;
        i := i + 1;
        assert turns[i - 1..][1..] == turns[i..];
        if read == WantRead { continue; }
        if read == Ended { return; }
        var ret := Portion(read.n, |stream| - (offset + chunkFill), CHUNK_SIZE - chunkFill, remaining);
        if ret == 0 { return; }
        var ok := Absorb(ret);
        if !ok { return true; }
        if remaining == 0 {
          LeftStops(turns[i..], available - ret, 0, 0);
          LeftStops(turns[i..], available - ret, if fill + ret == CHUNK_SIZE then 0 else fill + ret, 0);
        }
      }
      LeftStops(turns[i..], |stream| - (offset + chunkFill), chunkFill, remaining);
    }
  }

  lemma Written(was: seq<byte>, now: seq<byte>, piece: seq<byte>, stream: seq<byte>, offset: nat)
    requires offset + |piece| <= |was| && offset + |piece| <= |stream| && was[..offset] == stream[..offset]
    requires piece == stream[offset..offset + |piece|] && now == was[..offset] + piece + was[offset + |piece|..]
    ensures |now| == |was| && now[..offset + |piece|] == stream[..offset + |piece|]
  {
  }

  lemma NoChunks()
    ensures Chunks(0) == 0
  {
  }

  lemma LeftUnfold(turns: seq<Turn>, available: nat, fill: nat, remaining: nat)
    requires fill < CHUNK_SIZE && turns != [] && remaining > 0 && !turns[0].disconnected
    ensures Left(turns, available, fill, remaining) ==
            match turns[0].read
            case WantRead => Left(turns[1..], available, fill, remaining)
            case Ended => remaining
            case Got(n) =>
              var ret := Portion(n, available, CHUNK_SIZE - fill, remaining);
              if ret == 0 then remaining
              else Left(turns[1..], available - ret, if fill + ret == CHUNK_SIZE then 0 else fill + ret, remaining - ret)
  {
  }

  lemma LeftStops(turns: seq<Turn>, available: nat, fill: nat, remaining: nat)
    requires fill < CHUNK_SIZE && (turns == [] || remaining == 0 || turns[0].disconnected)
    ensures Left(turns, available, fill, remaining) == remaining
  {
  }

  /** A buffer that is flushed is the next chunk of the file. */
  lemma FillsChunks(offset: nat, fill: nat, remaining: nat, size: nat, attempts: nat)
    requires offset == CHUNK_SIZE * attempts && 0 < fill <= CHUNK_SIZE && offset + fill + remaining == size
    ensures attempts < Chunks(size)
    ensures remaining == 0 ==> attempts + 1 == Chunks(size)
    ensures remaining > 0 && fill == CHUNK_SIZE ==> offset + fill == CHUNK_SIZE * (attempts + 1)
  {
  }

  /** The files after a download. */
  ghost function AfterDownload(files: map<string, seq<byte>>, path: string, link: Link): map<string, seq<byte>>
    requires link.Valid()
  {
    if !link.connected then files
    else if !link.created then files - {path}
    else if !link.hasHandle then files[path := link.blank]
    else if Delivered(link) then
      LeftBound(link.turns, |link.stream|, 0, link.size);
      files[path := link.stream[..link.size]]
    else files - {path}
  }

  /** No more arrives than was sent. */
  lemma {:induction false} LeftBound(turns: seq<Turn>, available: nat, fill: nat, remaining: nat)
    requires fill < CHUNK_SIZE
    ensures remaining - Left(turns, available, fill, remaining) <= available
    decreases |turns|
  {
    if remaining > 0 && turns != [] && !turns[0].disconnected {
      match turns[0].read
      case WantRead => LeftBound(turns[1..], available, fill, remaining);
      case Ended =>
      case Got(n) =>
        var ret := Portion(n, available, CHUNK_SIZE - fill, remaining);
        if ret > 0 {
          LeftBound(turns[1..], available - ret, if fill + ret == CHUNK_SIZE then 0 else fill + ret, remaining - ret);
        }
    }
  }

  /** A delivered file is what was received. */
  lemma DeliveredFile(files: map<string, seq<byte>>, path: string, link: Link)
    requires link.Valid() && Delivered(link)
    ensures link.size <= |link.stream| && AfterDownload(files, path, link) == files[path := link.stream[..link.size]]
  {
    LeftBound(link.turns, |link.stream|, 0, link.size);
  }

  /** The transfer into the file just opened: the file becomes what was received, or is deleted. */
  method Transfer(storage: Storage, path: string, link: Link) returns (ok: bool)
    requires link.Valid() && link.connected && link.created && link.hasHandle
    requires path in storage.files && storage.files[path] == link.blank
    modifies storage
    ensures ok <==> Delivered(link)
    ensures ok ==> link.size <= |link.stream| && storage.files == old(storage.files)[path := link.stream[..link.size]]
    ensures !ok ==> storage.files == old(storage.files) - {path}
  {
    hide Left, Chunks, WriteWorks;
    ghost var before := storage.files;
    var d := new Download(storage, path, link.size, link.stream, link.writes);
    var writeError := d.Run(link.turns);
    ghost var failed := writeError;
    if !writeError {
      var flushed := d.FlushChunk();
      if !flushed { writeError := true; }
    }
    assert storage.files == before[path := storage.files[path]];
    var remaining := d.remaining;
    if link.lost || remaining > 0 || writeError {
      storage.files := storage.files - {path};
      assert storage.files == before - {path};
      return false;
    }
    assert storage.files[path] == storage.files[path][..link.size] == link.stream[..link.size];
    ok := true;
  }

  /** Downloads a payload to a file. On success the file is exactly what was received; if
      anything fails after the file was opened, it is deleted. */
  method DownloadPayload(storage: Storage, path: string, link: Link) returns (ok: bool)
    requires link.Valid()
    modifies storage
    ensures ok <==> Delivered(link)
    ensures storage.files == AfterDownload(old(storage.files), path, link)
  {
    hide Left, Chunks, WriteWorks;
    if !link.connected { return false; }
    ghost var before := storage.files;
    storage.files := storage.files - {path};
    if !link.created { return false; }
    storage.files := storage.files[path := link.blank];
    assert storage.files == before[path := link.blank];
    if !link.hasHandle { return false; }
    ok := Transfer(storage, path, link);
    if ok {
      assert storage.files == before[path := link.stream[..link.size]];
    } else {
      assert storage.files == before - {path};
    }
  }
}
