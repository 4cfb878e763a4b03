/** Which downloads end up as album art, told by their bytes. */
module AlbumArtImages {
  import opened Bytes
  import opened Payload
  import opened AlbumArt

  // ----- What a download needs to succeed

  /** Something about the transfer went wrong: no connection, file or handle, a session that is gone
      when the loop starts or ends, a peer that sends too little, or a failed write of a chunk of 64 KiB. */
  ghost predicate Broken(link: Link) {
    || !link.connected || !link.created || !link.hasHandle || link.lost || link.size < 0
    || |link.stream| < link.size
    || (link.size > 0 && (link.turns == [] || link.turns[0].disconnected))
    || (exists k :: 0 <= k < |link.writes| && !link.writes[k] && 65536 * k < link.size)
  }

  /** A broken download fails, and leaves no file unless it was created without a handle. */
  lemma BrokenFails(files: map<string, seq<byte>>, path: string, link: Link)
    requires link.Valid() && Broken(link)
    ensures !Delivered(link)
    ensures if !link.connected then AfterDownload(files, path, link) == files
            else if link.created && !link.hasHandle then AfterDownload(files, path, link) == files[path := link.blank]
            else AfterDownload(files, path, link) == files - {path}
  {
    if link.size >= 0 && exists k :: 0 <= k < |link.writes| && !link.writes[k] && 65536 * k < link.size {
      var k: nat :| k < |link.writes| && !link.writes[k] && 65536 * k < link.size;
      assert k < Chunks(link.size) && !WriteWorks(link.writes, k);
    } else if link.size >= 0 {
      LeftBound(link.turns, |link.stream|, 0, link.size);
    }
  }

  /** Enough reads, each of which waits or brings something, and no failed write: the file is what
      was sent, up to the announced size. */
  lemma WholeTransferDelivers(files: map<string, seq<byte>>, path: string, link: Link)
    requires link.Valid() && link.connected && link.created && link.hasHandle && !link.lost && |link.stream| >= link.size
    requires forall i :: 0 <= i < |link.turns| ==>
               !link.turns[i].disconnected && link.turns[i].read != Ended && link.turns[i].read != Got(0)
    requires Productive(link.turns) >= link.size && forall k :: 0 <= k < |link.writes| ==> link.writes[k]
    ensures Delivered(link) && AfterDownload(files, path, link) == files[path := link.stream[..link.size]]
  {
    hide Left, Chunks, Productive;
    AnySplitArrives(link.turns, |link.stream|, 0, link.size);
    DeliveredFile(files, path, link);
  }

  // ----- Signatures

  /** JPEG, PNG, or RIFF with WEBP in it. */
  predicate Signed(content: seq<byte>) {
    || [0xFF, 0xD8, 0xFF] <= content
    || [0x89, 'P' as byte, 'N' as byte] <= content
    || (|content| >= 12 && ['R' as byte, 'I' as byte, 'F' as byte, 'F' as byte] <= content
        && content[8..12] == ['W' as byte, 'E' as byte, 'B' as byte, 'P' as byte])
  }

  lemma ImageIsSigned(content: seq<byte>)
    ensures IsImage(content) <==> Signed(content)
  {
    if |content| >= 3 { assert content[..3] == [content[0], content[1], content[2]]; }
    if |content| >= 12 {
      assert content[..4] == [content[0], content[1], content[2], content[3]];
      assert content[8..12] == [content[8], content[9], content[10], content[11]];
    }
  }

  /** A touched hash comes first, and its file stays. */
  lemma TouchKeepsOwn(list: seq<string>, files: map<string, seq<byte>>, h: string)
    requires Proper(list) && h != "" && ImgPath(h) in files
    ensures Touched(list, h) != [] && Touched(list, h)[0] == h
    ensures ImgPath(h) in TouchedFiles(list, files, h) && TouchedFiles(list, files, h)[ImgPath(h)] == files[ImgPath(h)]
  {
    hide ImgPath, Paths, Without, Distinct;
    var all := [h] + Without(list, h);
    ProperWithout(list, h);
    if |all| > LRU_MAX { DistinctParts(all, LRU_MAX); }
  }

  /** Announced art that arrives: with one of the three signatures it is on the card byte for byte and
      first in the list, and without one, or if it cannot be read back, it is gone and the list is as before. */
  lemma ArrivedArt(a: Art, hash: string, link: Link, readable: bool)
    requires Proper(a.list) && link.Valid() && Delivered(link) && hash != "" && ImgPath(hash) !in a.files
    ensures 0 <= link.size <= |link.stream|
    ensures var b := AfterShow(a, hash, true, link, readable);
            if readable && Signed(link.stream[..link.size]) then
              b.list != [] && b.list[0] == hash && ImgPath(hash) in b.files && b.files[ImgPath(hash)] == link.stream[..link.size]
            else ImgPath(hash) !in b.files && b.list == a.list
  {
    hide Delivered, ImgPath, Signed, IsImage, Touched, TouchedFiles, Proper;
    DeliveredFile(a.files, ImgPath(hash), link);
    DeliveredSize(link);
    ImageIsSigned(link.stream[..link.size]);
    Unsigned();
    TouchKeepsOwn(a.list, AfterDownload(a.files, ImgPath(hash), link), hash);
  }

  lemma DeliveredSize(link: Link)
    requires Delivered(link)
    ensures link.size >= 0
  {
  }

  lemma Unsigned()
    ensures !IsImage([])
  {
  }

  /** Ten hashes are kept: a new one joins nine or fewer, and takes the place of the oldest of ten. */
  lemma TenAreKept(list: seq<string>, h: string)
    requires Proper(list) && h != "" && h !in list
    ensures |list| <= 10
    ensures Touched(list, h) == [h] + if |list| < 10 then list else list[..9]
  {
    WithoutNone(list, h);
  }
}
