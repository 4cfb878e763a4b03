# Proofs about MiniKDEConnect

MiniKDEConnect is a KDE Connect client for the Nintendo Switch: a background module that finds peers over
multicast DNS, pairs with them over TLS and exchanges packets and files, and an overlay that shows what it does.
This directory models the parts of it in which the most can go wrong unnoticed and proves what they promise.
Code that changes state step by step is modelled by classes, arrays and loops; each method is proved against
a function that says what it computes, and the theorems are about those functions and about whole runs.

* **Inflate and PNG** (`overlay/libs/stb/stb_image.h`). `Deflate` is a decoder for RFC 1951 written on bit positions
  of the zero-extended input. The bit buffer (`BitReader`), the two-level Huffman tables (`HuffmanTable`,
  `HuffmanDecode`, `BitReverse`) and the block loops (`Inflate`) refine it for every input; `Canonical` holds the
  theory of canonical codes. `DeflateTheorems` shows that the decoder inverts every encoder on a block and that it always
  ends, `DeflateStream` that it inverts every encoder on whole streams of stored, fixed and dynamic blocks,
  `DeflateExact` that it accepts nothing else, and `DeflateTables` what the tables and the fixed codes of RFC 1951 mean.
  `PngFilter`, `PngRow`, `PngImage`, `PngExpand`, `PngDecode` and `Adam7` take the inflated bytes to finished pixels.
* **Multicast DNS** (`sysmodule/src/mdns/mdns.h`). `DnsNames` has the three readers of compressed names, `DnsNameWriter`
  and `DnsWriter` the writer with its ring of 16 label positions, `DnsMessage` the message builder, `DnsRecords` and
  `DnsTxt` the parsers. `DnsSpelling` says what it means that a message spells a name, and `DnsRoundTrip` joins both sides.
  `DnsNameRules` gives the rules for names and `DnsBuilt` what a built message says, both in plain numbers.
  `DnsCompression`, `DnsSearch`, `DnsNameList` and `DnsTwoNames` say exactly when the writer's search misleads; the methods
  of `DnsExamples` call the modelled writer and builder with names and records for which the result is wrong.
  A ghost marking of the bytes that belong to names shows that patching a length later changes no name.
* **Sessions and pairing** (`sysmodule/src/net/kdeconnect_client.cpp`). `Sessions` is one state machine for handshake
  threads, io threads, packets, local calls and shutting down; `SessionSafety`, `HandshakeSafety`, `PairingSafety`,
  `PairingHistory` and `PairingStorage` are about all its runs. `PairingClient` has the handlers as methods, each proved
  to be the step of the same name. `Payload` is the download loop.
* **Allocation traces** (`sysmodule/src/utils/mem_tracker.cpp`, `tools/parse_memtrace.py`): `TraceFormat`,
  `TraceVersionOne`, `TraceWriter` and `TraceAnalysis`. **Album art** (`sysmodule/src/utils/album_art.cpp`): `AlbumArt`,
  which uses `Payload`, and `AlbumArtImages`.

Some promises do not hold of the code as it is. For each of these the project has an input or a run for which it fails,
and a theorem that says exactly when it holds:

* What is written for a name need not read back as the name, for three reasons. The writer takes the first table entry
  that the rest of the name matches, and does not look whether the entry's name ends there too: written after a.b.c, the
  name a.b reads as a.b.c (`DnsExamples.PrefixMistaken`). The entry may belong to the name itself: a.a ends in a pointer to
  its own start and cannot be read (`DnsExamples.SelfPointer`). And the readers give up after 64 labels, which the writer
  does not count (`DnsExamples.TooManyLabels`). `DnsWriter.Writer.StringMake` has the exact condition for one name, on
  its labels and the entry that is found, for every name of writable labels and every table. `DnsNameList.WriteList` has it
  for lists of any length, told from the names alone: what each of them reads as is computed from those before it, unless
  one can find itself, which `DnsSearch.CircularExactly` characterises. `DnsTwoNames.TwoNames` says it for two names in
  one sentence. Names that do not clash are spelled as they are (`DnsNameList.NoClashOutcomes`), and names with a
  common last label and labels that do not repeat within a name, as those of service discovery, do not clash
  (`DnsMessage.SameEndCompatible`).
* A TXT record given as *answer* is counted but not written, whatever it holds: the builder makes a bare header from one
  (`DnsExamples.TxtAnswerLost`). `DnsRoundTrip.TxtAnswerMiscounted` covers all TXT answers and `DnsRoundTrip.RoundTrip` all
  others.
* TXT pairs survive exactly if they are `Sendable`, on their own (`DnsTxt.TxtRoundTrip`) and through a message
  (`DnsTxt.MessageTxtRoundTrip`); one with an empty key does not (`DnsExamples.EmptyKeyLost`).
* Stopping does not disconnect a session whose handshake ran out of memory before the session was in the map: nobody but
  its io thread knows it (`SessionSafety.OrphanOutlivesStop`). `SessionSafety.StoppedDisconnectsAll` shows that exactly
  those whose io thread has not ended are left; the io threads end by themselves once they see that the client has stopped.
* The paired flag of a session and the storage can disagree: after an unpairing during the handshake
  (`PairingStorage.UnpairDuringHandshake`), and for a session that has been replaced and still delivers packets to the
  plugins (`PairingStorage.ReplacedStaysPaired`). In every state of every run, for every session, they agree exactly if
  the step that settled the flag is not outdated by a later write of the storage (`PairingStorage.FlagIsStored`).
* A file that was created but could not be opened stays on the card although nothing was received
  (`AlbumArt.BlankFileIsListed`); `AlbumArt.ShowKeepsConsistent` and `AlbumArt.RunKeepsConsistent` give the exact condition.
* Sizes of 4 GiB and more lose their upper bits in a trace (`TraceFormat.SizeLost`, `TraceFormat.KeptIsSame`). A Switch has
  4 GB of memory, so the tracer never meets such a size.

Outside code appears as parameters that may take any value: bytes of the input, results of connecting, reading and
writing, times, and the order in which threads take steps.

## Model

| member | source | states |
|---|---|---|
| Canonical.FitsIffKraft | overlay/libs/stb/stb_image.h:3836-3846 | No code length runs out of codes exactly when the lengths satisfy Kraft's inequality |
| Canonical.PrefixFree | overlay/libs/stb/stb_image.h:3839-3850 | No 16-bit string starts with the codes of two symbols |
| Canonical.MaxCodeMono | overlay/libs/stb/stb_image.h:3847 | The limits per length never decrease |
| Canonical.SymbolInInterval | overlay/libs/stb/stb_image.h:3923-3931 | Every string between two neighbouring limits starts with the code of a symbol of that length |
| Canonical.NextSymbolUnique | overlay/libs/stb/stb_image.h:3935-3947 | A symbol whose code comes next in the stream is the only one |
| BitReverse.ReverseIsRev | overlay/libs/stb/stb_image.h:3808-3823 | The mask-and-shift reversal turns the low bits of a code round, for every width up to 16 |
| HuffmanTable.Build | overlay/libs/stb/stb_image.h:3825-3870 | Succeeds exactly for lengths that satisfy Kraft's inequality, and then all tables are those of the canonical code |
| HuffmanTable.FillFast | overlay/libs/stb/stb_image.h:3860-3865 | A short code is entered at exactly the indices that end with its reversal |
| HuffmanTable.SlotDistinct | overlay/libs/stb/stb_image.h:3855-3858 | No two coded symbols share a place in the sorted list |
| DeflateTheorems.ClaimsUnique | overlay/libs/stb/stb_image.h:3859-3865 | No two symbols claim the same fast-table entry |
| HuffmanDecode.FastHit | overlay/libs/stb/stb_image.h:3939-3944 | A fast entry names the symbol whose code comes next, with its length |
| HuffmanDecode.SlowHit | overlay/libs/stb/stb_image.h:3923-3932 | The first limit above the next 16 bits leads to the symbol whose code comes next |
| HuffmanDecode.NoCode | overlay/libs/stb/stb_image.h:3926 | Reaching the sentinel means that no code matches |
| BitReader.Reader.FillBits | overlay/libs/stb/stb_image.h:3892-3905 | Fetching bytes moves no bit of the stream and leaves 25 to 32 bits buffered |
| BitReader.Reader.Receive | overlay/libs/stb/stb_image.h:3907-3915 | Returns the next n bits of the zero-extended stream, least significant first |
| BitReader.Reader.AlignedHeader | overlay/libs/stb/stb_image.h:4077-4089 | At most three header bytes come from the buffer, and all four are the bytes after the next byte boundary |
| BitReader.Reader.DecodeSlow | overlay/libs/stb/stb_image.h:3917-3933 | Without a fast entry, finds the symbol whose canonical code comes next or reports that there is none |
| BitReader.Reader.Decode | overlay/libs/stb/stb_image.h:3935-3947 | Returns v and consumes the bits of its code exactly when the canonical code of v comes next, and -1 exactly when no code matches |
| Deflate.FixedCodesFit | overlay/libs/stb/stb_image.h:4115-4130 | The fixed codes use up the code space exactly, so building them cannot fail |
| Deflate.CopyRepeats | overlay/libs/stb/stb_image.h:4013-4019 | An overlapping copy repeats the last bytes periodically |
| DeflateTheorems.DecodeInvertsEncode | overlay/libs/stb/stb_image.h:3982-4022 | Whatever tokens an encoder chose, a block holding their codes decodes to their meaning |
| DeflateStream.CodesDecode | overlay/libs/stb/stb_image.h:4024-4071 | However an encoder cut the code lengths into runs and coded them, the description of a dynamic block decodes to the two codes that were described |
| DeflateStream.StreamInvertsEncode | overlay/libs/stb/stb_image.h:4144-4170 | A whole stream, however divided into stored, fixed and dynamic blocks, decodes to what was encoded, with or without zlib header |
| DeflateExact.DecodesExactly | overlay/libs/stb/stb_image.h:4144-4170 | A stream decodes to an output exactly if it holds, behind an acceptable header if there is one, blocks and codes that an encoder could have written for that output, and the output fits; nothing else is a success |
| DeflateExact.StoredEncoded | overlay/libs/stb/stb_image.h:4073-4100 | A stored block is accepted only with its length twice, once complemented, and all its bytes |
| DeflateExact.CodesEncoded | overlay/libs/stb/stb_image.h:4024-4071 | A description of codes is accepted only if it is one that an encoder could have written |
| DeflateStream.StoredStreamDecodes | overlay/libs/stb/stb_image.h:4073-4100 | Any bytes, up to 65535 of them, have a stream: a single stored block decodes to them |
| DeflateTables.LengthIntervals | overlay/libs/stb/stb_image.h:3968-3973 | The length symbols cut the lengths from 3 on into consecutive intervals of a power of two each, with one extra bit more every four symbols, and symbol 285 is length 258 |
| DeflateTables.LengthsCoded | overlay/libs/stb/stb_image.h:3968-3973 | Exactly the lengths from 3 to 258 have a symbol and extra bits, and each but 258 only one |
| DeflateTables.DistanceIntervals | overlay/libs/stb/stb_image.h:3975-3979 | The distance symbols cut the distances from 1 on into consecutive intervals, with one extra bit more every two symbols |
| DeflateTables.DistancesCoded | overlay/libs/stb/stb_image.h:3975-3979 | Exactly the distances from 1 to 32768 have a symbol and extra bits, and only one each |
| DeflateTables.FixedCodes | overlay/libs/stb/stb_image.h:4115-4138 | The fixed literal and length codes are the numbers that section 3.2.6 of RFC 1951 lists |
| DeflateTables.FixedDistances | overlay/libs/stb/stb_image.h:4115-4138 | The fixed distance code of a symbol is the symbol itself in five bits |
| DeflateTables.HeaderMeaning | overlay/libs/stb/stb_image.h:4102-4113 | The zlib headers accepted are those with method 8, any window and level, no dictionary and check bits that make both bytes a multiple of 31 |
| DeflateTables.UsualHeaders | overlay/libs/stb/stb_image.h:4102-4113 | The headers 78 01, 78 5E, 78 9C and 78 DA are accepted |
| DeflateTables.FourBytesDecode | overlay/libs/stb/stb_image.h:4144-4170 | The bytes 4B 04 02 00, a letter and a copy of three at distance one, decode to four letters |
| DeflateTheorems.EnoughFuel | overlay/libs/stb/stb_image.h:4144-4170 | A step budget that follows from the sizes of input and output buffer is never used up, so every run ends unless it meets a reserved symbol |
| DeflateTheorems.FuelIrrelevant | overlay/libs/stb/stb_image.h:4151-4169 | Two runs that end within their budgets end alike |
| Inflate.Doubled | overlay/libs/stb/stb_image.h:3955-3958 | Doubling finds room exactly when there can ever be room |
| Inflate.ZBuf.Expand | overlay/libs/stb/stb_image.h:3949-3966 | Growing keeps the output, and fails exactly when the bytes can never fit |
| Inflate.ZBuf.CopyBytes | overlay/libs/stb/stb_image.h:4013-4019 | Both copy loops append the copy that a length and a distance stand for, overlapping or not |
| Inflate.ZBuf.Match | overlay/libs/stb/stb_image.h:4001-4019 | A length and distance pair does what the reference says, with the same errors |
| Inflate.ZBuf.HuffmanBlock | overlay/libs/stb/stb_image.h:3982-4022 | A block of symbols ends as the reference decoder does: verdict, output and position |
| Inflate.ReadLengths | overlay/libs/stb/stb_image.h:4044-4067 | Run-length coded code lengths decode as in section 3.2.7 of RFC 1951, with the same rejections |
| Inflate.ZBuf.DynamicCodes | overlay/libs/stb/stb_image.h:4024-4071 | The tables are built for exactly the codes that the block describes, or the block is rejected |
| Inflate.ZBuf.StoredBlock | overlay/libs/stb/stb_image.h:4073-4100 | A stored block ends as the reference says, buffer drain included |
| Inflate.ZBuf.Header | overlay/libs/stb/stb_image.h:4102-4113 | Accepts exactly the zlib headers with a correct check value, method 8 and no dictionary |
| Inflate.ZBuf.ParseZlib | overlay/libs/stb/stb_image.h:4144-4170 | For every input, block structure and buffer, ends as the reference decoder does unless a reserved symbol is used |
| PngFilter.Paeth | overlay/libs/stb/stb_image.h:4320-4329 | The result is one of the three neighbours, and none is closer to the linear prediction |
| PngFilter.FirstRowIsZeroRow | overlay/libs/stb/stb_image.h:4311-4318 | The synthetic first-row filters are the ordinary ones below zeros |
| PngFilter.ReconUndoesFilter | overlay/libs/stb/stb_image.h:4379-4443 | Reconstruction undoes filtering for every filter, row and row above |
| PngFilter.FilterMeaning | overlay/libs/stb/stb_image.h:4379-4443 | What a filter predicts, told without computing it: nothing, left, above, half of left and above rounded down, or the neighbour nearest to left + above - upper left, with ties to left and then above |
| PngFilter.PredictsOnce | overlay/libs/stb/stb_image.h:4320-4329 | That description fixes the prediction |
| PngFilter.SubRepeats | overlay/libs/stb/stb_image.h:4379-4443 | One pixel and zeros under the left filter are that pixel repeated |
| PngFilter.UpRepeats | overlay/libs/stb/stb_image.h:4379-4443 | Zeros under the filter for the row above repeat that row |
| PngRow.Row | overlay/libs/stb/stb_image.h:4379-4456 | One row is reconstructed in the output buffer, with opaque alpha if there is a channel more, and nothing else changes |
| PngImage.FirstRowRecon | overlay/libs/stb/stb_image.h:4376-4377 | The first row needs no row above it |
| PngImage.RowsUndoEncoding | overlay/libs/stb/stb_image.h:4360-4456 | Any image comes back, whatever filter each row uses and whatever follows the data |
| PngImage.Defilter | overlay/libs/stb/stb_image.h:4360-4456 | All rows stand reconstructed and right-aligned in their strides; fails exactly on an unknown filter type |
| PngExpand.ExpandByte | overlay/libs/stb/stb_image.h:4475-4508 | A packed byte is overwritten by its own last sample at the earliest |
| PngExpand.ExpandRow | overlay/libs/stb/stb_image.h:4462-4508 | In-place expansion of 1, 2 and 4-bit samples reads every packed byte before overwriting it, for every width |
| PngExpand.UnpackedAt | overlay/libs/stb/stb_image.h:4475-4508 | Sample i ends up at position i, with its scale |
| PngExpand.UnpackedPacked | overlay/libs/stb/stb_image.h:4462-4508 | Expansion undoes packing |
| PngExpand.InsertAlpha | overlay/libs/stb/stb_image.h:4510-4517 | The backward interleave keeps every sample |
| PngDecode.SwapBytes | overlay/libs/stb/stb_image.h:4530-4540 | Every 16-bit sample is brought to little-endian order in place |
| PngDecode.CreateImageRaw | overlay/libs/stb/stb_image.h:4334-4544 | Returns the finished image, and fails exactly when data is missing or a filter type is unknown |
| PngDecode.DecodedUndoesEncoding | overlay/libs/stb/stb_image.h:4334-4544 | Decoding the filtered rows of any image gives that image |
| PngDecode.DecodedExactly | overlay/libs/stb/stb_image.h:4354-4368 | An image decodes exactly if all its rows are there, each with a filter type from 0 to 4 |
| PngDecode.PixelsRestored | overlay/libs/stb/stb_image.h:4334-4544 | Every byte of every pixel is the encoded sample, in its place, order and scale, or opaque alpha |
| PngDecode.FormatMeaning | overlay/libs/stb/stb_image.h:4334-4474 | How many bytes a row, a pixel and a filter step take, and by what factor small grey samples are scaled so that the largest becomes 255 |
| PngDecode.TwoPixelsDecode | overlay/libs/stb/stb_image.h:4334-4544 | Two grey pixels one above the other, the second an average, decode to 10 and 5 |
| Adam7.Covered | overlay/libs/stb/stb_image.h:4558-4565 | Every pixel of the image, however small, comes from a pixel inside one of the passes |
| Adam7.OwnPlace | overlay/libs/stb/stb_image.h:4572-4577 | Every pixel of a pass belongs inside the image, and to a place no other pixel has |
| Adam7.PassPattern | overlay/libs/stb/stb_image.h:4558-4565 | Which pixel belongs to which pass, as the eight by eight pattern of the PNG standard |
| Adam7.Deinterlace | overlay/libs/stb/stb_image.h:4555-4585 | Every pixel of the result is the pixel of the pass it belongs to; fails exactly when a pass does |
| Adam7.CreateImage | overlay/libs/stb/stb_image.h:4546-4588 | Interlaced and plain images both give what their streams mean |
| Adam7.AssembledOnce | overlay/libs/stb/stb_image.h:4572-4579 | The passes determine every byte of the result |
| Adam7.AssembledIsPicture | overlay/libs/stb/stb_image.h:4572-4579 | Putting together the passes of a picture gives the picture |
| Adam7.PassesUndoEncoding | overlay/libs/stb/stb_image.h:4566-4583 | Every pass is decoded from its own part of the interlaced stream, and empty passes take none |
| Adam7.InterlacedRoundTrip | overlay/libs/stb/stb_image.h:4546-4588 | If the rows of the seven passes were taken from a picture, decoding the interlaced stream gives that picture, whatever filter each row uses |
| Adam7.InterlacedPixelsRestored | overlay/libs/stb/stb_image.h:4546-4588 | Every byte of every pixel of a decoded interlaced image is the sample that its pass encoded for it, or opaque alpha |
| DnsNames.GetNextSubstring | sysmodule/src/mdns/mdns.h:533-565 | Follows at most 16 pointers and finds a label inside the buffer or reports a bad name, pointer loops included |
| DnsNames.StringSkip | sysmodule/src/mdns/mdns.h:567-585 | Moves past a name on every buffer, or leaves the offset alone |
| DnsNames.StringEqual | sysmodule/src/mdns/mdns.h:587-626 | Returns the ends of both names or leaves both offsets alone |
| DnsNames.ComparedIsSameLabels | sysmodule/src/mdns/mdns.h:587-626 | Two names are equal exactly when both can be read and agree label by label up to case; the ends are then those of reading |
| DnsNameRules.EqualNames | sysmodule/src/mdns/mdns.h:587-626 | Two names are equal exactly when both can be read and differ at most in the case of ASCII letters, up to a zero byte in a label |
| DnsNameRules.SixteenPointers | sysmodule/src/mdns/mdns.h:533-565 | A chain of pointers is followed exactly if it has at most sixteen |
| DnsNameRules.SixtyFourLabels | sysmodule/src/mdns/mdns.h:587-664 | Of the names that can be read at all, exactly those of up to 64 labels are read |
| DnsNames.SkipAgrees | sysmodule/src/mdns/mdns.h:567-585 | A name that can be read is skipped to the same end |
| DnsNames.StringExtract | sysmodule/src/mdns/mdns.h:628-664 | Yields exactly the bytes of the dotted name that fit, or nothing |
| DnsSpelling.SpellsKept | sysmodule/src/mdns/mdns.h:1216-1365 | Changing bytes that belong to no name changes no name |
| DnsSpelling.SpellsIsRead | sysmodule/src/mdns/mdns.h:628-664 | A name spelled in a message reads back as its labels |
| DnsSpelling.ChainIsPrefix | sysmodule/src/mdns/mdns.h:666-708 | Matching accepts exactly the names that the stored name starts with |
| DnsNameWriter.StringTable.Add | sysmodule/src/mdns/mdns.h:710-722 | The new position is appended, or replaces the oldest one once 16 are stored |
| DnsNameRules.SixteenPositions | sysmodule/src/mdns/mdns.h:710-722 | After any number of additions the table holds exactly the last sixteen positions |
| DnsNameWriter.TableFind | sysmodule/src/mdns/mdns.h:666-708 | Finds the first position from which the rest of the name matches |
| DnsNameWriter.DottedLabels | sysmodule/src/mdns/mdns.h:743-777 | Splitting a name at its dots and dotting the labels gives the name with a dot at its end |
| DnsWriter.Writer.MakeRef | sysmodule/src/mdns/mdns.h:735-740 | A pointer leads strictly backwards to a label start, and the name then spells its labels and what is stored there |
| DnsWriter.Writer.StringMake | sysmodule/src/mdns/mdns.h:742-777 | Writes a name, by a mere pointer if the table has all of it, keeps all earlier names and table entries, and fails only if the name might not fit in full; the readers read it back exactly if it has at most 64 labels and the entry found, if any, is of an earlier name and reads as the rest of it |
| DnsSearch.CircularExactly | sysmodule/src/mdns/mdns.h:666-708 | A name can find itself while it is written exactly if the labels still to be written, or their beginning, repeat the last ones written |
| DnsNameList.WriteList | sysmodule/src/mdns/mdns.h:742-777 | For any list of names that cannot find themselves, what the readers find for each follows from the names alone: its outcome if that has at most 64 labels, and nothing otherwise |
| DnsNameList.NoClashOutcomes | sysmodule/src/mdns/mdns.h:666-708 | Names that do not clash have themselves as outcomes, in whatever order and however often they are written |
| DnsTwoNames.TwoNames | sysmodule/src/mdns/mdns.h:742-777 | Of two names written into an empty message the first reads back, and the second exactly if none of its ends is a proper start of an end of the first |
| DnsRoundTrip.WriteNames | sysmodule/src/mdns/mdns.h:742-777 | Any number of names written through one table all read back as their own labels |
| DnsExamples.PrefixMistaken | sysmodule/src/mdns/mdns.h:702-704 | Written after a.b.c, the name a.b reads as a.b.c |
| DnsExamples.SelfPointer | sysmodule/src/mdns/mdns.h:702-704 | Written as the first name, a.a cannot be read within any number of steps |
| DnsExamples.TooManyLabels | sysmodule/src/mdns/mdns.h:628-664 | A name of 65 labels is written into an empty message of 2048 bytes, and no reader finds it |
| DnsExamples.RepeatedLabelIsFine | sysmodule/src/mdns/mdns.h:742-777 | A repeated label alone does no harm: a.b.a.c cannot find itself |
| DnsMessage.SameEndCompatible | sysmodule/src/mdns/mdns_discovery.cpp:322-324 | Names with a common last label and without repeated labels never clash and never find themselves |
| DnsMessage.UpdateMeaning | sysmodule/src/mdns/mdns.h:1291-1301 | Only the lowest bit of the class and, except for PTR, the cache-flush bit survive; the time to live is 0 in a goodbye, otherwise the record's own or else the default |
| DnsMessage.AddRecord | sysmodule/src/mdns/mdns.h:1216-1289 | A record is written with its back-patched length unless it might not fit uncompressed, and a TXT record is left out |
| DnsMessage.AddTxt | sysmodule/src/mdns/mdns.h:1303-1351 | All TXT records become one, with the length of all their strings |
| DnsMessage.RecordCount | sysmodule/src/mdns/mdns.h:1353-1365 | The header count is the number of records a section becomes |
| DnsMessage.AnswerMulticast | sysmodule/src/mdns/mdns.h:1431-1478 | Succeeds whenever the message would fit uncompressed, and then holds header, answer and both sections, right after each other |
| DnsBuilt.RecordRoomMeans | sysmodule/src/mdns/mdns.h:1216-1289 | The room that is enough for a record: its names with two bytes more each, ten bytes of fields, and its data |
| DnsBuilt.TxtRoomMeans | sysmodule/src/mdns/mdns.h:1303-1351 | The room that is enough for the TXT records of a section: one name, ten bytes, and two bytes more than each key and value |
| DnsRecords.RecordsParse | sysmodule/src/mdns/mdns.h:780-812 | Hands out every record that fits and stops where the records end, or early at the data of the first record at which the caller stops |
| DnsRecords.RecordsAreParsed | sysmodule/src/mdns/mdns.h:780-812 | Records written one after the other are parsed as the same names, types, classes, times to live and data |
| DnsRecords.ParsePtr | sysmodule/src/mdns/mdns.h:1508-1516 | The name of a PTR record that has one |
| DnsRecords.ParseSrv | sysmodule/src/mdns/mdns.h:1518-1538 | The fields and the name of an SRV record, or zeros |
| DnsRoundTrip.RoundTrip | sysmodule/src/mdns/mdns.h:1431-1478 | A message built from a non-TXT answer and any lists of records reads back as these records in order, TXT last and as one |
| DnsBuilt.BuiltMessage | sysmodule/src/mdns/mdns.h:1431-1478 | A built message with a non-TXT answer has id 0, the flags of an authoritative response, no question and one answer, and parses to records with the names, the type numbers and the data they were built from; the time to live of each is 0 in a goodbye, otherwise its own or else the default, and the class keeps its lowest bit and, except for PTR, the cache-flush bit |
| DnsRoundTrip.TxtAnswerMiscounted | sysmodule/src/mdns/mdns.h:1442-1456 | A TXT answer is announced and not written |
| DnsExamples.TxtAnswerLost | sysmodule/src/mdns/mdns.h:1442-1456 | From a TXT answer alone the builder makes a bare header that announces one answer |
| DnsTxt.ParseTxt | sysmodule/src/mdns/mdns.h:1566-1618 | The pairs of the strings in range, up to the caller's capacity |
| DnsTxt.TxtRoundTrip | sysmodule/src/mdns/mdns.h:1566-1618 | Wherever the strings stand, keys and values survive exactly when every pair is sendable |
| DnsTxt.MessageTxtRoundTrip | sysmodule/src/mdns/mdns.h:1431-1478 | In a built message the last record of a section with TXT records is their TXT record, and parsing its data gives the pairs that were sent exactly when every one is sendable |
| DnsExamples.EmptyKeyLost | sysmodule/src/mdns/mdns.h:1599-1600 | A pair with an empty key is written and not read |
| DnsTxt.TxtBytesAreStrings | sysmodule/src/mdns/mdns.h:1303-1351 | The coalesced data is the strings of the TXT records in order |
| SessionSafety.StepInv | sysmodule/src/net/kdeconnect_client.cpp:463-606 | Every step of every thread, running out of memory included, keeps track of all live sessions |
| SessionSafety.LiveSessionsAccounted | sysmodule/src/net/kdeconnect_client.cpp:531-578 | In every run a live session is the map entry, not yet installed, held for disconnection, or left behind by a handshake that ran out of memory |
| SessionSafety.OneLiveSession | sysmodule/src/net/kdeconnect_client.cpp:466-474 | With no handshake past creation, a device has at most one live session that is not left behind, the one in the map |
| HandshakeSafety.ReplacedAfterCheck | sysmodule/src/net/kdeconnect_client.cpp:463-563 | In every run, a session gets into the map only after its handshake has found no live session of its device there; a session it replaces was not both in the map and live at that time |
| HandshakeSafety.CheckPasses | sysmodule/src/net/kdeconnect_client.cpp:463-474 | A handshake goes on exactly if the device has an id, is not the client itself and has no live session in the map, and its check changes nothing else |
| HandshakeSafety.NoSessionWithSelf | sysmodule/src/net/kdeconnect_client.cpp:464 | No session of any run is with a device without an id or with the client itself |
| SessionSafety.StoppedDisconnectsAll | sysmodule/src/net/kdeconnect_client.cpp:228-278 | After stop has returned every session ever created is disconnected, except exactly those that a handshake left behind and whose io thread has not ended |
| HandshakeSafety.StoppedJoinsAll | sysmodule/src/net/kdeconnect_client.cpp:228-278 | After stop has returned no io thread runs, except those of sessions that a handshake left behind |
| HandshakeSafety.NoNewHandshakes | sysmodule/src/net/kdeconnect_client.cpp:233-255 | Once stop has waited for those who accept and make connections, no handshake begins |
| SessionSafety.OrphanOutlivesStop | sysmodule/src/net/kdeconnect_client.cpp:452-456 | A run in which a session is live after stop has returned: its handshake ran out of memory before the session was in the map |
| PairingSafety.FlagsAlwaysAgree | sysmodule/src/net/kdeconnect_client.cpp:763-791 | In every reachable state pairing state and paired flag fit together |
| PairingSafety.PeersCannotPair | sysmodule/src/net/kdeconnect_client.cpp:747-801 | Steps of peers and network alone never pair a device that is not stored |
| PairingSafety.PairedHasReason | sysmodule/src/net/kdeconnect_client.cpp:840-886 | A paired session was stored when it was created, or a local request or accept came after it was last unpaired |
| PairingHistory.PairingState | sysmodule/src/net/kdeconnect_client.cpp:747-936 | In every state of every run, the last step that set the pairing state of a session tells it: requested by the peer exactly if that was a pair packet from within half an hour or without a time while no request of ours was open, with its timestamp; requested exactly if it was a local request that went out, with its time; paired or not exactly if it was one of the steps listed for that |
| PairingHistory.CreatedOnce | sysmodule/src/net/kdeconnect_client.cpp:531-541 | A session keeps the device and the certificate of the handshake that created it |
| PairingHistory.StoredCertificate | sysmodule/src/net/kdeconnect_client.cpp:747-886 | A stored certificate is that of the last session of the device that was paired, or was stored before the run |
| PairingStorage.StepWrites | sysmodule/src/net/kdeconnect_client.cpp:747-936 | The storage of a device and the flags of all its sessions, replaced ones too, change by pair packets, accepting, rejecting and unpairing as listed, and in no other way |
| PairingStorage.FlagIsStored | sysmodule/src/net/kdeconnect_client.cpp:553-629 | In every state of every run a session, installed or not, is paired exactly if its device is stored, unless another session or a local call has written the storage the other way since the flag was settled |
| PairingStorage.SettledBeforeInstall | sysmodule/src/net/kdeconnect_client.cpp:553-578 | Until a session is installed, only its handshake's look into the storage or its own peer's unpair packet settles its flag |
| PairingStorage.AgreementRun | sysmodule/src/net/kdeconnect_client.cpp:747-936 | The installed session's flag and the storage agree throughout a run exactly when that session is at no time outdated |
| PairingStorage.PluginsSeeStoredDevices | sysmodule/src/net/kdeconnect_client.cpp:609-629 | A packet through any session, installed, replaced or new, is delivered to the plugins exactly if its device is stored, unless the session is outdated, and then exactly if it is not |
| PairingStorage.UnpairDuringHandshake | sysmodule/src/net/kdeconnect_client.cpp:904-936 | A run in which a device is unpaired during its handshake and its session is paired afterwards |
| PairingStorage.ReplacedStaysPaired | sysmodule/src/net/kdeconnect_client.cpp:553-578 | A run in which the packets of a replaced session reach the plugins after its device was unpaired |
| PairingClient.Client.HandlePairPacket | sysmodule/src/net/kdeconnect_client.cpp:747-801 | A pair packet changes flags, time and storage as the step says, with the 1800 second window |
| PairingClient.Client.HandlePacket | sysmodule/src/net/kdeconnect_client.cpp:609-629 | Pair packets go to the pair handler, others to the plugins if the session is paired and nowhere otherwise |
| PairingClient.Client.RequestPair | sysmodule/src/net/kdeconnect_client.cpp:840-862 | Asks only for an unpaired, connected device: then one packet with the time is queued to its session, and otherwise none to any |
| PairingClient.Client.AcceptPair | sysmodule/src/net/kdeconnect_client.cpp:864-886 | Pairs and stores, and queues one accepting packet, only if the packet can be sent and there is a certificate |
| PairingClient.Client.RejectPair | sysmodule/src/net/kdeconnect_client.cpp:888-902 | Unpairs and forgets, and queues one rejecting packet, only if the packet can be sent |
| PairingClient.Client.Unpair | sysmodule/src/net/kdeconnect_client.cpp:904-936 | Forgets offline devices too, tells only connected paired ones, and leaves connected unpaired ones alone |
| PairingClient.Client.InstallSession | sysmodule/src/net/kdeconnect_client.cpp:553-578 | The new session becomes the map entry and the replaced one is handed back |
| Payload.Download.FlushChunk | sysmodule/src/net/kdeconnect_client.cpp:703-713 | Offset, buffered and missing bytes always make up the announced size, and file and buffer are the stream so far |
| Payload.Download.Run | sysmodule/src/net/kdeconnect_client.cpp:715-725 | For every split of the stream into reads, exactly the bytes that did not arrive are missing afterwards, unless a write fails |
| Payload.DownloadPayload | sysmodule/src/net/kdeconnect_client.cpp:631-741 | Succeeds exactly when everything arrived, was written and the session still lives; the file is then what was received, and deleted if anything fails after it was opened |
| Payload.AnySplitArrives | sysmodule/src/net/kdeconnect_client.cpp:715-725 | Enough reads that bring something complete the download however they are split |
| Payload.EndedForGood | sysmodule/src/net/kdeconnect_client.cpp:715-720 | Once the session is gone, the connection has ended or a read fails, nothing more arrives |
| AlbumArtImages.BrokenFails | sysmodule/src/net/kdeconnect_client.cpp:631-741 | A download fails if there is no connection, file or handle, if the session is gone, if too little is sent or if a write of a chunk fails, and what is then on the card |
| AlbumArtImages.WholeTransferDelivers | sysmodule/src/net/kdeconnect_client.cpp:631-741 | With none of these, and enough reads that bring something, the file is what was sent up to the announced size |
| TraceFormat.TraceRoundTrip | tools/parse_memtrace.py:57-101 | A whole trace parses to all its records |
| TraceFormat.TruncatedTrace | tools/parse_memtrace.py:75-100 | However a trace is cut off behind its header, exactly the whole records in it are found |
| TraceFormat.KeptIsSame | sysmodule/src/utils/mem_tracker.cpp:154-155 | Nothing is lost exactly when all sizes fit in 32 bits |
| TraceFormat.SizeLost | sysmodule/src/utils/mem_tracker.cpp:154-155 | An allocation of 4 GiB parses as one of no bytes |
| TraceVersionOne.UntimedRoundTrip | tools/parse_memtrace.py:45-101 | A trace of version 1, whose records have 14 bytes and their frames, parses to all its records at time 0, whatever follows them |
| TraceVersionOne.ParsedExactly | tools/parse_memtrace.py:62-72 | A file is taken for a trace exactly if it has eight bytes, starts with KDMT and is of version 1 or 2 |
| TraceVersionOne.UnknownKindEnds | tools/parse_memtrace.py:88-92 | Nothing is read from a record of unknown kind on |
| TraceWriter.Layout | sysmodule/src/utils/mem_tracker.cpp:147-166 | The record buffer of 118 bytes holds the encoding of every record |
| TraceWriter.Tracer.FlushLocked | sysmodule/src/utils/mem_tracker.cpp:67-72 | File and pending bytes together stay the same |
| TraceWriter.Tracer.Init | sysmodule/src/utils/mem_tracker.cpp:80-96 | The file starts with the header |
| TraceWriter.Tracer.WriteRecord | sysmodule/src/utils/mem_tracker.cpp:142-173 | File and pending bytes grow by exactly the record, whether or not the buffer is flushed; if the trace is closed between the look at it and the lock, the record stays out of the file |
| TraceWriter.Tracer.CloseTrace | sysmodule/src/utils/mem_tracker.cpp:98-106 | Everything recorded is in the file |
| TraceWriter.Trace | sysmodule/src/utils/mem_tracker.cpp:68-173 | Opening, writing any records and closing leaves a file that parses to these records |
| TraceWriter.ParseTrace | tools/parse_memtrace.py:57-101 | Finds what the file means, for both versions and every kind of damage |
| TraceAnalysis.Analyze | tools/parse_memtrace.py:163-205 | An address is live exactly if its last record is an allocation, with that record's data; every allocation is live, freed or replaced; totals by call site are right |
| AlbumArt.TouchesKeepRecent | sysmodule/src/utils/album_art.cpp:47-60 | After any sequence of touches the list holds the ten hashes touched last, most recent first |
| AlbumArt.RecentOnce | sysmodule/src/utils/album_art.cpp:47-60 | That description fixes the list |
| AlbumArtImages.TenAreKept | sysmodule/src/utils/album_art.cpp:47-60 | A new hash joins up to nine others, and takes the place of the oldest of ten |
| AlbumArt.Cache.LruTouch | sysmodule/src/utils/album_art.cpp:47-60 | Moves a hash to the front and removes the files of the hashes that fall off |
| AlbumArt.Cache.ClearDir | sysmodule/src/utils/album_art.cpp:31-45 | Empties the list, and the directory if it can be opened, and touches no other file; list and files then agree exactly if it could be opened or held no art |
| AlbumArt.Cache.DownloadRaw | sysmodule/src/utils/album_art.cpp:62-113 | Keeps a file only if it arrived whole and starts like a JPEG, PNG or WebP image |
| AlbumArtImages.ArrivedArt | sysmodule/src/utils/album_art.cpp:62-113 | Art that arrives is on the card byte for byte and first in the list if it starts with FF D8 FF, with 89 P N, or with RIFF and WEBP after four more bytes, and otherwise gone |
| AlbumArt.Cache.Show | sysmodule/src/plugins/mpris_plugin.cpp:119-136 | Art on the card is touched, announced art is downloaded, anything else changes nothing |
| AlbumArt.ShowKeepsConsistent | sysmodule/src/utils/album_art.cpp:47-113 | The files stay exactly those of the listed hashes unless a created file cannot be opened |
| AlbumArt.RunKeepsConsistent | sysmodule/src/plugins/mpris_plugin.cpp:119-136 | Over any run of updates the files are always those of the listed hashes exactly if no update creates a file it cannot open |
| AlbumArt.BlankFileIsListed | sysmodule/src/net/kdeconnect_client.cpp:685-697 | A created file that cannot be opened stays, and the next update lists it |

## Left out

- Inflate.ZBuf.ParseZlib: takes a step budget instead of looping without bound, and claims nothing about a run that uses the length symbols 286 and 287 or the distance symbols 30 and 31, whose table entries are zeros and which RFC 1951 forbids; DeflateTheorems.EnoughFuel shows that the budget restricts no other run.
- Inflate.ZBuf.Match: claims nothing about those reserved symbols, which the code goes on with.
- Inflate.ZBuf.HuffmanBlock: claims nothing once a reserved symbol is used.
- Inflate.ZBuf.Expand: reallocation fails when a size limit is exceeded, for any limit; 32-bit overflow of buffer sizes is not modelled.
- Inflate.ZBuf.Header: the window size is not looked at and the checksum at the end of a zlib stream is not read, as in the code.
- PngDecode.CreateImageRaw: allocation failure and the checks against 32-bit overflow of sizes are not modelled; 16-bit samples end in little-endian order, that of the Switch.
- PngRow.Row: goes pixel by pixel in both layouts, where the code has one loop per filter, a flat loop without alpha, and a second pass for the low byte of 16-bit alpha.
- PngDecode.Format.Valid: depths below 8 have one channel, which the code only asserts; PngDecode and Adam7 start from inflated data, so chunks, palettes and transparent colours are not part of this model.
- DnsWriter.Writer.StringMake: labels have from 1 to 191 bytes, because a zero length byte ends a name and larger ones read as pointers.
- DnsNameList.WriteList: names that can find themselves are excluded, because whether they do depends on what the buffer held before.
- DnsMessage.AnswerMulticast: buffers above 0x4000 bytes, the reach of a pointer, names of more than 64 labels, the limit of the readers, and names that can find themselves or clash are excluded; that names do not clash is enough for all names of a message to read back but not necessary, which DnsNameList.WriteList makes exact for lists of names and not for messages.
- DnsRecords.RecordsAreParsed: addresses are compared as bytes; socket address structures are not part of this model.
- Queries, discovery, unicast answers and sockets of mdns.h: the builder for multicast answers has all their steps.
- Sessions.Next: each pair handler, local call and handshake stage is one step, because the code does not lock the fields they change; data races inside a handler are not modelled. A handshake may run out of memory before its session has an io thread and before the session is in the map; what it does after disconnecting the replaced session changes no session.
- PairingClient.Client: storage is a map and the queues to the peers are sequences; the plugin callbacks, notifications and the handling of packets by plugins are not part of this model.
- TLS, certificates, sockets and threads: their results are parameters or steps; the certificate is the text that the handshake hands over.
- Two such clients pairing with each other: accepting sends milliseconds and receiving expects seconds, so whether they agree depends on the peer.
- Payload.DownloadPayload: connecting, the handshake and finding the file system are one condition; a failed write leaves the file as it was, which makes no difference because it is deleted. Sending payloads is left out.
- TraceWriter.Tracer.FlushLocked: a write to the trace file writes all bytes; the code ignores the result.
- TraceWriter.Tracer.WriteRecord: what is done under the mutex is one step, and so is closing, whose last two statements come after it is released; several records under way while the trace is closed are not modelled.
- TraceWriter.ParseTrace: warnings and symbol names are left out.
- TraceAnalysis.Analyze: the times allocations were held, as floating-point milliseconds, and the order of the printed call sites are left out.
- AlbumArt.Cache: operations do not interleave, because the list is not locked; removing a file always succeeds; the hash of an address is not modelled.
- JPEG, GIF and the other image formats, vector instructions, the overlay's pages, JSON, settings and the remaining plugins would add easy members or foreign code.
