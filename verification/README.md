# PQCAP container: a verified model

PQCAP is a pcapng capture with a Parquet index embedded behind its packets and a 44-byte footer that locates the index.
This project models how such a file is written, indexed, located and read back, together with the classic pcap reader
and the packet decoder of the same extension, and proves properties of that model with Dafny 4.11.

    dafny verify dfyconfig.toml

## What is modelled

- `Bytes`, `Numerals`, `Wrappers`: machine words as bounded integers, little- and big-endian encodings, the byte vector
  that the embedding code fills, `std::to_string`/`%u`/`%x` numerals and their value.
- `Blocks`, `BlockComposition`: the grammar of little-endian pcapng blocks (section 3.1 of draft-ietf-opsawg-pcapng; EPB is
  section 4.3, SPB is section 4.4) and the block walk that finds packet data in a file.
- `Footer`, `Embed`, `MetadataLimit`, `MetadataLocator`: the footer block and its parser, the two appended metadata blocks,
  how long the metadata may be, and the locator with its 64-bit range check.
- `SubFilePath`, `SubFile`, `ReadBack`: the `pqcap-subfile` path text, the stateful handle over a byte range, and the whole
  trip from embedding to reading the Parquet bytes.
- `CopyWriter`, `IndexText`: the `COPY` writer as a step system of threads under one lock that ends with its finalization, and
  the SQL text of the index rows with an independent reader for that text.
- `IndexCalls`, `IndexVectors`, `ConcurrentCalls`, `ClassicIndexing`: `pqcap_embed_index` on existing files: runs of calls on
  one file, vectors of paths with the temporary file beside each of them, calls whose steps interleave, and calls on classic
  captures.
- `ClassicPcap`, `PacketScan`: the classic pcap stream reader (sections 4 and 5 of draft-ietf-opsawg-pcap) and the batched
  table scan over it.
- `Addresses`, `PacketDecoder`, `Frames`, `ScanColumns`: printed addresses, the L4 decoder (section 3.1 of RFC 791, section 3 of RFC 8200,
  section 3.1 of RFC 9293, RFC 768), a frame builder that is its inverse, and the columns of scanned rows told from a frame's
  bytes.
- `EndToEnd`, `FinishedFiles`: results that join several of these.

Code that updates variables step by step is a method with a loop or a class with fields; each such method is proved equal to
a specification function, and the results below are about those functions. Bit shifts and masks are written as division and
remainder. Unsigned wrap-around is explicit (`Wrap32`, `Wrap64`, `Add64`), except for file positions in the block walk, which
are unbounded here and below 2^63 in the program.

## Assumptions about code outside the repository

- LightPcapNg is not part of this model. `light_write_packet` is assumed to append any well-formed non-packet blocks and then
  one EPB holding `captured_length` bytes of the packet and its original length, all with total lengths that fit their
  32-bit fields (`CopyWriter.Emits`); the file it opens is assumed to be a chain of
  non-packet blocks (`CopyWriter.IsInitialFile`).
- The database calls finalize once, when no sink call is running, and makes no sink call afterwards (`CopyWriter.CanFire`).
- `payload.GetValue<string>()` (src/pqcap_copy_function.cpp:234) is taken to yield the raw bytes of the BLOB value.
- `StringUtil::Lower` is taken to lower the letters A to Z and nothing else (`CopyWriter.Lower`).
- A positional read of the inner file returns exactly the requested bytes or throws (`SubFile.InnerRead`).
- The Parquet writer and the packet reader that feed `pqcap_embed_index` are parameters (`IndexCalls.Env`), except that the
  packet reader is the modelled one on classic captures (`ClassicIndexing.ClassicFeatures`); Parquet bytes are an opaque string.
- Two path strings name the same file only if they are equal (`IndexVectors.Files`).
- `std::stoull` on a string of decimal digits yields its value or reports that it is out of range.
- The host is little-endian.

## Results that limit the code

- The location reported for an SPB uses the original packet length. `Blocks.ScanIsExact` shows that a location addresses the
  packet's bytes if and only if the packet is an EPB or an uncut SPB; `Blocks.CutSpbIsMisread` is a cut SPB whose location
  addresses its trailing length field.
- Appending to a capture keeps its scan if and only if the walk consumes the capture completely
  (`BlockComposition.ComposesIffComplete`).
- The 32-bit length field of the metadata block wraps when the block reaches 4 GiB. Embedding metadata of a given length does
  no harm to any completely walked capture if and only if the block's size is below 2^32, and for any longer length a string
  between the Parquet magics harms every capture (`MetadataLimit.HarmlessIffFits`).
  `MetadataLimit.OversizedMetadataBreaksScan` gives 2^32 - 1 bytes of metadata after which the walk even reports a packet that
  is not in the capture. Locating and reading the metadata through the footer does not need that limit.
- Without its lock the writer's join by position is wrong: `CopyWriter.UnguardedCallsBreakIndex` gives the run.
- Opening a sub-file path does not check its range, the locator does. On a non-empty range no request fails if and only if the
  range lies inside the inner file (`SubFile.ServesRangeIffInRange`). A request can even succeed with bytes from outside the
  range: exactly when the range's end passes 2^64 and the inner file is not empty (`SubFile.ReadsOutsideIffEndWraps`);
  `ReadBack.WrappedRangeReadsOutside` gives such a path.
- The index points at a row's whole payload if and only if the payload is shorter than 2^32 - 32 bytes
  (`CopyWriter.FinalizedIndexIsRight`). A payload of 2^32 - 32 to 2^32 - 1 bytes cannot be written at all, because the length
  of its block does not fit 32 bits (`CopyWriter.EmitsIffFits`); the sink accepts its row all the same, and that is the only way
  in which a thread can be stuck with the lock (`CopyWriter.HolderCanStep`). A longer payload is cut to the low 32 bits of its
  length: `CopyWriter.LongPayloadIsLost` runs a copy of one. Such payloads may not be receivable: the largest BLOB value is a
  matter of the database, which is not part of this model.
- `pqcap_embed_index` writes its metadata to `<path>.tmp.meta.parquet` and removes that file. A vector of paths that succeeds
  leaves all other files alone, and loses none that it names, if and only if no file lies at such a side path beforehand
  (`IndexVectors.UndisturbedIffNoSideFiles`). `IndexVectors.SideFileIsLost` is a vector that reports two successes and leaves one
  file.
- At most one of any calls on one file succeeds when they run one after the other, but not when they overlap:
  `ConcurrentCalls.OverlappingCallsBothSucceed` gives the interleaving. Whatever the interleaving, the capture stays a prefix
  and no call passes its check once the file has been written (`ConcurrentCalls.ChecksPrecedeStores`).
- `pqcap_embed_index` also accepts classic captures, and spoils every one on which it succeeds: its packets are then followed by
  an error or by a packet that was never captured (`ClassicIndexing.IndexSpoilsClassic`). It does succeed on every empty one
  of version 2.4 (`ClassicIndexing.EmptyClassicIsSpoiled`).

## Model

| member | source | states |
|---|---|---|
| Bytes.ByteVector.WriteLE64 | src/pqcap_copy_function.cpp:474-478 | the loop of eight shifts and masks appends exactly the little-endian encoding of the value |
| Bytes.ShiftedBytesAreLE64 | src/pqcap_footer.cpp:17-25 | the writer's eight shifts yield the two 32-bit halves that the reader reassembles, for every 64-bit value |
| Bytes.SwappedRead | src/pqcap_packet_table.cpp:94-102 | swapping a little-endian read of any four bytes gives their big-endian value |
| Blocks.ScanPacketLocations | src/pqcap_copy_function.cpp:354-372 | the loop over the file's bytes terminates and returns the walk's locations, for any bytes |
| Blocks.ScanOfAnyBytes | src/pqcap_copy_function.cpp:354-372 | on arbitrary bytes offsets lie inside the file, grow by at least 16 each, and 16 times their number is at most the file size |
| Blocks.ScanFollowsHeaders | src/pqcap_copy_function.cpp:354-372 | on arbitrary bytes the walk follows block headers as far as they lead, reports exactly the packet blocks among those it passes, and consumes everything exactly when the headers lead to the end |
| Blocks.ScanIsExact | src/pqcap_copy_function.cpp:354-372 | for every chain of well-formed blocks the walk reaches the end and returns one location per EPB or SPB in order; a location addresses the packet's bytes if and only if the packet is an EPB or an uncut SPB |
| Blocks.ScanIsDisjoint | src/pqcap_copy_function.cpp:354-372 | without cut SPBs the reported ranges are pairwise disjoint, ascending and strictly inside the file |
| Blocks.CutSpbIsMisread | src/pqcap_copy_function.cpp:365-368 | a concrete SPB cut to no data is reported with its original length, and the location addresses the block's trailing length field |
| Blocks.ScanComposes | src/pqcap_copy_function.cpp:337-373 | behind bytes that the walk consumes, scanning A + B is scanning A and then B shifted by the length of A, and A + B is complete exactly when B is |
| BlockComposition.ComposesIffComplete | src/pqcap_copy_function.cpp:354-372 | the scan composes with every continuation if and only if the walk consumes the first part completely |
| Footer.FooterParserIsExact | src/pqcap_footer.cpp:27-55 | bytes parse to a locator if and only if they are the 44-byte footer encoding of it with some version of at most 1 and some flags |
| Footer.FooterRoundTrip | src/pqcap_footer.cpp:27-55 | parsing an encoded footer returns its offset and length, or nothing when the version is above 1 |
| Footer.FooterBytes | src/pqcap_copy_function.cpp:537-553 | the 44 footer bytes one by one: type, length, enterprise id, "PQCAPFTR", version, flags, the two shifted numbers and the length |
| Embed.EmbedParquet | src/pqcap_copy_function.cpp:511-558 | pushing bytes, padding and inserting produces the capture followed by the custom block and the footer block |
| Embed.BuildCustomBlock | src/pqcap_copy_function.cpp:516-534 | the metadata block built push by push, padded to four bytes, with the low 32 bits of its length on both ends |
| Embed.BuildFooter | src/pqcap_copy_function.cpp:537-553 | the footer block built push by push is the footer encoding with version 1 and no flags |
| Embed.EmbeddedLayout | src/pqcap_copy_function.cpp:529-557 | the capture is a prefix, the footer is the last 44 bytes, and the Parquet bytes start exactly 33 bytes behind the capture |
| Embed.MetadataBytes | src/pqcap_copy_function.cpp:516-534 | the metadata block's bytes: type, low 32 bits of the length on both ends, enterprise id, "PQCAPMETA", version, flags, shifted Parquet length, Parquet bytes, zeros up to a multiple of four |
| Embed.EmbeddedChain | src/pqcap_copy_function.cpp:529-557 | a capture that is a chain of blocks stays a chain, two non-packet blocks longer |
| Embed.EmbeddingKeepsScan | src/pqcap_copy_function.cpp:511-558 | embedding into a completely walked capture changes no packet location and leaves a completely walked file, for metadata blocks under 4 GiB |
| MetadataLimit.HarmlessIffFits | src/pqcap_copy_function.cpp:529-557 | for every 64-bit metadata length: embedding keeps all packet locations and the completeness of every completely walked capture, whatever the metadata bytes, if and only if the block's size is below 2^32; for any longer length a string between the Parquet magics leaves no capture completely walked |
| MetadataLimit.OversizedMetadataBreaksScan | src/pqcap_copy_function.cpp:530-534 | the concrete case of a packet that is not there: a Parquet string of 2^32 - 1 bytes whose wrapped length field makes the walk report a packet that the capture lacks |
| MetadataLocator.LocatorIsExact | src/pqcap_reader_extension.cpp:30-53 | a range is accepted if and only if the file ends in its footer, it is not empty, and its true integer end lies inside the file, despite 64-bit wrap-around |
| MetadataLocator.RefusalIsExact | src/pqcap_reader_extension.cpp:30-53 | each of the four refusals exactly when it applies: too short, no footer, empty range, true end past the file |
| MetadataLocator.RangeCheckIsExact | src/pqcap_reader_extension.cpp:49-53 | the wrapped comparison rejects exactly the ranges whose true end is past the file |
| SubFilePath.ParseDecimalUint64 | src/pqcap_subfile_fs.cpp:17-44 | accepts exactly the non-empty digit strings whose value is below 2^64 and returns that value, otherwise the matching error |
| SubFilePath.OpenPathIsExact | src/pqcap_subfile_fs.cpp:56-74 | a path opens as a range if and only if it is prefix, digits, underscore, digits, bang and the underlying path, whatever the underlying path contains |
| SubFilePath.RefusalIsExact | src/pqcap_subfile_fs.cpp:17-74 | which error a refused path reports: no prefix, no bang, no underscore before it, or the first number that is empty, not digits or 2^64 and more |
| SubFilePath.PathRoundTrip | src/pqcap_subfile_fs.cpp:59-74 | every pair of 64-bit numbers and every underlying path come back from the printed path |
| SubFile.PqcapSubFileHandle.ReadAtLocation | src/pqcap_subfile_fs.cpp:96-108 | positional read: bytes delivered, buffer unchanged past them, position kept |
| SubFile.PqcapSubFileHandle.ReadNext | src/pqcap_subfile_fs.cpp:110-125 | sequential read: bytes and count delivered, buffer unchanged past them, position advanced by the count |
| SubFile.PqcapSubFileHandle.SeekTo | src/pqcap_subfile_fs.cpp:132-134 | the seek position becomes the given one and nothing else changes |
| SubFile.PqcapSubFileHandle.Rewind | src/pqcap_subfile_fs.cpp:136-138 | the seek position becomes zero and nothing else changes |
| SubFile.PqcapSubFileHandle.constructor | src/include/pqcap_subfile_fs.hpp:11-16 | a new handle serves the given range from position zero |
| SubFile.HandleRefinesPlainFile | src/pqcap_subfile_fs.cpp:96-142 | over every run of seek, reset, read, positional read, position and size, a handle whose range lies in the inner file answers exactly as an independent file holding those bytes |
| SubFile.OnlyPositionMoves | src/pqcap_subfile_fs.cpp:96-142 | on any handle, also one out of range: file and range stay, the position moves by the delivered bytes modulo 2^64 and stays when a read fails, and the size is answered modulo 2^64 |
| SubFile.ServesRangeIffInRange | src/pqcap_subfile_fs.cpp:72-108 | opening checks no range: for a non-empty range, every request of every count at every position succeeds if and only if the range lies inside the inner file |
| SubFile.ReadSource | src/pqcap_subfile_fs.cpp:96-125 | delivered bytes come all from their own place inside the range, or, when the 64-bit start address has wrapped, all from before the range |
| SubFile.ReadsOutsideIffEndWraps | src/pqcap_subfile_fs.cpp:96-125 | some request delivers bytes from outside the range if and only if the range's end passes 2^64 and the inner file is not empty |
| SubFile.DrainDelivers | src/pqcap_subfile_fs.cpp:110-125 | sequential reads of any sizes, put together, are the contents from the position on, up to the sum of the sizes |
| ReadBack.LocatesWhatWasEmbedded | src/pqcap_reader_extension.cpp:30-56 | the locator finds exactly the range that embedding filled, and refuses empty metadata |
| ReadBack.MetadataReadBack | src/pqcap_reader_extension.cpp:88-92 | for every capture, Parquet string, path and chunking: embed, locate, print the path, open the handle that this path names and read it to the end returns exactly the Parquet string; only an empty string does not open |
| ReadBack.MetadataHandleIsParquetFile | src/pqcap_subfile_fs.cpp:91-142 | every run of operations on that handle is a run on a file holding the Parquet string alone |
| ReadBack.WrappedRangeReadsOutside | src/pqcap_subfile_fs.cpp:72-108 | a concrete path with an unchecked range opens over a one-byte file; its first byte is refused and its second is read from outside the range |
| CopyWriter.PqcapCopyGlobalState.PcapngWriteSink | src/pqcap_copy_function.cpp:218-309 | a sink call appends the rows before the first rejected one and their blocks, reports that row's error exactly when there is one, and keeps file and rows in step; what the rows hold of the input is `SinksUpToFirstRejected` |
| CopyWriter.PqcapCopyGlobalState.PcapngWriteFinalize | src/pqcap_copy_function.cpp:692-711 | closes the writer and, in pqcap mode, scans the file, compares the counts and embeds the index; what the file then holds is `FinishedFiles.FinishedCopyServes` |
| CopyWriter.FireKeepsInv | src/pqcap_copy_function.cpp:218-309 | every step of every thread keeps the invariant: mutual exclusion, rows in order of lock acquisition, packets in step with rows |
| CopyWriter.FileOrderIsRowOrder | src/pqcap_copy_function.cpp:218-309 | in every reachable state of every interleaving, also part-way through a row, the i-th packet block carries the bytes and original length of row i and at most one packet has no row yet |
| CopyWriter.MutualExclusion | src/pqcap_copy_function.cpp:223-223 | in every reachable state at most one thread is inside a sink call, and it holds the lock |
| CopyWriter.HolderCanStep | src/pqcap_copy_function.cpp:223-309 | in every reachable state whoever holds the lock can write, push, abort or release, if and only if it is not about to write a row that no EPB can hold |
| CopyWriter.EmitsIffFits | src/pqcap_copy_function.cpp:295-306 | something can be appended for a row if and only if its captured bytes are fewer than 2^32 - 32 |
| CopyWriter.CallsAreSerialised | src/pqcap_copy_function.cpp:223-308 | between calls the rows are those of the calls run one after the other in the order they took the lock, aborted calls contributing their accepted prefix |
| CopyWriter.FinalizedIndexIsRight | src/pqcap_copy_function.cpp:692-711 | in every reachable finalized state the row count matches, every row's captured bytes fit an EPB, and location i of the finished file addresses payload i if and only if the payload is shorter than 2^32 - 32 bytes |
| CopyWriter.LongPayloadIsLost | src/pqcap_copy_function.cpp:299-299 | a concrete run with a payload of 2^32 bytes finalizes without complaint, and the index entry does not address the payload |
| CopyWriter.UnguardedCallsBreakIndex | src/pqcap_copy_function.cpp:223-223 | without the lock a concrete run ends with equal counts but packets and rows out of step |
| CopyWriter.HeaderKeepsTime | src/pqcap_copy_function.cpp:301-303 | the header's seconds and nanoseconds hold exactly the row's microseconds |
| CopyWriter.SinksUpToFirstRejected | src/pqcap_copy_function.cpp:226-308 | a sink call keeps, in order, exactly the rows before the first one that lacks time stamp, original length or payload or has a column that fails its cast, each with its payload unchanged; so a chunk is sunk whole if and only if it has no such row |
| CopyWriter.RejectionNamesFirstFault | src/pqcap_copy_function.cpp:226-293 | the error of a rejected row is that of its first fault in the order in which the columns are read |
| CopyWriter.HeaderShowsInput | src/pqcap_copy_function.cpp:295-303 | what the packet header takes from the input row: low bits of the numbers, the copy's link type for a missing or zero one, the payload's length, and the exact time |
| CopyWriter.LowerIsExact | src/pqcap_copy_function.cpp:291-291 | lower case maps each capital letter to its small one and keeps every other character |
| CopyWriter.PacketsCarryInputs | src/pqcap_copy_function.cpp:218-309 | in every reachable state between calls, packet block i carries the payload and original length of the i-th accepted input row of the calls in lock order, and there are no others |
| IndexText.IndexShowsInput | src/pqcap_copy_function.cpp:226-293 | which input column each index column shows, and the default that stands for a missing, NULL or empty one |
| IndexText.BuildValues | src/pqcap_copy_function.cpp:383-448 | fails exactly when counts differ; otherwise the loop builds the comma-separated tuples of all rows |
| IndexText.RowTextIsFields | src/pqcap_copy_function.cpp:416-447 | the concatenated pieces are the bracketed text of the fifteen columns after normalisation |
| IndexText.QuotedRoundTrip | src/pqcap_copy_function.cpp:375-377 | an escaped literal reads back as the string, whatever quotes it contains |
| IndexText.ValuesTextMeansRows | src/pqcap_copy_function.cpp:408-448 | for every non-empty list of rows the text reads as exactly one tuple per row whose fifteen fields are the row's columns |
| IndexVectors.CaptureStore.EmbedPqcapIndex | src/pqcap_copy_function.cpp:651-672 | one call over all files: an early error with every file untouched, a late one with something left at the side path, or the packet count with the index embedded and the side path empty |
| IndexVectors.CaptureStore.PqcapEmbedIndexFunction | src/pqcap_copy_function.cpp:674-690 | a vector of paths: the counts, or the first error, with the files as the elements so far have left them |
| IndexCalls.CallSucceedsExactly | src/pqcap_copy_function.cpp:651-672 | a call writes the capture if and only if it does not end in a footer encoding, the scanned features are as many as the walk's packets, the metadata was written and the capture can be opened for writing; otherwise the capture is untouched |
| IndexCalls.CallReportsFirstObstacle | src/pqcap_copy_function.cpp:651-672 | each error of a failing call exactly when its obstacle is the first that the call meets |
| IndexCalls.EmbeddedIsNotPlain | src/pqcap_copy_function.cpp:560-578 | after embedding, the check for a plain capture refuses the file, whose prefix is the capture |
| IndexCalls.AtMostOneSuccess | src/pqcap_copy_function.cpp:651-672 | over any run of calls on one file either all fail and the file is untouched, or exactly one embeds behind the original bytes and every later one is refused without writing |
| IndexCalls.CaptureStaysPrefix | src/pqcap_copy_function.cpp:511-578 | over any run of calls the original capture stays a byte-for-byte prefix |
| IndexVectors.SuccessfulVector | src/pqcap_copy_function.cpp:651-690 | a vector that succeeds names distinct plain files; each that remains carries its index behind the bytes it had before, no other remaining file is changed, and gone are exactly the files at the side paths |
| IndexVectors.UndisturbedIffNoSideFiles | src/pqcap_copy_function.cpp:664-671 | such a vector touches nothing but the files it names and loses none of them if and only if no file lies at a side path of its elements beforehand |
| IndexVectors.SideFileIsLost | src/pqcap_copy_function.cpp:664-671 | two paths, one at the side path of the other: in one order both calls succeed and the first file is gone, in the other the second call finds no file |
| IndexVectors.FailedPath | src/pqcap_copy_function.cpp:651-672 | a failing call changes at most its side path, and nothing at all when it fails before the metadata are written |
| IndexVectors.VectorWritesBeforeFirstFailure | src/pqcap_copy_function.cpp:674-690 | for any vector: the elements before the first failing one do what a successful vector does, undisturbed exactly when no file lies at their side paths, and the answer is all counts or the failing element's error |
| ConcurrentCalls.CaptureStaysPrefixConcurrently | src/pqcap_copy_function.cpp:511-578 | over every interleaving of the steps of any calls on one file, failing ones included, the original capture stays a byte-for-byte prefix |
| ConcurrentCalls.ChecksPrecedeStores | src/pqcap_copy_function.cpp:651-672 | over every interleaving no call passes the plain-capture check after another has written the file |
| ConcurrentCalls.SerialCallsSucceedOnce | src/pqcap_copy_function.cpp:651-672 | calls that wait for one another write the file and succeed at most once |
| ConcurrentCalls.OverlappingCallsBothSucceed | src/pqcap_copy_function.cpp:651-672 | a concrete interleaving in which two calls succeed and the file ends with one index embedded behind another |
| ClassicIndexing.ClassicCallSucceedsExactly | src/pqcap_copy_function.cpp:580-663 | on a file that opens as a classic capture, a call succeeds if and only if the capture reads to a clean end, the block walk happens to find as many packets as the classic reader, no footer is there, and metadata and file can be written |
| ClassicIndexing.IndexSpoilsClassic | src/pqcap_copy_function.cpp:511-558 | after embedding into any cleanly ending classic capture the classic reader delivers its packets and then a further packet or the error of cut data, whatever the metadata |
| ClassicIndexing.WholeClassicAfterIndexing | src/pqcap_packet_table.cpp:141-182 | behind a whole last record it is the error of cut data, with no further packet, if and only if the metadata are shorter than the length that their enterprise id reads as |
| ClassicIndexing.EmptyClassicIsSpoiled | src/pqcap_copy_function.cpp:651-672 | a call on an empty classic capture of version 2.4 succeeds with no packets, and the classic reader then answers with the error of cut data |
| ClassicPcap.ClassicPcapReader.ReadGlobalHeader | src/pqcap_packet_table.cpp:57-129 | the sequential header read opens the stream, or fails on a short header or an unknown magic |
| ClassicPcap.ClassicPcapReader.ReadNext | src/pqcap_packet_table.cpp:141-198 | the four word reads and the data read deliver the next packet, the end or the error, with the new stream state |
| ClassicPcap.CaptureRoundTrip | src/pqcap_packet_table.cpp:57-198 | for each of the four magics, all records of a written capture come back with their data, lengths and times, then a clean end |
| ClassicPcap.ByteOrderIsInvisible | src/pqcap_packet_table.cpp:69-80 | big- and little-endian encodings of one capture read identically |
| ClassicPcap.TruncatedCaptureReads | src/pqcap_packet_table.cpp:141-182 | cut anywhere behind the global header, exactly the whole records before the cut, as many as there are, are read, then a clean end at a boundary or in a record header and an error inside packet data |
| ClassicPcap.EveryFileReads | src/pqcap_packet_table.cpp:141-198 | any file that opens is, behind its global header, the encoding of some records and a tail without a whole record, and reading delivers exactly those records, then a clean end for a tail shorter than a record header and an error for cut data |
| ClassicPcap.OpensExactlyWithMagic | src/pqcap_packet_table.cpp:57-129 | a file opens if and only if it starts with the bytes of one of the four magics and has 24 bytes; any other magic is unsupported, and a short file truncated |
| ClassicPcap.EndedStaysEnded | src/pqcap_packet_table.cpp:142-165 | once a call has delivered no packet, by an end or by an error, every later call answers the end |
| ClassicPcap.TimeSurvives | src/pqcap_packet_table.cpp:375-378 | the reported microseconds are the record's seconds and fraction at either resolution |
| PacketScan.PacketsGlobalState.ReadPqcapPacketsFunction | src/pqcap_packet_table.cpp:463-541 | one call fills a batch row by row, ends the scan, or throws; what the rows show is `ScanColumns.DeliveredRowsShowPackets` |
| PacketScan.BatchesCutTheList | src/pqcap_packet_table.cpp:463-541 | call n delivers exactly packets 2048n to 2048(n+1), the rest, nothing for ever after, or the error of cut data |
| PacketScan.BatchesConcatenate | src/pqcap_packet_table.cpp:463-541 | the batches put together are all packets of the capture once each and in order |
| ScanColumns.DeliveredRowsShowPackets | src/pqcap_packet_table.cpp:487-534 | row i of call n shows packet 2048 n + i in every column, told from the packet's bytes: times, lengths, the addresses of the IP header that the link layer announces, ports and protocol of the transport header behind it, and NULL ports unless TCP or UDP, NULL addresses exactly without an IP header, NULL payload exactly when nothing was captured |
| Addresses.IPv4Injective | src/pqcap_packet_table.cpp:230-232 | two IPv4 addresses print alike if and only if all bytes agree |
| Addresses.IPv6Injective | src/pqcap_packet_table.cpp:234-242 | two IPv6 addresses print alike if and only if all bytes agree |
| Addresses.FamiliesDisjoint | src/pqcap_packet_table.cpp:230-242 | no IPv4 address prints like an IPv6 address |
| Addresses.IPv4Reads | src/pqcap_packet_table.cpp:230-232 | cut at its dots, a printed IPv4 address is the four bytes in order, as decimal numerals without leading zeros |
| Addresses.IPv6Reads | src/pqcap_packet_table.cpp:234-242 | cut at its colons, a printed IPv6 address is the eight big-endian byte pairs in order, as hexadecimal numerals without leading zeros |
| Numerals.NumeralIsExact | src/pqcap_packet_table.cpp:231-241 | the numeral of a number is the one digit string without leading zeros whose value it is |
| PacketDecoder.ParseIPv4Fields | src/pqcap_packet_table.cpp:244-276 | the moving cursor stays inside the buffer and computes the parse of the remaining bytes, which `Frames` inverts |
| PacketDecoder.ParseIPv6Fields | src/pqcap_packet_table.cpp:278-306 | the moving cursor stays inside the buffer and computes the parse of the remaining bytes, which `Frames` inverts |
| PacketDecoder.ParseL4Fields | src/pqcap_packet_table.cpp:308-373 | link dispatch with a moving cursor computes the parse of the whole frame, which `ScanColumns` tells from its bytes |
| PacketDecoder.PortsExactlyForTcpAndUdp | src/pqcap_packet_table.cpp:244-373 | for every byte string and link type, ports are present if and only if the protocol is TCP or UDP, and then addresses are too |
| PacketDecoder.HexWordInjective | src/pqcap_packet_table.cpp:344-371 | the four-digit hexadecimal suffix of a protocol name determines the ether type |
| PacketDecoder.HexWordReads | src/pqcap_packet_table.cpp:344-371 | the suffix is the ether type's four upper-case hexadecimal digits, the most significant one first |
| PacketDecoder.LooksAtFirst138 | src/pqcap_packet_table.cpp:308-373 | decoding a frame equals decoding its first 138 bytes |
| PacketDecoder.PortsAreFinal | src/pqcap_packet_table.cpp:259-273 | once a prefix yields ports every extension yields the identical answer |
| Frames.LookAheadIsTight | src/pqcap_packet_table.cpp:358-366 | 138 is the best bound: a 138-byte frame has ports while its first 137 bytes do not |
| Frames.FrameRoundTrip | src/pqcap_packet_table.cpp:244-373 | decoding a built frame (Ethernet with no or one tag, SLL or raw; IPv4 with options or IPv6; TCP with options or UDP; any payload) gives the addresses and ports it was built from |
| Frames.PlainFrameRoundTrip | src/pqcap_packet_table.cpp:244-306 | decoding a frame of any protocol other than TCP and UDP, or with too few bytes for their headers, gives both addresses as built, no ports, and the numbered name |
| Frames.CutFrameRoundTrip | src/pqcap_packet_table.cpp:259-304 | decoding a frame whose TCP or UDP header is cut anywhere gives both addresses, no ports, and the numbered name, or none once 20 bytes of a TCP header are there |
| Frames.BrokenTcpRoundTrip | src/pqcap_packet_table.cpp:259-266 | a TCP header whose own length is too small or too large gives both addresses, no ports and no protocol |
| EndToEnd.IndexFindsEveryPayload | src/pqcap_copy_function.cpp:379-448 | in every reachable finalized state, the offset and size in the i-th tuple of the generated index text address exactly the i-th payload in the finished file if and only if it is shorter than 2^32 - 32 bytes |
| EndToEnd.IndexShowsEveryInput | src/pqcap_copy_function.cpp:218-448 | in every reachable finalized state, index tuple i shows the i-th accepted input row of the calls in lock order in all fifteen columns, and addresses its payload in the finished file if and only if that is shorter than 2^32 - 32 bytes |
| FinishedFiles.FinishedCopyServes | src/pqcap_copy_function.cpp:692-711 | in every reachable finalized state the finished file starts with the written capture, and locating, opening and reading its metadata returns exactly the bytes given at the end, or is refused when they are empty |
| FinishedFiles.IndexedPathServes | src/pqcap_copy_function.cpp:651-672 | after a successful call on a path the file starts with its capture, and its metadata reads back as the bytes that the call wrote |
| EndToEnd.FinishedFileScansAlike | src/pqcap_copy_function.cpp:692-711 | finalizing any chain with any rows succeeds exactly when there are as many rows as packets, and scanning the finished file gives the very locations that its index carries |
| EndToEnd.CapturedFramesAreQueryable | src/pqcap_packet_table.cpp:443-541 | any list of built frames, written as a classic capture under any of the four magics and scanned in batches, shows each frame's time at its resolution, lengths, addresses, ports and payload in order |

## Left out

- LightPcapNg's own writing and reading of pcapng, so `read_pqcap_packets` on pcapng files; only its classic branch is modelled.
- DuckDB types, binder, vectors, registration, replacement scans, path expansion, capture path resolution and column lookup.
- Option parsing in the COPY binder and the equality of bind data.
- The open flags, file opener and client context checks of `OpenFile`, and the forwarding calls to the inner file.
- Most real file I/O errors: short reads of a whole file and a write-back that stops half-way are taken not to happen; a missing
  file, a failed metadata write and a file that cannot be opened for writing are modelled for `pqcap_embed_index`.
- CopyWriter.PqcapCopyGlobalState.PcapngWriteFinalize: does not model the temporary metadata file beside the output, which the
  code writes and removes as `pqcap_embed_index` does (see `IndexVectors`).
- Allocation failure, such as a record header announcing more data than memory holds.
- The Parquet file and the temporary database: the index text is modelled up to the `VALUES` list, and its casts to column types are not.
- The conversion of scanned features back to rows in `pqcap_embed_index`: only the number of rows decides the call's outcome.
- Big-endian pcapng sections: the walk reads little-endian lengths only.
- IP fragments, IPv6 extension headers and nested VLAN tags: the decoder does not interpret them.
- Negative byte counts in sub-file reads: a count is taken as non-negative and no larger than the caller's buffer.
