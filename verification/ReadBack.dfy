/** Reading embedded metadata back: footer, location text, sub-file path and handle together. */
module ReadBack {
  import opened Bytes
  import opened Wrappers
  import opened Footer
  import opened Embed
  import opened Numerals
  import opened MetadataLocator
  import opened SubFilePath
  import opened SubFile

  datatype OpenError = BadPath(error: PathError) | CannotOpen

  /** `OpenFile`: the path is split and the underlying file opened; `files` holds what lies behind each underlying
      path.  The range is not compared with the file's size. */
  function OpenHandle(files: map<string, bytes>, path: string): Result<Handle, OpenError> {
    match OpenPath(path)
    case Err(e) => Err(BadPath(e))
    case Ok(range) =>
      if range.underlying !in files then Err(CannotOpen)
      else Ok(Handle(files[range.underlying], range.offset, range.size, 0))
  }

  lemma LocatesTail(file: bytes, loc: FooterLocator)
    requires FOOTER_BLOCK_SIZE <= |file| < POW64
    requires ParseFooterLocator(file[|file| - FOOTER_BLOCK_SIZE..]) == Some(loc) && loc.offset + loc.length <= |file|
    ensures MetadataRange(file) == if loc.length == 0 then Err(ZeroLength) else Ok(loc)
  {
    RangeCheckIsExact(loc, |file|);
    hide ParseFooterLocator, OutOfFile;
  }

  lemma OffsetDoesNotWrap(capture: bytes)
    requires |capture| + 33 < POW64
    ensures ParquetOffset(capture) == |capture| + 33
  {
  }

  /** The locator finds exactly the range that embedding filled, and refuses empty metadata. */
  lemma LocatesWhatWasEmbedded(capture: bytes, parquet: bytes)
    requires |parquet| < POW64 && EmbeddedSize(|capture|, |parquet|) < POW64
    ensures MetadataRange(Embedded(capture, parquet))
         == if parquet == [] then Err(ZeroLength) else Ok(FooterLocator(|capture| + 33, |parquet|))
  {
    hide *;
    EmbeddedTailParses(capture, parquet);
    OffsetDoesNotWrap(capture);
    LocatesTail(Embedded(capture, parquet), FooterLocator(|capture| + 33, |parquet|));
  }

  /** The handle over the embedded range lies in the file and shows the Parquet bytes. */
  lemma HandleShowsParquet(h: Handle, capture: bytes, parquet: bytes)
    requires |parquet| < POW64 && EmbeddedSize(|capture|, |parquet|) < POW63
    requires h == Handle(Embedded(capture, parquet), |capture| + 33, |parquet|, 0)
    ensures InRange(h) && View(h) == PlainFile(parquet, 0)
  {
    EmbeddedLayout(capture, parquet);
    hide Embedded;
  }

  lemma PartIsWhole(parquet: bytes, n: nat)
    requires n >= |parquet|
    ensures Part(parquet, 0, 0 + n) == parquet
  {
  }

  lemma OpensRange(files: map<string, bytes>, offset: u64, size: u64, underlying: string)
    requires underlying in files
    ensures OpenHandle(files, MacroPath(Decimal(offset) + "_" + Decimal(size), underlying))
         == Ok(Handle(files[underlying], offset, size, 0))
  {
    PathRoundTrip(offset, size, underlying);
    hide OpenPath, MacroPath, Decimal;
  }

  /** The handle that a query on a capture's metadata opens: the locator's text goes into the macro's path. */
  function OpenMetadata(files: map<string, bytes>, path: string): Option<Handle>
    requires path in files
  {
    match ParsePqcapMetadataLocation(files[path])
    case Err(_) => None
    case Ok(location) =>
      match OpenHandle(files, MacroPath(location, path))
      case Err(_) => None
      case Ok(h) => Some(h)
  }

  /** The metadata opens as the embedded range, and empty metadata does not open at all. */
  lemma OpensEmbedded(files: map<string, bytes>, path: string, capture: bytes, parquet: bytes)
    requires |parquet| < POW64 && EmbeddedSize(|capture|, |parquet|) < POW63
    requires path in files && files[path] == Embedded(capture, parquet)
    ensures OpenMetadata(files, path)
         == if parquet == [] then None else Some(Handle(files[path], |capture| + 33, |parquet|, 0))
  {
    hide Embedded, MetadataRange, OpenHandle, MacroPath, Decimal;
    LocatesWhatWasEmbedded(capture, parquet);
    if parquet != [] {
      OpensRange(files, |capture| + 33, |parquet|, path);
    }
  }

  /** For every capture, every Parquet string and every path, once the capture with its embedded metadata lies there:
      locating the metadata, building the `read_pqcap` path and opening it yields a handle unless the string is empty,
      and reading that handle in chunks of any sizes that together cover it returns exactly the Parquet bytes. */
  lemma MetadataReadBack(files: map<string, bytes>, path: string, capture: bytes, parquet: bytes, counts: seq<count>)
    requires |parquet| < POW64 && EmbeddedSize(|capture|, |parquet|) < POW63
    requires Total(counts) >= |parquet|
    ensures var h := OpenMetadata(files[path := Embedded(capture, parquet)], path);
      && (h.Some? <==> parquet != [])
      && (h.Some? ==> Drain(h.value, counts) == Some(parquet))
  {
    hide Embedded, OpenMetadata, Drain, InRange, View, Part, Total;
    OpensEmbedded(files[path := Embedded(capture, parquet)], path, capture, parquet);
    var h := Handle(Embedded(capture, parquet), |capture| + 33, |parquet|, 0);
    HandleShowsParquet(h, capture, parquet);
    DrainDelivers(h, counts);
    PartIsWhole(parquet, Total(counts));
  }

  /** Every run of operations on that handle is a run on a file that holds the Parquet bytes and nothing else. */
  lemma MetadataHandleIsParquetFile(files: map<string, bytes>, path: string,
                                    capture: bytes, parquet: bytes, ops: seq<Op>)
    requires |parquet| < POW64 && EmbeddedSize(|capture|, |parquet|) < POW63
    ensures var h := OpenMetadata(files[path := Embedded(capture, parquet)], path);
      && (h.Some? <==> parquet != [])
      && (h.Some? ==> Run(h.value, ops).1 == PlainRun(PlainFile(parquet, 0), ops).1)
  {
    hide Embedded, OpenMetadata, InRange, View, Run, PlainRun;
    OpensEmbedded(files[path := Embedded(capture, parquet)], path, capture, parquet);
    var h := Handle(Embedded(capture, parquet), |capture| + 33, |parquet|, 0);
    HandleShowsParquet(h, capture, parquet);
    HandleRefinesPlainFile(h, ops);
  }

  /** A path with an unchecked range: over a file of one byte, offset 2^64 - 1 and size 2 open without complaint, and
      reading the second byte of the range delivers the first byte of the file, which the range does not contain. */
  lemma WrappedRangeReadsOutside(underlying: string)
    ensures var path := MacroPath(Decimal(POW64 - 1) + "_" + Decimal(2), underlying);
      var h := OpenHandle(map[underlying := [7]], path);
      && h == Ok(Handle([7], POW64 - 1, 2, 0))
      && Fetch(h.value, 1, 1) == Some([7]) && ReadsOutside(h.value, 1, 1) && Fetch(h.value, 1, 0) == None
  {
    hide OpenHandle, MacroPath, Decimal, Fetch, ReadsOutside;
    OpensRange(map[underlying := [7]], POW64 - 1, 2, underlying);
    WrappedRead(Handle([7], POW64 - 1, 2, 0));
  }
}
