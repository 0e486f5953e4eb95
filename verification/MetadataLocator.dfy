/** Finding the embedded metadata from the footer: the `pqcap_offset_size` function. */
module MetadataLocator {
  import opened Bytes
  import opened Wrappers
  import opened Footer
  import opened Numerals

  datatype LocateError = FileTooSmall | InvalidFooter | ZeroLength | OutOfRange

  /** The range check on 64-bit words: the sum of offset and length is taken modulo 2^64. */
  predicate OutOfFile(loc: FooterLocator, fileSize: nat) {
    var sum := Add64(loc.offset, loc.length);
    sum < loc.offset || sum > fileSize
  }

  /** Despite the wrap-around, the check rejects exactly the ranges whose true end is past the file. */
  lemma RangeCheckIsExact(loc: FooterLocator, fileSize: nat)
    requires fileSize < POW64
    ensures OutOfFile(loc, fileSize) <==> loc.offset + loc.length > fileSize
  {
  }

  function MetadataRange(file: bytes): Result<FooterLocator, LocateError> {
    if |file| < FOOTER_BLOCK_SIZE then Err(FileTooSmall)
    else
      match ParseFooterLocator(file[|file| - FOOTER_BLOCK_SIZE..])
      case None => Err(InvalidFooter)
      case Some(loc) =>
        if loc.length == 0 then Err(ZeroLength)
        else if OutOfFile(loc, |file|) then Err(OutOfRange)
        else Ok(loc)
  }

  /** The `offset_length` text that goes into the sub-file path. */
  function ParsePqcapMetadataLocation(file: bytes): Result<string, LocateError> {
    match MetadataRange(file)
    case Err(e) => Err(e)
    case Ok(loc) => Ok(Decimal(loc.offset) + "_" + Decimal(loc.length))
  }

  /** A range is located exactly when the file ends in its footer encoding, it is not empty, and its true
      end (the integer sum, not the wrapped one) lies inside the file. */
  lemma LocatorIsExact(file: bytes, loc: FooterLocator)
    requires |file| < POW64
    ensures MetadataRange(file) == Ok(loc) <==>
      && |file| >= FOOTER_BLOCK_SIZE
      && (exists version: u16, flags: u16 :: version <= 1
            && file[|file| - FOOTER_BLOCK_SIZE..] == FooterBlock(version, flags, loc.offset, loc.length))
      && loc.length > 0
      && loc.offset + loc.length <= |file|
  {
    hide FooterBlock, ParseFooterLocator, OutOfFile;
    if |file| >= FOOTER_BLOCK_SIZE {
      FooterParserIsExact(file[|file| - FOOTER_BLOCK_SIZE..], loc);
      RangeCheckIsExact(loc, |file|);
    }
  }

  /** Why a file is refused: it is too short for a footer, has none, or its footer gives an empty range or one that
      truly ends past the file. */
  lemma RefusalIsExact(file: bytes)
    requires |file| < POW64 && MetadataRange(file).Err?
    ensures var error := MetadataRange(file).error;
      && (error == FileTooSmall <==> |file| < FOOTER_BLOCK_SIZE)
      && (error == InvalidFooter <==> |file| >= FOOTER_BLOCK_SIZE && forall loc: FooterLocator :: !HasFooter(file, loc))
      && (error == ZeroLength <==> exists loc: FooterLocator :: HasFooter(file, loc) && loc.length == 0)
      && (error == OutOfRange
          <==> exists loc: FooterLocator :: HasFooter(file, loc) && loc.length > 0 && loc.offset + loc.length > |file|)
  {
    hide ParseFooterLocator, OutOfFile, HasFooter;
    if |file| >= FOOTER_BLOCK_SIZE {
      forall loc: FooterLocator
        ensures HasFooter(file, loc) <==> ParseFooterLocator(file[|file| - FOOTER_BLOCK_SIZE..]) == Some(loc)
      {
        FooterOf(file, loc);
      }
      forall loc: FooterLocator
        ensures OutOfFile(loc, |file|) <==> loc.offset + loc.length > |file|
      {
        RangeCheckIsExact(loc, |file|);
      }
      RefusalByFooter(file);
    } else {
      forall loc: FooterLocator
        ensures !HasFooter(file, loc)
      {
        FooterNeedsRoom(file, loc);
      }
    }
  }

  /** The file ends in the footer encoding of the locator. */
  ghost predicate HasFooter(file: bytes, loc: FooterLocator) {
    && |file| >= FOOTER_BLOCK_SIZE
    && exists version: u16, flags: u16 :: version <= 1
         && file[|file| - FOOTER_BLOCK_SIZE..] == FooterBlock(version, flags, loc.offset, loc.length)
  }

  lemma FooterNeedsRoom(file: bytes, loc: FooterLocator)
    requires |file| < FOOTER_BLOCK_SIZE
    ensures !HasFooter(file, loc)
  {
  }

  lemma FooterOf(file: bytes, loc: FooterLocator)
    requires |file| >= FOOTER_BLOCK_SIZE
    ensures HasFooter(file, loc) <==> ParseFooterLocator(file[|file| - FOOTER_BLOCK_SIZE..]) == Some(loc)
  {
    hide FooterBlock, ParseFooterLocator;
    FooterParserIsExact(file[|file| - FOOTER_BLOCK_SIZE..], loc);
  }

  lemma RefusalByFooter(file: bytes)
    requires FOOTER_BLOCK_SIZE <= |file| < POW64 && MetadataRange(file).Err?
    requires forall loc: FooterLocator ::
      HasFooter(file, loc) <==> ParseFooterLocator(file[|file| - FOOTER_BLOCK_SIZE..]) == Some(loc)
    requires forall loc: FooterLocator :: OutOfFile(loc, |file|) <==> loc.offset + loc.length > |file|
    ensures var error := MetadataRange(file).error;
      && error != FileTooSmall
      && (error == InvalidFooter <==> forall loc: FooterLocator :: !HasFooter(file, loc))
      && (error == ZeroLength <==> exists loc: FooterLocator :: HasFooter(file, loc) && loc.length == 0)
      && (error == OutOfRange
          <==> exists loc: FooterLocator :: HasFooter(file, loc) && loc.length > 0 && loc.offset + loc.length > |file|)
  {
    hide ParseFooterLocator, OutOfFile, HasFooter;
    var parsed := ParseFooterLocator(file[|file| - FOOTER_BLOCK_SIZE..]);
    if parsed.Some? {
      assert HasFooter(file, parsed.value);
    }
  }
}
