/** The path text `pqcap-subfile://<offset>_<size>!<underlying path>`. */
module SubFilePath {
  import opened Bytes
  import opened Wrappers
  import opened Numerals

  const PREFIX: string := "pqcap-subfile://"

  datatype Field = OffsetField | SizeField

  datatype PathError =
    | NotASubFilePath
    | MissingBang
    | MissingUnderscore
    | EmptyNumber(field: Field)
    | NonDigit(field: Field)
    | ExceedsUint64(field: Field)

  datatype SubFileRange = SubFileRange(offset: u64, size: u64, underlying: string)

  predicate CanHandleFile(path: string) {
    |path| > |PREFIX| && path[..|PREFIX|] == PREFIX
  }

  /** What a digit string of the path denotes. */
  function DecimalOf(s: string, field: Field): Result<u64, PathError> {
    if s == [] then Err(EmptyNumber(field))
    else if !AllDigits(s, 10) then Err(NonDigit(field))
    else if Value(s, 10) >= POW64 then Err(ExceedsUint64(field))
    else Ok(Value(s, 10))
  }

  /** The digit check is a loop over the characters; `std::stoull` on a string of digits yields its value or
      reports that it is out of range. */
  method ParseDecimalUint64(s: string, field: Field) returns (r: Result<u64, PathError>)
    ensures r.Ok? <==> s != [] && AllDigits(s, 10) && Value(s, 10) < POW64
    ensures r == DecimalOf(s, field)
  {
    if |s| == 0 {
      return Err(EmptyNumber(field));
    }
    for i := 0 to |s|
      invariant forall k | 0 <= k < i :: IsDigit(s[k], 10)
    {
      var c := s[i];
      if c < '0' || c > '9' {
        return Err(NonDigit(field));
      }
    }
    var v := Value(s, 10);
    if v >= POW64 {
      return Err(ExceedsUint64(field));
    }
    return Ok(v);
  }

  /** The path splitting of `OpenFile`. */
  function OpenPath(path: string): Result<SubFileRange, PathError> {
    if !CanHandleFile(path) then Err(NotASubFilePath)
    else
      var stripped := path[|PREFIX|..];
      var bang := Find(stripped, '!');
      if bang < 0 then Err(MissingBang)
      else
        var header, underlying := stripped[..bang], stripped[bang + 1..];
        var underscore := Find(header, '_');
        if underscore < 0 then Err(MissingUnderscore)
        else
          match DecimalOf(header[..underscore], OffsetField)
          case Err(e) => Err(e)
          case Ok(offset) =>
            match DecimalOf(header[underscore + 1..], SizeField)
            case Err(e) => Err(e)
            case Ok(size) => Ok(SubFileRange(offset, size, underlying))
  }

  /** The path that the `read_pqcap` macro builds from the location text and the file's own path. */
  function MacroPath(location: string, underlying: string): string {
    PREFIX + location + "!" + underlying
  }

  /** The digit strings denote the range's two numbers. */
  predicate Denotes(offsetDigits: string, sizeDigits: string, range: SubFileRange) {
    && offsetDigits != [] && AllDigits(offsetDigits, 10) && Value(offsetDigits, 10) == range.offset
    && sizeDigits != [] && AllDigits(sizeDigits, 10) && Value(sizeDigits, 10) == range.size
  }

  lemma DenotesDecimals(offsetDigits: string, sizeDigits: string, range: SubFileRange)
    ensures Denotes(offsetDigits, sizeDigits, range) <==>
      DecimalOf(offsetDigits, OffsetField) == Ok(range.offset) && DecimalOf(sizeDigits, SizeField) == Ok(range.size)
  {
    hide Value;
  }

  lemma OpensWhatWasBuilt(offsetDigits: string, sizeDigits: string, range: SubFileRange)
    requires Denotes(offsetDigits, sizeDigits, range)
    ensures OpenPath(MacroPath(offsetDigits + "_" + sizeDigits, range.underlying)) == Ok(range)
  {
    DenotesDecimals(offsetDigits, sizeDigits, range);
    var header := offsetDigits + "_" + sizeDigits;
    var path := MacroPath(header, range.underlying);
    NotADigit(offsetDigits, 10, '!');
    NotADigit(sizeDigits, 10, '!');
    NotADigit(offsetDigits, 10, '_');
    FindAfter(header, '!', range.underlying);
    FindAfter(offsetDigits, '_', sizeDigits);
    hide Find, DecimalOf;
    var stripped := header + "!" + range.underlying;
    assert path == PREFIX + stripped;
    assert path[..|PREFIX|] == PREFIX && path[|PREFIX|..] == stripped;
    assert stripped[..|header|] == header && stripped[|header| + 1..] == range.underlying;
    assert header[..|offsetDigits|] == offsetDigits && header[|offsetDigits| + 1..] == sizeDigits;
  }

  lemma BuiltFromWhatOpens(path: string, range: SubFileRange) returns (offsetDigits: string, sizeDigits: string)
    requires OpenPath(path) == Ok(range)
    ensures Denotes(offsetDigits, sizeDigits, range)
    ensures path == MacroPath(offsetDigits + "_" + sizeDigits, range.underlying)
  {
    hide DecimalOf;
    var stripped := path[|PREFIX|..];
    var bang := Find(stripped, '!');
    var header := stripped[..bang];
    var underscore := Find(header, '_');
    offsetDigits, sizeDigits := header[..underscore], header[underscore + 1..];
    DenotesDecimals(offsetDigits, sizeDigits, range);
    assert header == offsetDigits + "_" + sizeDigits;
    assert stripped == header + "!" + range.underlying;
    assert path == PREFIX + stripped;
  }

  /** A path opens as a range exactly when it is the prefix, a digit string for the offset, `_`, a digit string
      for the size, `!`, and the underlying path; the first `!` and the first `_` are the separators whatever the
      underlying path contains. */
  lemma OpenPathIsExact(path: string, range: SubFileRange)
    ensures OpenPath(path) == Ok(range) <==>
      exists o: string, s: string :: Denotes(o, s, range) && path == MacroPath(o + "_" + s, range.underlying)
  {
    hide Denotes, OpenPath;
    if OpenPath(path) == Ok(range) {
      var o, s := BuiltFromWhatOpens(path, range);
    }
    if o: string, s: string :| Denotes(o, s, range) && path == MacroPath(o + "_" + s, range.underlying) {
      OpensWhatWasBuilt(o, s, range);
    }
  }

  /** Every pair of 64-bit numbers and every underlying path survive the trip through the path text. */
  lemma PathRoundTrip(offset: u64, size: u64, underlying: string)
    ensures OpenPath(MacroPath(Decimal(offset) + "_" + Decimal(size), underlying))
         == Ok(SubFileRange(offset, size, underlying))
  {
    ValueOfNumeral(offset, 10);
    ValueOfNumeral(size, 10);
    OpensWhatWasBuilt(Decimal(offset), Decimal(size), SubFileRange(offset, size, underlying));
  }

  /** The part of a path behind the prefix and before the first `!`. */
  function Header(path: string): string
    requires CanHandleFile(path)
  {
    Split(path[|PREFIX|..], '!')[0]
  }

  lemma FirstPart(s: string, c: char)
    ensures Find(s, c) < 0 ==> c !in s && Split(s, c)[0] == s
    ensures Find(s, c) >= 0 ==> c in s && Split(s, c)[0] == s[..Find(s, c)]
  {
    hide Find;
  }

  /** Why a path is refused, in the order of the checks: it lacks the prefix or anything behind it, has no `!`, has no
      `_` before the first `!`, or one of its two numbers is empty, has a character that is no digit, or is 2^64 or
      more. */
  lemma RefusalIsExact(path: string)
    requires OpenPath(path).Err?
    ensures var error := OpenPath(path).error;
      && (error == NotASubFilePath <==> !(PREFIX < path))
      && (error == MissingBang <==> PREFIX < path && '!' !in path[|PREFIX|..])
      && (error == MissingUnderscore <==> PREFIX < path && '!' in path[|PREFIX|..] && '_' !in Header(path))
      && (PREFIX < path && '!' in path[|PREFIX|..] && '_' in Header(path) ==>
            var offset := Split(Header(path), '_')[0];
            |offset| < |Header(path)| && NumberError(offset, Header(path)[|offset| + 1..], error))
  {
    hide Find, Split, OpenPath, NumberError, CanHandleFile;
    PrefixOf(path);
    if CanHandleFile(path) {
      var stripped := path[|PREFIX|..];
      FirstPart(stripped, '!');
      var bang := Find(stripped, '!');
      if bang < 0 {
        OpensWithoutBang(path);
      } else {
        FirstPart(Header(path), '_');
        OpensWithBang(path, stripped[..bang]);
      }
    } else {
      OpensWithoutPrefix(path);
    }
  }

  lemma OpensWithoutPrefix(path: string)
    requires !CanHandleFile(path)
    ensures OpenPath(path) == Err(NotASubFilePath)
  {
    hide CanHandleFile;
  }

  lemma OpensWithoutBang(path: string)
    requires CanHandleFile(path) && Find(path[|PREFIX|..], '!') < 0
    ensures OpenPath(path) == Err(MissingBang)
  {
    hide Find;
  }

  lemma OpensWithBang(path: string, header: string)
    requires CanHandleFile(path) && OpenPath(path).Err? && Find(path[|PREFIX|..], '!') >= 0
    requires header == path[|PREFIX|..][..Find(path[|PREFIX|..], '!')]
    ensures var u := Find(header, '_');
      && OpenPath(path).error != NotASubFilePath && OpenPath(path).error != MissingBang
      && (u < 0 <==> OpenPath(path).error == MissingUnderscore)
      && (u >= 0 ==> NumberError(header[..u], header[u + 1..], OpenPath(path).error))
  {
    hide Find, DecimalOf, NumberError;
    var u := Find(header, '_');
    if u >= 0 {
      NumberErrors(header[..u], header[u + 1..]);
      NumberErrorIsOther(header[..u], header[u + 1..], OpenPath(path).error);
    }
  }

  lemma NumberErrorIsOther(offset: string, size: string, error: PathError)
    ensures NumberError(offset, size, error) ==>
      error != NotASubFilePath && error != MissingBang && error != MissingUnderscore
  {
    hide Fault;
  }

  lemma PrefixOf(path: string)
    ensures CanHandleFile(path) <==> PREFIX < path
  {
  }

  /** The error of the first of two numbers that is at fault. */
  predicate NumberError(offset: string, size: string, error: PathError) {
    if Fault(offset).Some?
    then error == WithField(Fault(offset).value, OffsetField)
    else Fault(size).Some? && error == WithField(Fault(size).value, SizeField)
  }

  datatype NumberFault = Empty | NotDigits | TooLarge

  /** What is wrong with a number, if anything. */
  function Fault(s: string): Option<NumberFault> {
    if s == "" then Some(Empty)
    else if exists i | 0 <= i < |s| :: !('0' <= s[i] <= '9') then Some(NotDigits)
    else if Value(s, 10) >= POW64 then Some(TooLarge)
    else None
  }

  function WithField(fault: NumberFault, field: Field): PathError {
    match fault
    case Empty => EmptyNumber(field)
    case NotDigits => NonDigit(field)
    case TooLarge => ExceedsUint64(field)
  }

  lemma FaultOfNumber(s: string, field: Field)
    ensures DecimalOf(s, field).Ok? <==> Fault(s).None?
    ensures Fault(s).Some? ==> DecimalOf(s, field) == Err(WithField(Fault(s).value, field))
  {
    hide Value;
  }

  lemma NumberErrors(offset: string, size: string)
    ensures DecimalOf(offset, OffsetField).Err? ==> NumberError(offset, size, DecimalOf(offset, OffsetField).error)
    ensures DecimalOf(offset, OffsetField).Ok? && DecimalOf(size, SizeField).Err?
      ==> NumberError(offset, size, DecimalOf(size, SizeField).error)
  {
    FaultOfNumber(offset, OffsetField);
    FaultOfNumber(size, SizeField);
    hide DecimalOf, Fault;
  }
}
