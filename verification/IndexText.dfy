/** The rows of the metadata index as SQL text, and what that text means. */
module IndexText {
  import opened Bytes
  import opened Wrappers
  import opened Numerals
  import opened Blocks
  import opened CopyWriter

  // ----- the text that the code builds -----

  function SqlEscape(s: string): string {
    if s == [] then [] else (if s[0] == '\'' then "''" else [s[0]]) + SqlEscape(s[1..])
  }

  /** A string column that is NULL when empty. */
  function OptionalText(s: string): string {
    if s == "" then "NULL" else "'" + SqlEscape(s) + "'"
  }

  function PortText(p: Option<u32>): string {
    if p.Some? then Decimal(p.value) else "NULL"
  }

  function Linktype(row: PacketRow, default: u16): u16 {
    if row.dataLink != 0 then row.dataLink else default
  }

  function CapturedText(row: PacketRow, loc: Location): string {
    Decimal(if row.capturedLength != 0 then row.capturedLength else loc.size)
  }

  // The tuple of row `i` in three stretches of five columns.

  function FrameText(i: nat, row: PacketRow): string {
    "(" + Decimal(i + 1) + "," + Decimal(Wrap64(row.tsMicros * 1000)) + ",'"
    + SqlEscape(if row.protocols == "" then "unknown" else row.protocols) + "',"
    + OptionalText(row.srcIp) + "," + PortText(row.srcPort)
  }

  function FlowText(row: PacketRow, loc: Location, default: u16): string {
    OptionalText(row.dstIp) + "," + PortText(row.dstPort) + ","
    + Decimal(row.interfaceId) + "," + Decimal(Linktype(row, default)) + "," + CapturedText(row, loc)
  }

  function PlaceText(row: PacketRow, loc: Location, default: u16): string {
    Decimal(row.origLen) + "," + OptionalText(row.comment) + ","
    + Decimal(loc.offset) + "," + Decimal(loc.size) + "," + Decimal(Linktype(row, default))
  }

  function RowText(i: nat, row: PacketRow, loc: Location, default: u16): string {
    FrameText(i, row) + "," + FlowText(row, loc, default) + "," + PlaceText(row, loc, default) + ")"
  }

  /** The tuples of rows `0..n`, separated by commas. */
  function ValuesText(rows: seq<PacketRow>, locs: seq<Location>, default: u16, n: nat): string
    requires |rows| == |locs| && n <= |rows|
  {
    if n == 0 then ""
    else
      ValuesText(rows, locs, default, n - 1) + (if n > 1 then "," else "")
      + RowText(n - 1, rows[n - 1], locs[n - 1], default)
  }

  datatype IndexTextError = SizeMismatch

  /** The loop that builds the text after `VALUES`; without rows nothing is inserted. */
  method BuildValues(rows: seq<PacketRow>, locs: seq<Location>, default: u16)
    returns (r: Result<string, IndexTextError>)
    ensures r.Err? <==> |rows| != |locs|
    ensures r.Ok? ==> r.value == ValuesText(rows, locs, default, |rows|)
  {
    if |rows| != |locs| {
      return Err(SizeMismatch);
    }
    var sql := "";
    for i := 0 to |rows|
      invariant sql == ValuesText(rows, locs, default, i)
    {
      hide RowText;
      if i > 0 {
        sql := sql + ",";
      } else {
        assert "" + "" == "";
      }
      sql := sql + RowText(i, rows[i], locs[i], default);
    }
    r := Ok(sql);
  }

  // ----- what the text ought to mean -----

  datatype Field = NullField | NumberField(n: nat) | TextField(s: string)

  function OptionalField(s: string): Field {
    if s == "" then NullField else TextField(s)
  }

  function PortField(p: Option<u32>): Field {
    if p.Some? then NumberField(p.value) else NullField
  }

  /** Frame number, time stamp in nanoseconds, protocols and source. */
  function FrameFields(i: nat, row: PacketRow): seq<Field> {
    [NumberField(i + 1),
     NumberField(Wrap64(row.tsMicros * 1000)),
     TextField(if row.protocols == "" then "unknown" else row.protocols),
     OptionalField(row.srcIp),
     PortField(row.srcPort)]
  }

  /** Destination, interface, link type and captured length. */
  function FlowFields(row: PacketRow, loc: Location, default: u16): seq<Field> {
    [OptionalField(row.dstIp),
     PortField(row.dstPort),
     NumberField(row.interfaceId),
     NumberField(Linktype(row, default)),
     NumberField(if row.capturedLength != 0 then row.capturedLength else loc.size)]
  }

  /** Original length, comment, place in the file and link type again. */
  function PlaceFields(row: PacketRow, loc: Location, default: u16): seq<Field> {
    [NumberField(row.origLen),
     OptionalField(row.comment),
     NumberField(loc.offset),
     NumberField(loc.size),
     NumberField(Linktype(row, default))]
  }

  /** The fifteen columns of an index row. */
  function IndexFields(i: nat, row: PacketRow, loc: Location, default: u16): (fields: seq<Field>)
    ensures |fields| == 15 && fields[12] == NumberField(loc.offset) && fields[13] == NumberField(loc.size)
  {
    FrameFields(i, row) + (FlowFields(row, loc, default) + PlaceFields(row, loc, default))
  }

  // ----- an independent reader of tuple lists -----

  /** The rest of a string literal after its opening quote: a doubled quote is a quote, a single one ends it. */
  function ParseQuoted(s: string): (r: Option<(string, string)>)
    ensures r.Some? ==> |r.value.1| < |s|
  {
    if s == [] then None
    else if s[0] != '\'' then
      match ParseQuoted(s[1..])
      case None => None
      case Some((text, rest)) => Some(([s[0]] + text, rest))
    else if |s| > 1 && s[1] == '\'' then
      match ParseQuoted(s[2..])
      case None => None
      case Some((text, rest)) => Some((['\''] + text, rest))
    else Some(("", s[1..]))
  }

  /** The length of the longest prefix of digits. */
  function DigitRun(s: string): (n: nat)
    ensures n <= |s| && AllDigits(s[..n], 10)
  {
    if s == [] || !IsDigit(s[0], 10) then 0
    else
      var n := DigitRun(s[1..]);
      assert s[..n + 1] == [s[0]] + s[1..][..n];
      n + 1
  }

  function ParseField(s: string): (r: Option<(Field, string)>)
    ensures r.Some? ==> |r.value.1| < |s|
  {
    if s == [] then None
    else if s[0] == '\'' then
      match ParseQuoted(s[1..])
      case None => None
      case Some((text, rest)) => Some((TextField(text), rest))
    else if "NULL" <= s then Some((NullField, s[4..]))
    else
      var n := DigitRun(s);
      if n == 0 then None else Some((NumberField(Value(s[..n], 10)), s[n..]))
  }

  /** Fields separated by commas up to a closing bracket. */
  function ParseFields(s: string): (r: Option<(seq<Field>, string)>)
    ensures r.Some? ==> |r.value.1| < |s|
    decreases |s|
  {
    match ParseField(s)
    case None => None
    case Some((f, rest)) =>
      if rest == [] then None
      else if rest[0] == ')' then Some(([f], rest[1..]))
      else if rest[0] != ',' then None
      else
        match ParseFields(rest[1..])
        case None => None
        case Some((fs, rest')) => Some(([f] + fs, rest'))
  }

  /** Bracketed tuples separated by commas up to the end of the text. */
  function ParseTuples(s: string): Option<seq<seq<Field>>>
    decreases |s|
  {
    if s == [] || s[0] != '(' then None
    else
      match ParseFields(s[1..])
      case None => None
      case Some((fields, rest)) =>
        if rest == [] then Some([fields])
        else if rest[0] != ',' then None
        else
          match ParseTuples(rest[1..])
          case None => None
          case Some(tuples) => Some([fields] + tuples)
  }

  // ----- the reader understands the text -----

  function FieldText(f: Field): string {
    match f
    case NullField => "NULL"
    case NumberField(n) => Decimal(n)
    case TextField(s) => "'" + SqlEscape(s) + "'"
  }

  function FieldsText(fs: seq<Field>): string
    requires fs != []
  {
    if |fs| == 1 then FieldText(fs[0]) else FieldText(fs[0]) + "," + FieldsText(fs[1..])
  }

  /** Whatever quotes a string contains, its escaped literal reads back as the string. */
  lemma {:induction false} QuotedRoundTrip(s: string, rest: string)
    requires rest == [] || rest[0] != '\''
    ensures ParseQuoted(SqlEscape(s) + "'" + rest) == Some((s, rest))
  {
    var t := SqlEscape(s) + "'" + rest;
    if s == [] {
      assert t == "'" + rest;
    } else {
      QuotedRoundTrip(s[1..], rest);
      assert s == [s[0]] + s[1..];
      var tail := SqlEscape(s[1..]) + "'" + rest;
      if s[0] == '\'' {
        assert t == "''" + tail && t[2..] == tail;
      } else {
        assert t == [s[0]] + tail && t[1..] == tail;
      }
    }
  }

  lemma {:induction false} DigitRunStops(d: string, rest: string)
    requires AllDigits(d, 10) && (rest == [] || !IsDigit(rest[0], 10))
    ensures DigitRun(d + rest) == |d|
  {
    if d == [] {
      assert d + rest == rest;
    } else {
      assert (d + rest)[1..] == d[1..] + rest;
      DigitRunStops(d[1..], rest);
    }
  }

  /** A character that may follow a field. */
  predicate EndsField(rest: string) {
    rest != [] && (rest[0] == ',' || rest[0] == ')')
  }

  lemma NumberRoundTrip(n: nat, rest: string)
    requires EndsField(rest)
    ensures ParseField(Decimal(n) + rest) == Some((NumberField(n), rest))
  {
    var d := Decimal(n);
    DigitRunStops(d, rest);
    ValueOfNumeral(n, 10);
    hide Numeral, Value, DigitRun;
    var s := d + rest;
    assert s[..|d|] == d && s[|d|..] == rest;
    assert IsDigit(s[0], 10) && s[0] == d[0];
  }

  lemma TextRoundTrip(text: string, rest: string)
    requires EndsField(rest)
    ensures ParseField("'" + SqlEscape(text) + "'" + rest) == Some((TextField(text), rest))
  {
    QuotedRoundTrip(text, rest);
    hide SqlEscape, ParseQuoted, DigitRun;
    var s, t := "'" + SqlEscape(text) + "'" + rest, SqlEscape(text) + "'" + rest;
    assert s[0] == '\'' && s[1..] == t;
  }

  lemma NullRoundTrip(rest: string)
    ensures ParseField("NULL" + rest) == Some((NullField, rest))
  {
    hide ParseQuoted, DigitRun;
    var s := "NULL" + rest;
    assert s[..4] == "NULL" && s[4..] == rest && s[0] == 'N';
  }

  lemma FieldRoundTrip(f: Field, rest: string)
    requires EndsField(rest)
    ensures ParseField(FieldText(f) + rest) == Some((f, rest))
  {
    hide ParseField, EndsField, Decimal;
    match f
    case NullField => NullRoundTrip(rest);
    case NumberField(n) => NumberRoundTrip(n, rest);
    case TextField(s) => TextRoundTrip(s, rest);
  }

  lemma {:induction false} FieldsRoundTrip(fs: seq<Field>, rest: string)
    requires fs != []
    ensures ParseFields(FieldsText(fs) + ")" + rest) == Some((fs, rest))
    decreases |fs|
  {
    hide ParseField, FieldText;
    var t := FieldText(fs[0]);
    if |fs| == 1 {
      assert FieldsText(fs) + ")" + rest == t + (")" + rest);
      FieldRoundTrip(fs[0], ")" + rest);
      assert (")" + rest)[1..] == rest && fs == [fs[0]];
    } else {
      FieldsRoundTrip(fs[1..], rest);
      assert fs == [fs[0]] + fs[1..];
      var tail := FieldsText(fs[1..]) + ")" + rest;
      assert FieldsText(fs) + ")" + rest == t + ("," + tail);
      FieldRoundTrip(fs[0], "," + tail);
      assert ("," + tail)[1..] == tail;
    }
  }

  // ----- the tuple text, field by field -----

  lemma OptionalTextIsField(s: string)
    ensures OptionalText(s) == FieldText(OptionalField(s))
  {
  }

  lemma FieldsTextCons(f: Field, fs: seq<Field>)
    requires fs != []
    ensures FieldsText([f] + fs) == FieldText(f) + "," + FieldsText(fs)
  {
    assert ([f] + fs)[1..] == fs;
  }

  lemma {:induction false} FieldsTextAppend(xs: seq<Field>, ys: seq<Field>)
    requires xs != [] && ys != []
    ensures FieldsText(xs + ys) == FieldsText(xs) + "," + FieldsText(ys)
    decreases |xs|
  {
    hide FieldText;
    if |xs| == 1 {
      assert xs == [xs[0]];
      FieldsTextCons(xs[0], ys);
    } else {
      FieldsTextAppend(xs[1..], ys);
      hide FieldsText;
      assert xs == [xs[0]] + xs[1..];
      assert xs + ys == [xs[0]] + (xs[1..] + ys);
      FieldsTextCons(xs[0], xs[1..]);
      FieldsTextCons(xs[0], xs[1..] + ys);
      var a, b, c := FieldText(xs[0]), FieldsText(xs[1..]), FieldsText(ys);
      assert a + "," + (b + "," + c) == a + "," + b + "," + c;
    }
  }

  lemma FieldsText2(a: Field, b: Field)
    ensures FieldsText([a, b]) == FieldText(a) + "," + FieldText(b)
  {
    hide FieldText;
    assert [a, b][1..] == [b];
  }

  lemma FieldsText3(a: Field, b: Field, c: Field)
    ensures FieldsText([a, b, c]) == FieldText(a) + "," + FieldText(b) + "," + FieldText(c)
  {
    hide *;
    FieldsText2(a, b);
    FieldsTextAppend([a, b], [c]);
    OneField(c);
    assert [a, b] + [c] == [a, b, c];
  }

  lemma OneField(c: Field)
    ensures FieldsText([c]) == FieldText(c)
  {
  }

  lemma FieldsText5(a: Field, b: Field, c: Field, d: Field, e: Field)
    ensures FieldsText([a, b, c, d, e])
         == FieldText(a) + "," + FieldText(b) + "," + FieldText(c) + "," + FieldText(d) + "," + FieldText(e)
  {
    hide *;
    FieldsText3(a, b, c);
    FieldsText2(d, e);
    FieldsTextAppend([a, b, c], [d, e]);
    assert [a, b, c] + [d, e] == [a, b, c, d, e];
    var x, y, z := FieldText(a) + "," + FieldText(b) + "," + FieldText(c), FieldText(d), FieldText(e);
    assert x + "," + (y + "," + z) == x + "," + y + "," + z;
  }

  lemma FrameShape(a: string, e: string, b: string)
    ensures a + ",'" + e + "'," + b == a + "," + ("'" + e + "'") + "," + b
  {
    assert a + ",'" + e + "'," == a + "," + ("'" + e + "'") + ",";
  }

  lemma Brackets(a: string, b: string, c: string, d: string, e: string)
    ensures "(" + a + "," + b + "," + c + "," + d + "," + e == "(" + (a + "," + b + "," + c + "," + d + "," + e)
  {
    assert "(" + a + "," + b == "(" + (a + "," + b);
    assert "(" + (a + "," + b) + "," + c == "(" + (a + "," + b + "," + c);
    assert "(" + (a + "," + b + "," + c) + "," + d == "(" + (a + "," + b + "," + c + "," + d);
  }

  lemma FrameTextIsFields(i: nat, row: PacketRow)
    ensures FrameText(i, row) == "(" + FieldsText(FrameFields(i, row))
  {
    hide Decimal, SqlEscape, FieldsText, Wrap64, OptionalText, PortText;
    var fs := FrameFields(i, row);
    var e := SqlEscape(if row.protocols == "" then "unknown" else row.protocols);
    FieldsText5(fs[0], fs[1], fs[2], fs[3], fs[4]);
    OptionalTextIsField(row.srcIp);
    PortTextIsField(row.srcPort);
    FrameShape("(" + Decimal(i + 1) + "," + Decimal(Wrap64(row.tsMicros * 1000)), e, OptionalText(row.srcIp));
    Brackets(Decimal(i + 1), Decimal(Wrap64(row.tsMicros * 1000)), "'" + e + "'",
             OptionalText(row.srcIp), PortText(row.srcPort));
  }

  lemma PortTextIsField(p: Option<u32>)
    ensures PortText(p) == FieldText(PortField(p))
  {
  }

  lemma FlowTextIsFields(row: PacketRow, loc: Location, default: u16)
    ensures FlowText(row, loc, default) == FieldsText(FlowFields(row, loc, default))
  {
    var fs := FlowFields(row, loc, default);
    FieldsText5(fs[0], fs[1], fs[2], fs[3], fs[4]);
    hide Decimal, SqlEscape, FieldsText;
  }

  lemma PlaceTextIsFields(row: PacketRow, loc: Location, default: u16)
    ensures PlaceText(row, loc, default) == FieldsText(PlaceFields(row, loc, default))
  {
    var fs := PlaceFields(row, loc, default);
    FieldsText5(fs[0], fs[1], fs[2], fs[3], fs[4]);
    hide Decimal, SqlEscape, FieldsText;
  }

  lemma ThreeStretches(x: seq<Field>, y: seq<Field>, z: seq<Field>)
    requires x != [] && y != [] && z != []
    ensures "(" + FieldsText(x + (y + z)) == "(" + FieldsText(x) + "," + FieldsText(y) + "," + FieldsText(z)
  {
    hide *;
    FieldsTextAppend(x, y + z);
    FieldsTextAppend(y, z);
    var a, b, c := FieldsText(x), FieldsText(y), FieldsText(z);
    assert "(" + a + "," + (b + "," + c) == "(" + (a + "," + (b + "," + c));
    assert "(" + a + "," + (b + "," + c) == "(" + a + "," + b + "," + c;
  }

  /** The text that the code concatenates is the bracketed, comma-separated text of the fifteen columns. */
  lemma RowTextIsFields(i: nat, row: PacketRow, loc: Location, default: u16)
    ensures RowText(i, row, loc, default) == "(" + FieldsText(IndexFields(i, row, loc, default)) + ")"
  {
    hide FrameText, FlowText, PlaceText, FieldsText;
    FrameTextIsFields(i, row);
    FlowTextIsFields(row, loc, default);
    PlaceTextIsFields(row, loc, default);
    ThreeStretches(FrameFields(i, row), FlowFields(row, loc, default), PlaceFields(row, loc, default));
  }

  // ----- the whole list -----

  function IndexRows(rows: seq<PacketRow>, locs: seq<Location>, default: u16, n: nat): (r: seq<seq<Field>>)
    requires |rows| == |locs| && n <= |rows|
    ensures |r| == n
  {
    seq(n, i requires 0 <= i < n => IndexFields(i, rows[i], locs[i], default))
  }

  /** Tuples `from..n` as text. */
  function TuplesText(tuples: seq<seq<Field>>): string
    requires tuples != [] && forall i | 0 <= i < |tuples| :: tuples[i] != []
  {
    "(" + FieldsText(tuples[0]) + ")" + (if |tuples| == 1 then "" else "," + TuplesText(tuples[1..]))
  }

  lemma LastTuple(t: string, fs: seq<Field>)
    requires ParseFields(t + ")") == Some((fs, ""))
    ensures ParseTuples("(" + t + ")") == Some([fs])
  {
    hide ParseFields;
    var s := "(" + t + ")";
    assert s[1..] == t + ")";
  }

  lemma TupleThen(t: string, fs: seq<Field>, more: string, tuples: seq<seq<Field>>)
    requires ParseFields(t + ")" + ("," + more)) == Some((fs, "," + more)) && ParseTuples(more) == Some(tuples)
    ensures ParseTuples("(" + t + ")" + ("," + more)) == Some([fs] + tuples)
  {
    hide ParseFields;
    var s := "(" + t + ")" + ("," + more);
    assert s[1..] == t + ")" + ("," + more);
    assert ("," + more)[1..] == more;
  }

  lemma {:induction false} TuplesRoundTrip(tuples: seq<seq<Field>>)
    requires tuples != [] && forall i | 0 <= i < |tuples| :: tuples[i] != []
    ensures ParseTuples(TuplesText(tuples)) == Some(tuples)
    decreases |tuples|
  {
    hide ParseTuples, FieldsText, ParseFields;
    var t := FieldsText(tuples[0]);
    if |tuples| == 1 {
      FieldsRoundTrip(tuples[0], "");
      assert t + ")" + "" == t + ")" && "(" + t + ")" + "" == "(" + t + ")";
      LastTuple(t, tuples[0]);
      assert tuples == [tuples[0]];
    } else {
      TuplesRoundTrip(tuples[1..]);
      var more := TuplesText(tuples[1..]);
      FieldsRoundTrip(tuples[0], "," + more);
      TupleThen(t, tuples[0], more, tuples[1..]);
      assert tuples == [tuples[0]] + tuples[1..];
    }
  }

  lemma {:induction false} TuplesTextAppend(xs: seq<seq<Field>>, y: seq<Field>)
    requires xs != [] && y != [] && forall i | 0 <= i < |xs| :: xs[i] != []
    ensures TuplesText(xs + [y]) == TuplesText(xs) + ",(" + FieldsText(y) + ")"
    decreases |xs|
  {
    hide FieldsText;
    assert (xs + [y])[1..] == xs[1..] + [y];
    if |xs| > 1 {
      TuplesTextAppend(xs[1..], y);
    } else {
      assert TuplesText([y]) == "(" + FieldsText(y) + ")";
    }
  }

  lemma {:induction false} ValuesTextIsTuples(rows: seq<PacketRow>, locs: seq<Location>, default: u16, n: nat)
    requires |rows| == |locs| && 0 < n <= |rows|
    ensures ValuesText(rows, locs, default, n) == TuplesText(IndexRows(rows, locs, default, n))
    decreases n
  {
    hide IndexFields, RowText, FieldsText;
    RowTextIsFields(n - 1, rows[n - 1], locs[n - 1], default);
    var y := IndexFields(n - 1, rows[n - 1], locs[n - 1], default);
    if n == 1 {
      assert IndexRows(rows, locs, default, 1) == [y];
    } else {
      ValuesTextIsTuples(rows, locs, default, n - 1);
      assert IndexRows(rows, locs, default, n) == IndexRows(rows, locs, default, n - 1) + [y];
      TuplesTextAppend(IndexRows(rows, locs, default, n - 1), y);
    }
  }

  /** For every non-empty list of rows, whatever their strings contain, the generated text reads as exactly one
      tuple per row whose fifteen fields are the row's columns. */
  lemma ValuesTextMeansRows(rows: seq<PacketRow>, locs: seq<Location>, default: u16)
    requires |rows| == |locs| > 0
    ensures ParseTuples(ValuesText(rows, locs, default, |rows|)) == Some(IndexRows(rows, locs, default, |rows|))
  {
    ValuesTextIsTuples(rows, locs, default, |rows|);
    hide ValuesText, TuplesText, ParseTuples, IndexFields;
    TuplesRoundTrip(IndexRows(rows, locs, default, |rows|));
  }

  // ----- index columns in terms of the query that is copied -----

  function TextColumn(s: Option<string>): Field {
    match s
    case None => NullField
    case Some(t) => if t == "" then NullField else TextField(t)
  }

  function PortColumn(c: Cell): Field {
    match c
    case Val(v) => NumberField(Wrap32(v))
    case _ => NullField
  }

  function ProtocolColumn(s: Option<string>): Field {
    match s
    case None => TextField("unknown")
    case Some(t) => TextField(if t == "" then "unknown" else Lower(t))
  }

  function LinkColumn(c: Cell, default: u16): Field {
    match c
    case Val(v) => NumberField(if v % POW16 != 0 then v % POW16 else default)
    case _ => NumberField(default)
  }

  function NumberColumn(c: Cell, missing: nat): Field {
    match c
    case Val(v) => NumberField(v)
    case _ => NumberField(missing)
  }

  /** A missing captured length is the payload's; a zero one is the size found in the file. */
  function CapturedColumn(c: Cell, payloadSize: nat, loc: Location): Field {
    var given := match c
      case Val(v) => v
      case _ => Wrap64(payloadSize);
    NumberField(if given != 0 then given else loc.size)
  }

  /** The columns of the index row for an input row whose packet lies at `loc`: what a missing, NULL or empty input
      column turns into, and which input column ends up where. */
  function ColumnsOfInput(i: nat, input: InputRow, loc: Location, default: u16): seq<Field>
    requires Admissible(input)
  {
    [NumberField(i + 1), NumberField(Wrap64(input.tsMicros.value * 1000)), ProtocolColumn(input.protocols),
     TextColumn(input.srcIp), PortColumn(input.srcPort)]
    + ([TextColumn(input.dstIp), PortColumn(input.dstPort), NumberColumn(input.interfaceId, 0),
        LinkColumn(input.dataLink, default), CapturedColumn(input.capturedLength, |input.payload.value|, loc)]
       + [NumberField(input.origLen.value), TextColumn(input.comment), NumberField(loc.offset), NumberField(loc.size),
          LinkColumn(input.dataLink, default)])
  }

  lemma TextColumnKept(s: Option<string>)
    ensures OptionalField(Text(s)) == TextColumn(s)
  {
  }

  lemma PortColumnKept(c: Cell)
    ensures PortField(Port(c)) == PortColumn(c)
  {
  }

  lemma ProtocolColumnKept(s: Option<string>)
    ensures ProtocolColumn(s) == TextField(if Lower(Text(s)) == "" then "unknown" else Lower(Text(s)))
  {
    assert |Lower(Text(s))| == |Text(s)|;
  }

  lemma LinkColumnKept(input: InputRow, default: u16)
    requires BuildRow(input).Ok?
    ensures NumberField(Linktype(BuildRow(input).value, default)) == LinkColumn(input.dataLink, default)
  {
    hide Lower, Port, Text, Wrap64;
  }

  lemma CapturedColumnKept(input: InputRow, loc: Location)
    requires BuildRow(input).Ok?
    ensures var row := BuildRow(input).value;
      NumberField(if row.capturedLength != 0 then row.capturedLength else loc.size)
      == CapturedColumn(input.capturedLength, |input.payload.value|, loc)
  {
    hide Lower, Port, Text, Wrap64;
  }

  /** The index row of an accepted input row shows the input columns, with the defaults for missing ones. */
  lemma IndexShowsInput(i: nat, input: InputRow, loc: Location, default: u16)
    requires BuildRow(input).Ok?
    ensures Admissible(input)
    ensures IndexFields(i, BuildRow(input).value, loc, default) == ColumnsOfInput(i, input, loc, default)
  {
    AcceptedIfAdmissible(input);
    TextColumnKept(input.srcIp);
    TextColumnKept(input.dstIp);
    TextColumnKept(input.comment);
    PortColumnKept(input.srcPort);
    PortColumnKept(input.dstPort);
    ProtocolColumnKept(input.protocols);
    LinkColumnKept(input, default);
    CapturedColumnKept(input, loc);
    hide Lower, Port, Text, Wrap64, OptionalField, PortField;
    hide TextColumn, PortColumn, ProtocolColumn, LinkColumn, CapturedColumn, Linktype;
  }
}
