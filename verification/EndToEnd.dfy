/** Results that join the written file, its index and its readers. */
module EndToEnd {
  import opened Bytes
  import opened Wrappers
  import opened Blocks
  import opened Embed
  import opened CopyWriter
  import IndexText
  import opened ClassicPcap
  import opened PacketScan
  import opened PacketDecoder
  import opened Frames

  // ----- COPY, then look packets up through the index text -----

  /** An index tuple whose `offset` and `size` columns address the given bytes of the file. */
  predicate TuplePointsAt(tuple: seq<IndexText.Field>, file: bytes, data: bytes) {
    && |tuple| == 15 && tuple[12].NumberField? && tuple[13].NumberField?
    && PointsAt(file, Location(tuple[12].n, tuple[13].n), data)
  }

  lemma IndexTuplePointsAt(i: nat, row: PacketRow, loc: Location, default: u16, file: bytes, data: bytes)
    ensures TuplePointsAt(IndexText.IndexFields(i, row, loc, default), file, data) <==> PointsAt(file, loc, data)
  {
    hide PointsAt;
    assert Location(loc.offset, loc.size) == loc;
  }

  /** The SQL text that finalizing generates for a written file. */
  function IndexSql(rows: seq<PacketRow>, locs: seq<Location>, default: u16): string
    requires |rows| == |locs|
  {
    IndexText.ValuesText(rows, locs, default, |rows|)
  }

  /** In every reachable state in which the copy is closed: the finished file exists, the generated index text reads as
      one tuple per row, and the offset and size in the i-th tuple address, in the finished file, exactly the payload of
      the i-th row if and only if that payload is shorter than 2^32 - 32 bytes. */
  lemma IndexFindsEveryPayload(blocks: seq<Block>, events: seq<Event>, default: u16)
    requires IsInitialFile(blocks) && CanRun(Start(blocks), events, true)
    requires RunEvents(Start(blocks), events, true).closed.Some?
    requires RunEvents(Start(blocks), events, true).rows != []
    ensures var s := RunEvents(Start(blocks), events, true);
      AllWellFormed(s.blocks) && |s.closed.value| < POW64 &&
      var r := Finalize(EncodeAll(s.blocks), s.rows, s.closed.value);
      && r.Ok? && |r.value.1| == |s.rows|
      && var tuples := IndexText.ParseTuples(IndexSql(s.rows, r.value.1, default));
         && tuples.Some? && |tuples.value| == |s.rows|
         && forall i | 0 <= i < |s.rows| ::
              (TuplePointsAt(tuples.value[i], r.value.0, s.rows[i].packetBytes)
               <==> |s.rows[i].packetBytes| < POW32 - 32)
  {
    FinalizedIndexIsRight(blocks, events);
    hide CanRun, RunEvents, IsInitialFile, Finalize, EncodeAll, PointsAt, TuplePointsAt, IndexText.IndexFields;
    var s := RunEvents(Start(blocks), events, true);
    var r := Finalize(EncodeAll(s.blocks), s.rows, s.closed.value);
    var locs := r.value.1;
    hide IndexText.ValuesText, IndexText.ParseTuples;
    IndexText.ValuesTextMeansRows(s.rows, locs, default);
    forall i | 0 <= i < |s.rows|
      ensures TuplePointsAt(IndexText.IndexRows(s.rows, locs, default, |s.rows|)[i], r.value.0, s.rows[i].packetBytes)
         <==> |s.rows[i].packetBytes| < POW32 - 32
    {
      assert IndexedRightIffFits(r.value.0, locs[i], s.rows[i]);
      IndexTuplePointsAt(i, s.rows[i], locs[i], default, r.value.0, s.rows[i].packetBytes);
    }
  }

  /** The tuple shows the input row in every column, and its `offset` and `size` address, in the file, exactly the row's
      payload if and only if that is shorter than 2^32 - 32 bytes. */
  predicate TupleShowsInput(tuple: seq<IndexText.Field>, i: nat, input: InputRow, loc: Location, default: u16,
                            file: bytes)
  {
    && Admissible(input)
    && tuple == IndexText.ColumnsOfInput(i, input, loc, default)
    && (TuplePointsAt(tuple, file, input.payload.value) <==> |input.payload.value| < POW32 - 32)
  }

  lemma RowTupleShowsInput(tuple: seq<IndexText.Field>, i: nat, row: PacketRow, input: InputRow, loc: Location,
                           default: u16, file: bytes)
    requires BuildRow(input) == Ok(row) && tuple == IndexText.IndexFields(i, row, loc, default)
    requires TuplePointsAt(tuple, file, row.packetBytes) <==> |row.packetBytes| < POW32 - 32
    ensures TupleShowsInput(tuple, i, input, loc, default, file)
  {
    IndexText.IndexShowsInput(i, input, loc, default);
    RowKeepsPayload(input);
    hide BuildRow, TuplePointsAt, IndexText.IndexFields, IndexText.ColumnsOfInput;
  }

  lemma ClosedRowsAreBuilt(blocks: seq<Block>, events: seq<Event>)
    requires IsInitialFile(blocks) && CanRun(Start(blocks), events, true)
    requires RunEvents(Start(blocks), events, true).closed.Some?
    ensures BuiltFrom(RunEvents(Start(blocks), events, true).rows, AcceptedInputs(CallsOf(events)))
  {
    hide *;
    ClosedAgrees(blocks, events);
    RowsAreBuilt(blocks, events);
  }

  /** From the query to the file: after any interleaving of sink calls and the final step, the generated index text
      reads as one tuple for every input row that the calls accepted, in the order in which the calls took the lock, and
      tuple `i` shows input row `i` and points at its payload in the finished file. */
  lemma IndexShowsEveryInput(blocks: seq<Block>, events: seq<Event>, default: u16)
    requires IsInitialFile(blocks) && CanRun(Start(blocks), events, true)
    requires RunEvents(Start(blocks), events, true).closed.Some?
    requires AcceptedInputs(CallsOf(events)) != []
    ensures var s := RunEvents(Start(blocks), events, true);
      var inputs := AcceptedInputs(CallsOf(events));
      AllWellFormed(s.blocks) && |s.closed.value| < POW64 &&
      var r := Finalize(EncodeAll(s.blocks), s.rows, s.closed.value);
      && r.Ok? && |r.value.1| == |s.rows| == |inputs|
      && var tuples := IndexText.ParseTuples(IndexSql(s.rows, r.value.1, default));
         && tuples.Some? && |tuples.value| == |inputs|
         && forall i | 0 <= i < |inputs| ::
              TupleShowsInput(tuples.value[i], i, inputs[i], r.value.1[i], default, r.value.0)
  {
    ClosedRowsAreBuilt(blocks, events);
    hide CanRun, RunEvents, IsInitialFile, Finalize, EncodeAll, TuplePointsAt, AcceptedInputs, CallsOf, BuildRow;
    hide IndexText.IndexFields, IndexText.ValuesText, IndexText.ParseTuples, TupleShowsInput;
    var s := RunEvents(Start(blocks), events, true);
    var inputs := AcceptedInputs(CallsOf(events));
    IndexFindsEveryPayload(blocks, events, default);
    var r := Finalize(EncodeAll(s.blocks), s.rows, s.closed.value);
    IndexText.ValuesTextMeansRows(s.rows, r.value.1, default);
    var tuples := IndexText.ParseTuples(IndexSql(s.rows, r.value.1, default)).value;
    forall i | 0 <= i < |inputs|
      ensures TupleShowsInput(tuples[i], i, inputs[i], r.value.1[i], default, r.value.0)
    {
      RowTupleShowsInput(tuples[i], i, s.rows[i], inputs[i], r.value.1[i], default, r.value.0);
    }
  }

  /** For any chain and any rows, finalizing succeeds exactly when there are as many rows as packets.  The finished file
      is again a chain that the walk consumes, and scanning it gives the very locations that the index carries; so a
      second program can rebuild the index from the finished file. */
  lemma FinishedFileScansAlike(blocks: seq<Block>, rows: seq<PacketRow>, parquet: bytes)
    requires AllWellFormed(blocks) && |parquet| < POW64 && FitsLengthField(|parquet|)
    ensures var r := Finalize(EncodeAll(blocks), rows, parquet);
      && (r.Ok? <==> |rows| == |Packets(blocks)|)
      && (r.Ok? ==> Complete(r.value.0) && Scan(r.value.0, 0) == r.value.1)
  {
    hide EncodeAll, Scan, Embedded, FitsLengthField, Complete;
    ScanIsExact(blocks);
    EmbeddingKeepsScan(EncodeAll(blocks), parquet);
  }

  // ----- frames written to a classic capture and scanned back -----

  datatype BuiltFrame = BuiltFrame(
    link: Link, net: Net, transport: Transport, payload: bytes, seconds: u32, fraction: u32, origLen: u32)

  predicate ValidBuilt(b: BuiltFrame, dataLink: u16) {
    && ValidLink(b.link) && ValidNet(b.net) && ValidTransport(b.transport) && LinkTypeOf(b.link, dataLink)
    && |Frame(b.link, b.net, b.transport, b.payload)| < POW32
  }

  function RecordOf(b: BuiltFrame, dataLink: u16): (r: Record)
    requires ValidBuilt(b, dataLink)
    ensures ValidRecord(r)
  {
    Record(b.seconds, b.fraction, b.origLen, Frame(b.link, b.net, b.transport, b.payload))
  }

  /** What a query on the packet plane must see of a built frame. */
  predicate ShowsFlow(row: ScanRow, b: BuiltFrame, dataLink: u16, nanos: bool)
    requires ValidBuilt(b, dataLink)
  {
    var frame := Frame(b.link, b.net, b.transport, b.payload);
    && row.timestampMicros == b.seconds * 1_000_000 + (if nanos then b.fraction / 1000 else b.fraction)
    && row.interfaceId == 0 && row.dataLink == dataLink
    && row.payload == Some(frame) && row.capturedLength == |frame| && row.origLen == b.origLen
    && row.srcIp == Some(SourceText(b.net)) && row.dstIp == Some(DestinationText(b.net))
    && row.srcPort == Some(b.transport.srcPort) && row.dstPort == Some(b.transport.dstPort)
    && row.protocol == (if b.transport.Tcp? then "TCP" else "UDP")
  }

  lemma RowShowsFlow(b: BuiltFrame, dataLink: u16, linktype: u32, nanos: bool)
    requires ValidBuilt(b, dataLink) && linktype % POW16 == dataLink
    ensures ShowsFlow(RowOf(PacketOf(RecordOf(b, dataLink), nanos, linktype)), b, dataLink, nanos)
  {
    hide Frame, ParseL4, TimestampMicros, SourceText, DestinationText, ValidLink, ValidNet, ValidTransport, LinkTypeOf;
    TimeSurvives(RecordOf(b, dataLink), nanos, linktype);
    FrameRoundTrip(b.link, dataLink, b.net, b.transport, b.payload);
    AddressesPrint(b.net);
    FrameNotEmpty(b);
    RowIsDecoded(PacketOf(RecordOf(b, dataLink), nanos, linktype));
    hide RowOf;
  }

  /** The columns of a row, one by one. */
  lemma RowIsDecoded(p: Packet)
    ensures RowOf(p) == RowWith(p, ParseL4(p.header.dataLink, p.data))
  {
  }

  lemma FrameNotEmpty(b: BuiltFrame)
    requires ValidLink(b.link) && ValidNet(b.net) && ValidTransport(b.transport)
    ensures Frame(b.link, b.net, b.transport, b.payload) != []
  {
    NetNotEmpty(b.net, Protocol(b.transport));
    hide LinkBytes, NetBytes, TransportBytes;
  }

  lemma AddressesPrint(n: Net)
    requires ValidNet(n)
    ensures SourceText(n) != "" && DestinationText(n) != ""
  {
  }

  predicate AllValid(frames: seq<BuiltFrame>, dataLink: u16) {
    forall i | 0 <= i < |frames| :: ValidBuilt(frames[i], dataLink)
  }

  function RecordsOf(frames: seq<BuiltFrame>, dataLink: u16): (rs: seq<Record>)
    requires AllValid(frames, dataLink)
    ensures |rs| == |frames| && ValidRecords(rs)
  {
    seq(|frames|, i requires 0 <= i < |frames| => RecordOf(frames[i], dataLink))
  }

  /** The rows that the first `n` batches of a capture file deliver, when the file opens. */
  function ScannedRows(file: bytes, n: nat): Option<seq<ScanRow>> {
    match Open(file)
    case Err(_) => None
    case Ok(reader) => Some(Delivered(ScanState(reader, false), n))
  }

  predicate AllShown(rows: seq<ScanRow>, frames: seq<BuiltFrame>, dataLink: u16, nanos: bool)
    requires AllValid(frames, dataLink)
  {
    |rows| == |frames| && forall i | 0 <= i < |frames| :: ShowsFlow(rows[i], frames[i], dataLink, nanos)
  }

  lemma RowsShowFrames(frames: seq<BuiltFrame>, dataLink: u16, linktype: u32, nanos: bool)
    requires AllValid(frames, dataLink) && linktype % POW16 == dataLink
    ensures AllShown(RowsOf(PacketsOf(RecordsOf(frames, dataLink), nanos, linktype)), frames, dataLink, nanos)
  {
    hide ShowsFlow, RowOf, PacketOf, RecordOf, Frame;
    var ps := PacketsOf(RecordsOf(frames, dataLink), nanos, linktype);
    forall i | 0 <= i < |frames|
      ensures ValidBuilt(frames[i], dataLink) && ShowsFlow(RowsOf(ps)[i], frames[i], dataLink, nanos)
    {
      RowShowsFlow(frames[i], dataLink, linktype, nanos);
    }
  }

  /** Any list of built frames, written as a classic capture under any of the four magics and scanned in batches, shows
      every frame's time, addresses and ports, in order, once all batches are fetched. */
  lemma CapturedFramesAreQueryable(f: Format, g: GlobalFields, frames: seq<BuiltFrame>, dataLink: u16, n: nat)
    requires AllValid(frames, dataLink) && g.linktype % POW16 == dataLink && n * VECTOR_SIZE >= |frames|
    ensures var rows := ScannedRows(CaptureBytes(f, g, RecordsOf(frames, dataLink)), n);
      rows.Some? && AllShown(rows.value, frames, dataLink, f.nanos)
  {
    hide Open, CaptureBytes, ReadAll, Delivered, PacketsOf, RecordsOf, RowsOf, AllShown, AllValid;
    var rs := RecordsOf(frames, dataLink);
    CaptureRoundTrip(f, g, rs);
    BatchesConcatenate(Open(CaptureBytes(f, g, rs)).value, n);
    var ps := PacketsOf(rs, f.nanos, g.linktype);
    assert ps[..|ps|] == ps;
    RowsShowFrames(frames, dataLink, g.linktype, f.nanos);
  }
}
