/** `COPY ... (FORMAT pcapng)`: threads sink chunks of rows under one lock; each row appends packet blocks to the
    file and then a row to the index list; finalizing joins the two by position only. */
module CopyWriter {
  import opened Bytes
  import opened Wrappers
  import opened Blocks
  import opened Embed

  // ----- rows -----

  /** A column value before its cast: SQL NULL, a value that the cast rejects, or the cast value. */
  datatype Cell = Null | Uncastable | Val(value: u64)

  datatype InputRow = InputRow(
    tsMicros: Cell, origLen: Cell, payload: Option<bytes>,
    interfaceId: Cell, dataLink: Cell, capturedLength: Cell, comment: Option<string>,
    srcIp: Option<string>, dstIp: Option<string>, srcPort: Cell, dstPort: Cell, protocols: Option<string>)

  datatype PacketRow = PacketRow(
    tsMicros: u64, origLen: u64, capturedLength: u64, interfaceId: u64, dataLink: u16,
    comment: string, packetBytes: bytes, srcIp: string, dstIp: string,
    srcPort: Option<u32>, dstPort: Option<u32>, protocols: string)

  datatype SinkError = TimestampRejected | OrigLenRejected | PayloadNull | CastRejected

  function Text(s: Option<string>): string {
    if s.Some? then s.value else ""
  }

  function LowerChar(c: char): char {
    if 'A' <= c <= 'Z' then (c as int + 32) as char else c
  }

  function Lower(s: string): string {
    seq(|s|, i requires 0 <= i < |s| => LowerChar(s[i]))
  }

  function Port(c: Cell): Option<u32> {
    if c.Val? then Some(Wrap32(c.value)) else None
  }

  function Number(c: Cell, default: u64): u64 {
    if c.Val? then c.value else default
  }

  /** One row of a chunk, or the error that ends the sink call. */
  function BuildRow(input: InputRow): Result<PacketRow, SinkError> {
    if !input.tsMicros.Val? then Err(TimestampRejected)
    else if !input.origLen.Val? then Err(OrigLenRejected)
    else if input.payload.None? then Err(PayloadNull)
    else if input.interfaceId.Uncastable? || input.dataLink.Uncastable? || input.capturedLength.Uncastable?
      || input.srcPort.Uncastable? || input.dstPort.Uncastable? then Err(CastRejected)
    else
      Ok(PacketRow(
        input.tsMicros.value, input.origLen.value,
        Number(input.capturedLength, Wrap64(|input.payload.value|)),
        Number(input.interfaceId, 0), Number(input.dataLink, 0) % POW16,
        Text(input.comment), input.payload.value, Text(input.srcIp), Text(input.dstIp),
        Port(input.srcPort), Port(input.dstPort), Lower(Text(input.protocols))))
  }

  datatype PacketHeader = PacketHeader(
    interfaceId: u32, dataLink: u16, capturedLength: u32, originalLength: u32, seconds: nat, nanoseconds: nat)

  /** The header handed to the packet writer. */
  function HeaderOf(row: PacketRow, linktype: u16): PacketHeader {
    PacketHeader(
      Wrap32(row.interfaceId), if row.dataLink != 0 then row.dataLink else linktype,
      Wrap32(|row.packetBytes|), Wrap32(row.origLen),
      row.tsMicros / 1_000_000, row.tsMicros % 1_000_000 * 1000)
  }

  /** The seconds and nanoseconds of the header hold exactly the row's microseconds. */
  lemma HeaderKeepsTime(row: PacketRow, linktype: u16)
    ensures var h := HeaderOf(row, linktype);
      h.nanoseconds < 1_000_000_000 && h.seconds * 1_000_000 + h.nanoseconds / 1000 == row.tsMicros
  {
    var us := row.tsMicros % 1_000_000;
    assert us * 1000 / 1000 == us;
  }

  /** The bytes that the packet writer is told to write. */
  function Carried(row: PacketRow): bytes {
    row.packetBytes[..Wrap32(|row.packetBytes|)]
  }

  /** The block is an EPB with the row's captured bytes and original length. */
  predicate Holds(b: Block, row: PacketRow) {
    b.Epb? && b.data == Carried(row) && b.origLen == Wrap32(row.origLen)
  }

  /** What the unseen packet writer is assumed to append for one row: any well-formed non-packet blocks and then
      one EPB with the captured bytes and the original length. */
  predicate Emits(row: PacketRow, emitted: seq<Block>) {
    && emitted != [] && AllWellFormed(emitted)
    && (forall i | 0 <= i < |emitted| - 1 :: !IsPacket(emitted[i]))
    && Holds(emitted[|emitted| - 1], row)
  }

  /** The rows that one sink call accepts: those before the first rejected one. */
  function SinkRows(chunk: seq<InputRow>): seq<PacketRow> {
    if chunk == [] || BuildRow(chunk[0]).Err? then []
    else [BuildRow(chunk[0]).value] + SinkRows(chunk[1..])
  }

  /** The required columns are there and no column fails its cast. */
  predicate Admissible(input: InputRow) {
    && input.tsMicros.Val? && input.origLen.Val? && input.payload.Some?
    && Uncastable !in [input.interfaceId, input.dataLink, input.capturedLength, input.srcPort, input.dstPort]
  }

  lemma AcceptedIfAdmissible(input: InputRow)
    ensures BuildRow(input).Ok? <==> Admissible(input)
  {
    var cells := [input.interfaceId, input.dataLink, input.capturedLength, input.srcPort, input.dstPort];
    assert cells[0] in cells && cells[1] in cells && cells[2] in cells && cells[3] in cells && cells[4] in cells;
  }

  /** The error names the first fault in the order in which the columns are read. */
  lemma RejectionNamesFirstFault(input: InputRow)
    requires !Admissible(input)
    ensures BuildRow(input).Err?
    ensures BuildRow(input).error == TimestampRejected <==> !input.tsMicros.Val?
    ensures BuildRow(input).error == OrigLenRejected <==> input.tsMicros.Val? && !input.origLen.Val?
    ensures BuildRow(input).error == PayloadNull
       <==> input.tsMicros.Val? && input.origLen.Val? && input.payload.None?
  {
    AcceptedIfAdmissible(input);
    hide Admissible;
  }

  /** The row holds the payload itself, every byte in its place. */
  lemma RowKeepsPayload(input: InputRow)
    requires BuildRow(input).Ok?
    ensures input.payload == Some(BuildRow(input).value.packetBytes)
  {
  }

  const UPPER_CASE: string := "ABCDEFGHIJKLMNOPQRSTUVWXYZ"
  const LOWER_CASE: string := "abcdefghijklmnopqrstuvwxyz"

  lemma LowerLetter(k: nat)
    requires k < 26
    ensures UPPER_CASE[k] as int == 'A' as int + k && LOWER_CASE[k] as int == 'a' as int + k
  {
  }

  lemma LowerKeepsOthers(c: char)
    requires LowerChar(c) != c
    ensures c in UPPER_CASE
  {
    LowerLetter(c as int - 'A' as int);
  }

  /** Lower case puts the small letter for every capital one, and keeps all other characters. */
  lemma LowerIsExact(s: string, i: nat)
    requires i < |s|
    ensures |Lower(s)| == |s|
    ensures forall k | 0 <= k < 26 :: s[i] == UPPER_CASE[k] ==> Lower(s)[i] == LOWER_CASE[k]
    ensures s[i] !in UPPER_CASE ==> Lower(s)[i] == s[i]
  {
    forall k | 0 <= k < 26 && s[i] == UPPER_CASE[k]
      ensures Lower(s)[i] == LOWER_CASE[k]
    {
      LowerLetter(k);
    }
    if LowerChar(s[i]) != s[i] {
      LowerKeepsOthers(s[i]);
    }
  }

  /** What the header handed to the packet writer takes from the input row: low bits of the numbers, the link type of
      the copy in place of a missing or zero one, and the payload's own length. */
  lemma HeaderShowsInput(input: InputRow, linktype: u16)
    requires BuildRow(input).Ok?
    ensures var h := HeaderOf(BuildRow(input).value, linktype);
      && (input.interfaceId.Val? ==> h.interfaceId == input.interfaceId.value % POW32)
      && (!input.interfaceId.Val? ==> h.interfaceId == 0)
      && (input.dataLink.Val? && input.dataLink.value % POW16 != 0 ==> h.dataLink == input.dataLink.value % POW16)
      && (!input.dataLink.Val? || input.dataLink.value % POW16 == 0 ==> h.dataLink == linktype)
      && h.capturedLength == |input.payload.value| % POW32
      && h.originalLength == input.origLen.value % POW32
      && h.nanoseconds < 1_000_000_000
      && h.seconds * 1_000_000 + h.nanoseconds / 1000 == input.tsMicros.value
  {
    HeaderKeepsTime(BuildRow(input).value, linktype);
    HeaderNumbers(input, linktype);
  }

  lemma HeaderNumbers(input: InputRow, linktype: u16)
    requires BuildRow(input).Ok?
    ensures var h := HeaderOf(BuildRow(input).value, linktype);
      && h.interfaceId == Wrap32(Number(input.interfaceId, 0))
      && h.dataLink == (if Number(input.dataLink, 0) % POW16 != 0 then Number(input.dataLink, 0) % POW16 else linktype)
      && h.capturedLength == Wrap32(|input.payload.value|) && h.originalLength == Wrap32(input.origLen.value)
  {
    hide Lower, Text, Port, Wrap32, Wrap64;
  }

  // ----- the input rows that sink calls accept -----

  /** The rows of a chunk before the first inadmissible one. */
  function AcceptedPrefix(chunk: seq<InputRow>): seq<InputRow> {
    if chunk == [] || !Admissible(chunk[0]) then [] else [chunk[0]] + AcceptedPrefix(chunk[1..])
  }

  /** The accepted rows of calls that run one after the other. */
  function AcceptedInputs(calls: seq<seq<InputRow>>): seq<InputRow> {
    if calls == [] then [] else AcceptedInputs(calls[..|calls| - 1]) + AcceptedPrefix(calls[|calls| - 1])
  }

  /** The rows are built from the inputs, one for one and in order. */
  predicate BuiltFrom(rows: seq<PacketRow>, inputs: seq<InputRow>) {
    |rows| == |inputs| && forall i | 0 <= i < |rows| :: BuildRow(inputs[i]) == Ok(rows[i])
  }

  lemma {:induction false} SinkRowsBuilt(chunk: seq<InputRow>)
    ensures BuiltFrom(SinkRows(chunk), AcceptedPrefix(chunk))
    decreases |chunk|
  {
    if chunk != [] {
      AcceptedIfAdmissible(chunk[0]);
      SinkRowsBuilt(chunk[1..]);
      hide BuildRow, Admissible;
    }
  }

  /** A sink call keeps the rows before the first one that lacks a required column or fails a cast, in order, and no
      others; so it sinks its whole chunk if and only if every row is admissible. */
  lemma {:induction false} SinksUpToFirstRejected(chunk: seq<InputRow>)
    ensures var rows := SinkRows(chunk);
      && |rows| <= |chunk|
      && (forall i | 0 <= i < |rows| ::
            Admissible(chunk[i]) && BuildRow(chunk[i]) == Ok(rows[i]) && chunk[i].payload == Some(rows[i].packetBytes))
      && (|rows| < |chunk| ==> !Admissible(chunk[|rows|]))
    ensures |SinkRows(chunk)| == |chunk| <==> forall i | 0 <= i < |chunk| :: Admissible(chunk[i])
    decreases |chunk|
  {
    hide BuildRow, Admissible;
    if chunk != [] {
      AcceptedIfAdmissible(chunk[0]);
      if BuildRow(chunk[0]).Ok? {
        RowKeepsPayload(chunk[0]);
      }
      SinksUpToFirstRejected(chunk[1..]);
      assert forall i | 0 < i < |chunk| :: chunk[i] == chunk[1..][i - 1];
    }
  }

  /** The rows of sink calls that run one after the other. */
  function SerialRows(calls: seq<seq<InputRow>>): seq<PacketRow> {
    if calls == [] then [] else SerialRows(calls[..|calls| - 1]) + SinkRows(calls[|calls| - 1])
  }

  lemma BuiltFromAppend(r1: seq<PacketRow>, i1: seq<InputRow>, r2: seq<PacketRow>, i2: seq<InputRow>)
    requires BuiltFrom(r1, i1) && BuiltFrom(r2, i2)
    ensures BuiltFrom(r1 + r2, i1 + i2)
  {
    hide BuildRow;
  }

  lemma {:induction false} SerialRowsBuilt(calls: seq<seq<InputRow>>)
    ensures BuiltFrom(SerialRows(calls), AcceptedInputs(calls))
    decreases |calls|
  {
    if calls != [] {
      var last := calls[|calls| - 1];
      SerialRowsBuilt(calls[..|calls| - 1]);
      SinkRowsBuilt(last);
      hide BuildRow, BuiltFrom, SinkRows, AcceptedPrefix;
      BuiltFromAppend(SerialRows(calls[..|calls| - 1]), AcceptedInputs(calls[..|calls| - 1]),
                      SinkRows(last), AcceptedPrefix(last));
    }
  }

  /** Position by position, the packet blocks carry the rows' bytes. */
  predicate Agree(packets: seq<Block>, rows: seq<PacketRow>) {
    && |packets| == |rows|
    && forall i | 0 <= i < |rows| :: Holds(packets[i], rows[i])
  }

  // ----- threads -----

  datatype Thread =
    | Idle
    | Sinking(chunk: seq<InputRow>, r: nat)
    | Pushing(chunk: seq<InputRow>, r: nat, row: PacketRow)

  /** `calls` records the chunks in the order in which their calls took the lock; `closed` holds the metadata bytes
      once the copy has been finalized. */
  datatype State = State(
    blocks: seq<Block>, rows: seq<PacketRow>, lock: Option<nat>, threads: map<nat, Thread>, calls: seq<seq<InputRow>>,
    closed: Option<bytes>)

  /** A row takes two steps, so another thread can run between the write to the file and the push to the list.
      `Close` finalizes the copy. */
  datatype Event =
    | Acquire(t: nat, chunk: seq<InputRow>)
    | Write(t: nat, emitted: seq<Block>)
    | Push(t: nat)
    | Abort(t: nat)
    | Release(t: nat)
    | Close(parquet: bytes)

  function ThreadOf(s: State, t: nat): Thread {
    if t in s.threads then s.threads[t] else Idle
  }

  /** When a step may happen.  Only taking the lock looks at the lock; `guarded` says whether it does.  The database
      finalizes once, when no sink call is running, and starts none afterwards. */
  predicate CanFire(s: State, e: Event, guarded: bool) {
    match e
    case Acquire(t, chunk) => s.closed.None? && ThreadOf(s, t).Idle? && (guarded ==> s.lock.None?)
    case Write(t, emitted) =>
      var th := ThreadOf(s, t);
      th.Sinking? && th.r < |th.chunk| && BuildRow(th.chunk[th.r]).Ok? && Emits(BuildRow(th.chunk[th.r]).value, emitted)
    case Push(t) => ThreadOf(s, t).Pushing?
    case Abort(t) =>
      var th := ThreadOf(s, t);
      th.Sinking? && th.r < |th.chunk| && BuildRow(th.chunk[th.r]).Err?
    case Release(t) =>
      var th := ThreadOf(s, t);
      th.Sinking? && th.r == |th.chunk|
    case Close(parquet) =>
      s.closed.None? && |parquet| < POW64 && forall t | t in s.threads :: s.threads[t].Idle?
  }

  function Fire(s: State, e: Event, guarded: bool): State
    requires CanFire(s, e, guarded)
  {
    match e
    case Acquire(t, chunk) =>
      s.(lock := Some(t), threads := s.threads[t := Sinking(chunk, 0)], calls := s.calls + [chunk])
    case Write(t, emitted) =>
      var th := ThreadOf(s, t);
      var pushing := Pushing(th.chunk, th.r, BuildRow(th.chunk[th.r]).value);
      s.(blocks := s.blocks + emitted, threads := s.threads[t := pushing])
    case Push(t) =>
      var th := ThreadOf(s, t);
      s.(rows := s.rows + [th.row], threads := s.threads[t := Sinking(th.chunk, th.r + 1)])
    case Abort(t) => s.(lock := None, threads := s.threads[t := Idle])
    case Release(t) => s.(lock := None, threads := s.threads[t := Idle])
    case Close(parquet) => s.(closed := Some(parquet))
  }

  predicate CanRun(s: State, events: seq<Event>, guarded: bool)
    decreases |events|
  {
    events == [] || (CanFire(s, events[0], guarded) && CanRun(Fire(s, events[0], guarded), events[1..], guarded))
  }

  function RunEvents(s: State, events: seq<Event>, guarded: bool): State
    requires CanRun(s, events, guarded)
    decreases |events|
  {
    if events == [] then s else RunEvents(Fire(s, events[0], guarded), events[1..], guarded)
  }

  /** The file as the writer opens it: a chain of non-packet blocks. */
  predicate IsInitialFile(blocks: seq<Block>) {
    AllWellFormed(blocks) && Packets(blocks) == []
  }

  function Start(blocks: seq<Block>): State {
    State(blocks, [], None, map[], [], None)
  }

  // ----- the invariant -----

  /** Where the thread that holds the lock stands in its chunk. */
  predicate HolderInv(s: State, th: Thread) {
    && s.calls != []
    && var chunk := s.calls[|s.calls| - 1];
       var done := SerialRows(s.calls[..|s.calls| - 1]);
       match th
       case Idle => false
       case Sinking(c, r) =>
         && c == chunk && r <= |c| && Accepted(c, r)
         && s.rows == done + SinkRows(c[..r]) && Agree(Packets(s.blocks), s.rows)
       case Pushing(c, r, row) =>
         && c == chunk && r < |c| && Accepted(c, r) && BuildRow(c[r]) == Ok(row)
         && s.rows == done + SinkRows(c[..r]) && Agree(Packets(s.blocks), s.rows + [row])
  }

  /** The first `r` rows of a chunk are all accepted. */
  predicate Accepted(chunk: seq<InputRow>, r: nat) {
    r <= |chunk| && forall i | 0 <= i < r :: BuildRow(chunk[i]).Ok?
  }

  predicate Inv(s: State) {
    && AllWellFormed(s.blocks)
    && (forall t | t in s.threads && !s.threads[t].Idle? :: s.lock == Some(t))
    && (s.closed.Some? ==> s.lock.None? && |s.closed.value| < POW64)
    && match s.lock
       case None => s.rows == SerialRows(s.calls) && Agree(Packets(s.blocks), s.rows)
       case Some(t) => HolderInv(s, ThreadOf(s, t))
  }

  lemma {:induction false} PacketsOfEmission(row: PacketRow, emitted: seq<Block>)
    requires Emits(row, emitted)
    ensures Packets(emitted) == [emitted[|emitted| - 1]]
    decreases |emitted|
  {
    if |emitted| == 1 {
      assert emitted[1..] == [];
    } else {
      PacketsOfEmission(row, emitted[1..]);
    }
  }

  lemma {:induction false} SinkRowsAccepted(chunk: seq<InputRow>, r: nat)
    requires r < |chunk| && Accepted(chunk, r + 1)
    ensures SinkRows(chunk[..r + 1]) == SinkRows(chunk[..r]) + [BuildRow(chunk[r]).value]
    decreases r
  {
    hide BuildRow;
    if r == 0 {
      assert chunk[..1] == [chunk[0]];
      assert SinkRows([chunk[0]][1..]) == [];
    } else {
      SinkRowsAccepted(chunk[1..], r - 1);
      assert chunk[..r + 1][1..] == chunk[1..][..r] && chunk[..r][1..] == chunk[1..][..r - 1];
      assert forall i | 0 <= i < r :: chunk[1..][i] == chunk[i + 1];
    }
  }

  /** A call that meets a rejected row has sunk exactly the rows before it. */
  lemma {:induction false} SinkRowsStop(chunk: seq<InputRow>, r: nat)
    requires Accepted(chunk, r) && (r == |chunk| || BuildRow(chunk[r]).Err?)
    ensures SinkRows(chunk) == SinkRows(chunk[..r])
    decreases r
  {
    hide BuildRow;
    if r > 0 {
      SinkRowsStop(chunk[1..], r - 1);
      assert chunk[..r][1..] == chunk[1..][..r - 1];
    }
  }

  lemma AgreeAppend(blocks: seq<Block>, rows: seq<PacketRow>, row: PacketRow, emitted: seq<Block>)
    requires Agree(Packets(blocks), rows) && Emits(row, emitted)
    ensures Agree(Packets(blocks + emitted), rows + [row])
  {
    PacketsOfEmission(row, emitted);
    PacketsAppend(blocks, emitted);
    hide Packets, Carried;
  }

  lemma AcquireKeepsInv(s: State, t: nat, chunk: seq<InputRow>)
    requires Inv(s) && CanFire(s, Acquire(t, chunk), true)
    ensures Inv(Fire(s, Acquire(t, chunk), true))
  {
    hide BuildRow, Packets, Agree, SerialRows;
    assert (s.calls + [chunk])[..|s.calls|] == s.calls;
    assert SinkRows(chunk[..0]) == [] && s.rows + [] == s.rows;
  }

  lemma HolderOf(s: State, t: nat)
    requires Inv(s) && !ThreadOf(s, t).Idle?
    ensures s.lock == Some(t) && HolderInv(s, ThreadOf(s, t))
  {
    hide HolderInv;
  }

  lemma WriteKeepsInv(s: State, t: nat, emitted: seq<Block>)
    requires Inv(s) && CanFire(s, Write(t, emitted), true)
    ensures Inv(Fire(s, Write(t, emitted), true))
  {
    hide BuildRow, Packets, Agree, SerialRows, SinkRows, Accepted, Emits, AllWellFormed;
    HolderOf(s, t);
    var th := ThreadOf(s, t);
    AgreeAppend(s.blocks, s.rows, BuildRow(th.chunk[th.r]).value, emitted);
    EmissionAppends(s.blocks, BuildRow(th.chunk[th.r]).value, emitted);
  }

  lemma EmissionAppends(blocks: seq<Block>, row: PacketRow, emitted: seq<Block>)
    requires AllWellFormed(blocks) && Emits(row, emitted)
    ensures AllWellFormed(blocks + emitted)
  {
    hide WellFormed, Holds;
  }

  lemma PushKeepsInv(s: State, t: nat)
    requires Inv(s) && CanFire(s, Push(t), true)
    ensures Inv(Fire(s, Push(t), true))
  {
    hide BuildRow, Packets, Agree, SerialRows, SinkRows;
    HolderOf(s, t);
    var th := ThreadOf(s, t);
    assert Accepted(th.chunk, th.r + 1);
    SinkRowsAccepted(th.chunk, th.r);
    var done := SerialRows(s.calls[..|s.calls| - 1]);
    assert done + SinkRows(th.chunk[..th.r]) + [th.row] == done + (SinkRows(th.chunk[..th.r]) + [th.row]);
  }

  /** Release and abort both end a call. */
  lemma EndKeepsInv(s: State, e: Event)
    requires (e.Release? || e.Abort?) && Inv(s) && CanFire(s, e, true)
    ensures Inv(Fire(s, e, true))
  {
    HolderOf(s, e.t);
    var th := ThreadOf(s, e.t);
    SinkRowsStop(th.chunk, th.r);
    hide BuildRow, Packets, Agree, SinkRows;
  }

  lemma CloseKeepsInv(s: State, parquet: bytes)
    requires Inv(s) && CanFire(s, Close(parquet), true)
    ensures Inv(Fire(s, Close(parquet), true))
  {
    hide BuildRow, Packets, Agree, SerialRows, SinkRows;
  }

  lemma FireKeepsInv(s: State, e: Event)
    requires Inv(s) && CanFire(s, e, true)
    ensures Inv(Fire(s, e, true))
  {
    hide *;
    match e
    case Acquire(t, chunk) => AcquireKeepsInv(s, t, chunk);
    case Write(t, emitted) => WriteKeepsInv(s, t, emitted);
    case Push(t) => PushKeepsInv(s, t);
    case Abort(t) => EndKeepsInv(s, e);
    case Release(t) => EndKeepsInv(s, e);
    case Close(parquet) => CloseKeepsInv(s, parquet);
  }

  lemma {:induction false} RunKeepsInv(s: State, events: seq<Event>)
    requires Inv(s) && CanRun(s, events, true)
    ensures Inv(RunEvents(s, events, true))
    decreases |events|
  {
    if events != [] {
      FireKeepsInv(s, events[0]);
      hide Inv, CanFire, Fire;
      RunKeepsInv(Fire(s, events[0], true), events[1..]);
    }
  }

  // ----- what the invariant gives -----

  /** In every state that any interleaving of guarded sink calls can reach, also in the middle of a row: the i-th
      packet block of the file carries the bytes of the i-th row, and at most one packet block has no row yet. */
  lemma FileOrderIsRowOrder(blocks: seq<Block>, events: seq<Event>)
    requires IsInitialFile(blocks) && CanRun(Start(blocks), events, true)
    ensures var s := RunEvents(Start(blocks), events, true);
      var packets := Packets(s.blocks);
      && AllWellFormed(s.blocks)
      && |s.rows| <= |packets| <= |s.rows| + (if s.lock.None? then 0 else 1)
      && forall i | 0 <= i < |s.rows| :: Holds(packets[i], s.rows[i])
  {
    StartHasInv(blocks);
    RunKeepsInv(Start(blocks), events);
    hide CanRun, RunEvents, SinkRows, SerialRows, BuildRow, Packets, Carried, CanFire;
    var s := RunEvents(Start(blocks), events, true);
    if s.lock.Some? {
      var th := ThreadOf(s, s.lock.value);
      if th.Pushing? {
        assert forall i | 0 <= i < |s.rows| :: (s.rows + [th.row])[i] == s.rows[i];
      }
    }
  }

  lemma StartHasInv(blocks: seq<Block>)
    requires IsInitialFile(blocks)
    ensures Inv(Start(blocks))
  {
  }

  /** In every reachable state at most one thread is inside a sink call, and it holds the lock. */
  lemma MutualExclusion(blocks: seq<Block>, events: seq<Event>, t: nat, u: nat)
    requires IsInitialFile(blocks) && CanRun(Start(blocks), events, true)
    ensures var s := RunEvents(Start(blocks), events, true);
      && (!ThreadOf(s, t).Idle? ==> s.lock == Some(t))
      && (!ThreadOf(s, t).Idle? && !ThreadOf(s, u).Idle? ==> t == u)
  {
    StartHasInv(blocks);
    RunKeepsInv(Start(blocks), events);
    hide CanRun, RunEvents, HolderInv;
  }

  /** The row's captured bytes fit an EPB, whose total length is a 32-bit field. */
  predicate Emittable(row: PacketRow) {
    |Carried(row)| < POW32 - 32
  }

  lemma PlainEmission(row: PacketRow)
    requires Emittable(row)
    ensures Emits(row, [Epb(0, 0, 0, Wrap32(row.origLen), Carried(row), [])])
  {
    hide Carried, Wrap32;
  }

  /** Something can be written for a row if and only if its captured bytes are fewer than 2^32 - 32. */
  lemma EmitsIffFits(row: PacketRow)
    ensures (exists emitted: seq<Block> :: Emits(row, emitted)) <==> |Carried(row)| < POW32 - 32
  {
    hide Carried;
    if emitted: seq<Block> :| Emits(row, emitted) {
      assert WellFormed(emitted[|emitted| - 1]);
    }
    if Emittable(row) {
      PlainEmission(row);
    }
  }

  /** The thread is not about to write a row for which nothing can be written. */
  predicate NextRowFits(th: Thread) {
    th.Sinking? && th.r < |th.chunk| && BuildRow(th.chunk[th.r]).Ok? ==> Emittable(BuildRow(th.chunk[th.r]).value)
  }

  predicate HolderFires(s: State, e: Event) {
    !e.Close? && s.lock == Some(e.t) && CanFire(s, e, true)
  }

  lemma HolderStep(s: State, t: nat) returns (e: Event)
    requires ThreadOf(s, t).Pushing? || (ThreadOf(s, t).Sinking? && ThreadOf(s, t).r <= |ThreadOf(s, t).chunk|)
    requires NextRowFits(ThreadOf(s, t))
    ensures !e.Close? && e.t == t && CanFire(s, e, true)
  {
    hide BuildRow, Carried, Emits, Emittable;
    match ThreadOf(s, t)
    case Pushing(_, _, _) => e := Push(t);
    case Sinking(chunk, r) =>
      if r == |chunk| {
        e := Release(t);
      } else if BuildRow(chunk[r]).Err? {
        e := Abort(t);
      } else {
        var row := BuildRow(chunk[r]).value;
        PlainEmission(row);
        e := Write(t, [Epb(0, 0, 0, Wrap32(row.origLen), Carried(row), [])]);
      }
  }

  lemma HolderStuck(s: State, e: Event)
    requires s.lock.Some? && !NextRowFits(ThreadOf(s, s.lock.value))
    ensures !HolderFires(s, e)
  {
    hide BuildRow, Carried, Emits;
    if e.Write? && HolderFires(s, e) {
      var th := ThreadOf(s, e.t);
      EmitsIffFits(BuildRow(th.chunk[th.r]).value);
      assert false;
    }
  }

  lemma HolderIsInside(s: State)
    requires Inv(s) && s.lock.Some?
    ensures var th := ThreadOf(s, s.lock.value); th.Pushing? || (th.Sinking? && th.r <= |th.chunk|)
  {
    hide BuildRow, Packets, Agree, SerialRows, SinkRows, Accepted;
  }

  /** In every reachable state in which the lock is held, its holder can take a step if and only if it is not about to
      write a row whose captured bytes exceed what an EPB can hold. */
  lemma HolderCanStep(blocks: seq<Block>, events: seq<Event>)
    requires IsInitialFile(blocks) && CanRun(Start(blocks), events, true)
    requires RunEvents(Start(blocks), events, true).lock.Some?
    ensures var s := RunEvents(Start(blocks), events, true);
      (exists e: Event :: HolderFires(s, e)) <==> NextRowFits(ThreadOf(s, s.lock.value))
  {
    hide CanRun, RunEvents, IsInitialFile, Start, Inv, ThreadOf, NextRowFits, CanFire;
    StartHasInv(blocks);
    RunKeepsInv(Start(blocks), events);
    var s := RunEvents(Start(blocks), events, true);
    HolderIsInside(s);
    if NextRowFits(ThreadOf(s, s.lock.value)) {
      var e := HolderStep(s, s.lock.value);
      assert HolderFires(s, e);
    } else {
      forall e: Event
        ensures !HolderFires(s, e)
      {
        HolderStuck(s, e);
      }
    }
  }

  /** What the assumption on the database comes to: in every reachable state in which the copy is closed, no thread is
      inside a call and no further step is possible, so rows and file stay as they were. */
  lemma ClosedIsFinal(blocks: seq<Block>, events: seq<Event>, e: Event)
    requires IsInitialFile(blocks) && CanRun(Start(blocks), events, true)
    requires RunEvents(Start(blocks), events, true).closed.Some?
    ensures !CanFire(RunEvents(Start(blocks), events, true), e, true)
  {
    StartHasInv(blocks);
    RunKeepsInv(Start(blocks), events);
    hide CanRun, RunEvents, HolderInv, BuildRow, Emits, Packets, Agree, SerialRows;
  }

  /** Sink calls are serialised: when no call is running, the rows are those of the calls run one after the other
      in the order in which they took the lock. */
  lemma CallsAreSerialised(blocks: seq<Block>, events: seq<Event>)
    requires IsInitialFile(blocks) && CanRun(Start(blocks), events, true)
    requires RunEvents(Start(blocks), events, true).lock.None?
    ensures var s := RunEvents(Start(blocks), events, true);
      s.rows == SerialRows(s.calls) && Agree(Packets(s.blocks), s.rows) && AllWellFormed(s.blocks)
  {
    StartHasInv(blocks);
    RunKeepsInv(Start(blocks), events);
    hide CanRun, RunEvents, SerialRows, Packets, Agree;
  }

  /** The chunks of a run's sink calls, in the order in which the calls take the lock. */
  function CallsOf(events: seq<Event>): seq<seq<InputRow>> {
    if events == [] then [] else CallOf(events[0]) + CallsOf(events[1..])
  }

  function CallOf(e: Event): seq<seq<InputRow>> {
    if e.Acquire? then [e.chunk] else []
  }

  lemma FireRecordsCall(s: State, e: Event, guarded: bool)
    requires CanFire(s, e, guarded)
    ensures Fire(s, e, guarded).calls == s.calls + CallOf(e)
  {
    hide BuildRow, Emits;
  }

  lemma {:induction false} RunRecordsCalls(s: State, events: seq<Event>, guarded: bool)
    requires CanRun(s, events, guarded)
    ensures RunEvents(s, events, guarded).calls == s.calls + CallsOf(events)
    decreases |events|
  {
    hide CanFire, Fire, CallOf;
    if events == [] {
      assert s.calls + [] == s.calls;
    } else {
      FireRecordsCall(s, events[0], guarded);
      RunRecordsCalls(Fire(s, events[0], guarded), events[1..], guarded);
      assert s.calls + CallOf(events[0]) + CallsOf(events[1..]) == s.calls + (CallOf(events[0]) + CallsOf(events[1..]));
    }
  }

  /** When no call is running, the rows are built from the accepted input rows of the run's calls in lock order. */
  lemma RowsAreBuilt(blocks: seq<Block>, events: seq<Event>)
    requires IsInitialFile(blocks) && CanRun(Start(blocks), events, true)
    requires RunEvents(Start(blocks), events, true).lock.None?
    ensures BuiltFrom(RunEvents(Start(blocks), events, true).rows, AcceptedInputs(CallsOf(events)))
  {
    CallsAreSerialised(blocks, events);
    RunRecordsCalls(Start(blocks), events, true);
    hide CanRun, RunEvents, BuiltFrom, SerialRows, AcceptedInputs, CallsOf;
    assert [] + CallsOf(events) == CallsOf(events);
    SerialRowsBuilt(CallsOf(events));
  }

  /** The block carries the input row: the payload, cut to the low 32 bits of its length, and the original length. */
  predicate CarriesInput(b: Block, input: InputRow) {
    && b.Epb? && input.payload.Some? && input.origLen.Val?
    && b.data == input.payload.value[..Wrap32(|input.payload.value|)]
    && b.origLen == Wrap32(input.origLen.value)
  }

  lemma HeldInput(b: Block, row: PacketRow, input: InputRow)
    requires BuildRow(input) == Ok(row) && Holds(b, row)
    ensures CarriesInput(b, input)
  {
    hide Lower, Text, Port, Wrap32, Wrap64;
  }

  /** When no call is running, the i-th packet block of the file carries the i-th accepted input row of the run's calls
      in lock order, and there are no others. */
  lemma PacketsCarryInputs(blocks: seq<Block>, events: seq<Event>)
    requires IsInitialFile(blocks) && CanRun(Start(blocks), events, true)
    requires RunEvents(Start(blocks), events, true).lock.None?
    ensures var packets := Packets(RunEvents(Start(blocks), events, true).blocks);
      var inputs := AcceptedInputs(CallsOf(events));
      |packets| == |inputs| && forall i | 0 <= i < |inputs| :: CarriesInput(packets[i], inputs[i])
  {
    CallsAreSerialised(blocks, events);
    RowsAreBuilt(blocks, events);
    hide CanRun, RunEvents, SerialRows, AcceptedInputs, CallsOf, Packets, BuildRow, Holds, CarriesInput;
    var s := RunEvents(Start(blocks), events, true);
    var inputs := AcceptedInputs(CallsOf(events));
    forall i | 0 <= i < |inputs|
      ensures CarriesInput(Packets(s.blocks)[i], inputs[i])
    {
      HeldInput(Packets(s.blocks)[i], s.rows[i], inputs[i]);
    }
  }

  // ----- finalizing -----

  datatype FinalizeError = RowCountMismatch

  /** Finalizing in `pqcap` mode: the scan of the closed file must have one location per row; the index is then
      embedded.  Writing the metadata is not visible, so its bytes are given. */
  function Finalize(file: bytes, rows: seq<PacketRow>, parquet: bytes): Result<(bytes, seq<Location>), FinalizeError>
    requires |parquet| < POW64
  {
    var locs := Scan(file, 0);
    if |rows| != |locs| then Err(RowCountMismatch) else Ok((Embedded(file, parquet), locs))
  }

  /** The bytes of the file that an index row points at. */
  predicate PointsAt(file: bytes, loc: Location, data: bytes) {
    loc.offset + loc.size <= |file| && file[loc.offset..loc.offset + loc.size] == data
  }

  lemma AgreeingScan(blocks: seq<Block>, rows: seq<PacketRow>)
    requires AllWellFormed(blocks) && Agree(Packets(blocks), rows)
    ensures var file := EncodeAll(blocks);
      && |Scan(file, 0)| == |rows|
      && forall i | 0 <= i < |rows| :: PointsAt(file, Scan(file, 0)[i], Carried(rows[i]))
  {
    ScanIsExact(blocks);
    hide EncodeAll, Scan, Packets, Carried;
    var file := EncodeAll(blocks);
    forall i | 0 <= i < |rows|
      ensures PointsAt(file, Scan(file, 0)[i], Carried(rows[i]))
    {
      assert Addresses(file, Scan(file, 0)[i], Packets(blocks)[i]);
    }
  }

  lemma PointsAtExtended(file: bytes, longer: bytes, loc: Location, data: bytes)
    requires file <= longer && PointsAt(file, loc, data)
    ensures PointsAt(longer, loc, data)
  {
    assert longer[..|file|] == file;
    assert file[loc.offset..loc.offset + loc.size] == longer[..|file|][loc.offset..loc.offset + loc.size];
  }

  lemma {:induction false} PacketsWellFormed(blocks: seq<Block>)
    requires AllWellFormed(blocks)
    ensures AllWellFormed(Packets(blocks))
    decreases |blocks|
  {
    hide WellFormed;
    if blocks != [] {
      PacketsWellFormed(blocks[1..]);
    }
  }

  /** Every row that has reached the file could be written. */
  lemma RowsAreEmittable(blocks: seq<Block>, rows: seq<PacketRow>, i: nat)
    requires AllWellFormed(blocks) && Agree(Packets(blocks), rows) && i < |rows|
    ensures Emittable(rows[i])
  {
    PacketsWellFormed(blocks);
    hide Packets, Carried;
    assert WellFormed(Packets(blocks)[i]) && Holds(Packets(blocks)[i], rows[i]);
  }

  lemma CarriedIsWhole(row: PacketRow)
    requires Emittable(row)
    ensures Carried(row) == row.packetBytes <==> |row.packetBytes| < POW32 - 32
  {
  }

  /** In every reachable state in which the copy is closed, finalizing reports no mismatch, every row fits an EPB, and
      in the finished file the i-th location of the index points at exactly the i-th row's packet bytes if and only if
      those are fewer than 2^32 - 32. */
  lemma FinalizedIndexIsRight(blocks: seq<Block>, events: seq<Event>)
    requires IsInitialFile(blocks) && CanRun(Start(blocks), events, true)
    requires RunEvents(Start(blocks), events, true).closed.Some?
    ensures var s := RunEvents(Start(blocks), events, true);
      AllWellFormed(s.blocks) && |s.closed.value| < POW64 &&
      var r := Finalize(EncodeAll(s.blocks), s.rows, s.closed.value);
      && r.Ok? && |r.value.1| == |s.rows|
      && forall i | 0 <= i < |s.rows| :: IndexedRightIffFits(r.value.0, r.value.1[i], s.rows[i])
  {
    ClosedAgrees(blocks, events);
    hide CanRun, RunEvents, IsInitialFile;
    var s := RunEvents(Start(blocks), events, true);
    FinalizeAgreeing(s.blocks, s.rows, s.closed.value);
  }

  /** The captured bytes fit an EPB, and the location points at the whole payload exactly when that is below the same
      bound; so no payload of 2^32 - 32 to 2^32 - 1 bytes is in the file at all. */
  predicate IndexedRightIffFits(file: bytes, loc: Location, row: PacketRow) {
    && Emittable(row)
    && (PointsAt(file, loc, row.packetBytes) <==> |row.packetBytes| < POW32 - 32)
  }

  lemma ClosedAgrees(blocks: seq<Block>, events: seq<Event>)
    requires IsInitialFile(blocks) && CanRun(Start(blocks), events, true)
    requires RunEvents(Start(blocks), events, true).closed.Some?
    ensures var s := RunEvents(Start(blocks), events, true);
      && s.lock.None? && AllWellFormed(s.blocks) && |s.closed.value| < POW64 && Agree(Packets(s.blocks), s.rows)
  {
    StartHasInv(blocks);
    RunKeepsInv(Start(blocks), events);
    hide CanRun, RunEvents, SerialRows, Packets, Agree, HolderInv;
  }

  lemma FinalizeAgreeing(blocks: seq<Block>, rows: seq<PacketRow>, parquet: bytes)
    requires AllWellFormed(blocks) && Agree(Packets(blocks), rows) && |parquet| < POW64
    ensures var r := Finalize(EncodeAll(blocks), rows, parquet);
      && r.Ok? && |r.value.1| == |rows|
      && forall i | 0 <= i < |rows| :: IndexedRightIffFits(r.value.0, r.value.1[i], rows[i])
  {
    hide Agree, Scan, Embedded, EncodeAll, Carried, PointsAt, Emittable;
    AgreeingScan(blocks, rows);
    var file := EncodeAll(blocks);
    var final := Embedded(file, parquet);
    EmbeddedTailParses(file, parquet);
    forall i | 0 <= i < |rows|
      ensures IndexedRightIffFits(final, Scan(file, 0)[i], rows[i])
    {
      RowsAreEmittable(blocks, rows, i);
      PointsAtExtended(file, final, Scan(file, 0)[i], Carried(rows[i]));
      CarriedIsWhole(rows[i]);
      PointsAtOne(final, Scan(file, 0)[i], Carried(rows[i]), rows[i].packetBytes);
    }
  }

  lemma PointsAtOne(file: bytes, loc: Location, a: bytes, b: bytes)
    requires PointsAt(file, loc, a)
    ensures PointsAt(file, loc, b) <==> a == b
  {
  }

  // ----- the lock is needed -----

  function SampleInput(b: byte): InputRow {
    InputRow(Val(0), Val(1), Some([b]), Null, Null, Null, None, None, None, Null, Null, None)
  }

  function SampleRow(b: byte): PacketRow {
    PacketRow(0, 1, 1, 0, 0, "", [b], "", "", None, None, "")
  }

  function SampleEpb(b: byte): Block {
    Epb(0, 0, 0, 1, [b], [0, 0, 0])
  }

  lemma SampleFacts(b: byte)
    ensures BuildRow(SampleInput(b)) == Ok(SampleRow(b)) && Carried(SampleRow(b)) == [b]
    ensures Emits(SampleRow(b), [SampleEpb(b)])
  {
    assert Lower("") == "";
  }

  /** Two one-row calls whose write and push steps cross. */
  function CrossedEvents(): seq<Event> {
    [Acquire(0, [SampleInput(10)]), Acquire(1, [SampleInput(20)]),
     Write(0, [SampleEpb(10)]), Write(1, [SampleEpb(20)]),
     Push(1), Push(0), Release(1), Release(0)]
  }

  function Crossed(): State {
    State([SampleEpb(10), SampleEpb(20)], [SampleRow(20), SampleRow(10)], None, map[0 := Idle, 1 := Idle],
          [[SampleInput(10)], [SampleInput(20)]], None)
  }

  lemma StepThen(s: State, s1: State, e: Event, events: seq<Event>, rest: seq<Event>, final: State,
                 guarded: bool)
    requires events == [e] + rest
    requires CanFire(s, e, guarded) && s1 == Fire(s, e, guarded)
    requires CanRun(s1, rest, guarded) && RunEvents(s1, rest, guarded) == final
    ensures CanRun(s, events, guarded) && RunEvents(s, events, guarded) == final
  {
    hide CanFire, Fire;
    assert events[0] == e && events[1..] == rest;
  }

  /** Both packets are written and neither row is pushed. */
  function HalfCrossed(): State {
    State([SampleEpb(10), SampleEpb(20)], [], Some(1),
          map[0 := Pushing([SampleInput(10)], 0, SampleRow(10)), 1 := Pushing([SampleInput(20)], 0, SampleRow(20))],
          [[SampleInput(10)], [SampleInput(20)]], None)
  }

  lemma CrossedSecondHalf()
    ensures var events := CrossedEvents()[4..];
      CanRun(HalfCrossed(), events, false) && RunEvents(HalfCrossed(), events, false) == Crossed()
  {
    hide SampleInput, SampleRow, SampleEpb, BuildRow, Emits, CanRun, RunEvents;
    var c0, c1 := [SampleInput(10)], [SampleInput(20)];
    var bs, r0, r1 := [SampleEpb(10), SampleEpb(20)], SampleRow(10), SampleRow(20);
    var e := CrossedEvents();
    var s5 := State(bs, [r1], Some(1), map[0 := Pushing(c0, 0, r0), 1 := Sinking(c1, 1)], [c0, c1], None);
    var s6 := State(bs, [r1, r0], Some(1), map[0 := Sinking(c0, 1), 1 := Sinking(c1, 1)], [c0, c1], None);
    var s7 := State(bs, [r1, r0], None, map[0 := Sinking(c0, 1), 1 := Idle], [c0, c1], None);
    LastStep(Crossed(), false);
    StepThen(s7, Crossed(), e[7], e[7..], e[8..], Crossed(), false);
    StepThen(s6, s7, e[6], e[6..], e[7..], Crossed(), false);
    StepThen(s5, s6, e[5], e[5..], e[6..], Crossed(), false);
    StepThen(HalfCrossed(), s5, e[4], e[4..], e[5..], Crossed(), false);
  }

  lemma CrossedRun()
    ensures CanRun(Start([]), CrossedEvents(), false) && RunEvents(Start([]), CrossedEvents(), false) == Crossed()
  {
    hide SampleInput, SampleRow, SampleEpb, BuildRow, Emits, CanRun, RunEvents, Crossed;
    var c0, c1 := [SampleInput(10)], [SampleInput(20)];
    var b0, r0 := SampleEpb(10), SampleRow(10);
    SampleFacts(10);
    SampleFacts(20);
    var e := CrossedEvents();
    var s1 := State([], [], Some(0), map[0 := Sinking(c0, 0)], [c0], None);
    var s2 := State([], [], Some(1), map[0 := Sinking(c0, 0), 1 := Sinking(c1, 0)], [c0, c1], None);
    var s3 := State([b0], [], Some(1), map[0 := Pushing(c0, 0, r0), 1 := Sinking(c1, 0)], [c0, c1], None);
    CrossedSecondHalf();
    StepThen(s3, HalfCrossed(), e[3], e[3..], e[4..], Crossed(), false);
    StepThen(s2, s3, e[2], e[2..], e[3..], Crossed(), false);
    StepThen(s1, s2, e[1], e[1..], e[2..], Crossed(), false);
    StepThen(Start([]), s1, e[0], e, e[1..], Crossed(), false);
  }

  lemma LastStep(s: State, guarded: bool)
    ensures CanRun(s, [], guarded) && RunEvents(s, [], guarded) == s
  {
  }

  /** Without the lock the join by position breaks: a run of two calls ends with both rows and both packets written,
      yet the packets do not carry the bytes of the rows in the same positions. */
  lemma UnguardedCallsBreakIndex()
    ensures CanRun(Start([]), CrossedEvents(), false)
    ensures var s := RunEvents(Start([]), CrossedEvents(), false);
      s.lock.None? && |s.rows| == |Packets(s.blocks)| == 2 && !Agree(Packets(s.blocks), s.rows)
  {
    hide CanRun, RunEvents, CrossedEvents, Carried, Packets;
    CrossedRun();
    SampleFacts(20);
    TwoPackets(SampleEpb(10), SampleEpb(20));
    var first: bytes, second: bytes := [10], [20];
    assert first[0] != second[0];
    assert Packets(Crossed().blocks)[0].data == first && Carried(Crossed().rows[0]) == second;
  }

  lemma TwoPackets(a: Block, b: Block)
    requires IsPacket(a) && IsPacket(b)
    ensures Packets([a, b]) == [a, b]
  {
    assert [a, b][1..] == [b] && [b][1..] == [];
    assert Packets([b]) == [b] + Packets([]);
  }

  // ----- a payload that is too long -----

  function LongInput(): InputRow {
    InputRow(Val(0), Val(1), Some(Zeros(POW32)), Null, Null, Null, None, None, None, Null, Null, None)
  }

  function LongRow(): PacketRow {
    PacketRow(0, 1, POW32, 0, 0, "", Zeros(POW32), "", "", None, None, "")
  }

  lemma LongFacts()
    ensures BuildRow(LongInput()) == Ok(LongRow()) && Carried(LongRow()) == []
    ensures Emits(LongRow(), [Epb(0, 0, 0, 1, [], [])])
  {
    hide Zeros;
    assert Lower("") == "";
  }

  function LongEvents(): seq<Event> {
    [Acquire(0, [LongInput()]), Write(0, [Epb(0, 0, 0, 1, [], [])]), Push(0), Release(0), Close([])]
  }

  /** The packet is written and its row pushed. */
  function LongPushed(): State {
    State([Epb(0, 0, 0, 1, [], [])], [LongRow()], Some(0), map[0 := Sinking([LongInput()], 1)], [[LongInput()]], None)
  }

  function LongClosed(): State {
    State([Epb(0, 0, 0, 1, [], [])], [LongRow()], None, map[0 := Idle], [[LongInput()]], Some([]))
  }

  lemma LongSecondHalf()
    ensures var events := LongEvents()[3..];
      CanRun(LongPushed(), events, true) && RunEvents(LongPushed(), events, true) == LongClosed()
  {
    hide LongInput, LongRow, BuildRow, Emits, CanRun, RunEvents;
    var e, c := LongEvents(), [LongInput()];
    var s4 := State([Epb(0, 0, 0, 1, [], [])], [LongRow()], None, map[0 := Idle], [c], None);
    LastStep(LongClosed(), true);
    StepThen(s4, LongClosed(), e[4], e[4..], e[5..], LongClosed(), true);
    StepThen(LongPushed(), s4, e[3], e[3..], e[4..], LongClosed(), true);
  }

  lemma LongRun()
    ensures CanRun(Start([]), LongEvents(), true) && RunEvents(Start([]), LongEvents(), true) == LongClosed()
  {
    hide LongInput, LongRow, BuildRow, Emits, CanRun, RunEvents, LongClosed;
    LongFacts();
    var e, c, b := LongEvents(), [LongInput()], Epb(0, 0, 0, 1, [], []);
    var s1 := State([], [], Some(0), map[0 := Sinking(c, 0)], [c], None);
    var s2 := State([b], [], Some(0), map[0 := Pushing(c, 0, LongRow())], [c], None);
    LongSecondHalf();
    StepThen(s2, LongPushed(), e[2], e[2..], e[3..], LongClosed(), true);
    StepThen(s1, s2, e[1], e[1..], e[2..], LongClosed(), true);
    StepThen(Start([]), s1, e[0], e, e[1..], LongClosed(), true);
  }

  /** A payload of 2^32 bytes, if one can be received, is lost: its captured length wraps to zero, the copy finalizes
      without complaint, and the index entry does not address the payload. */
  lemma LongPayloadIsLost()
    ensures CanRun(Start([]), LongEvents(), true)
    ensures var s := RunEvents(Start([]), LongEvents(), true);
      AllWellFormed(s.blocks) && s.closed == Some([]) && |s.rows| == 1 && |s.rows[0].packetBytes| == POW32 &&
      var r := Finalize(EncodeAll(s.blocks), s.rows, []);
      r.Ok? && |r.value.1| == 1 && !PointsAt(r.value.0, r.value.1[0], s.rows[0].packetBytes)
  {
    hide CanRun, RunEvents, LongEvents, Finalize, PointsAt, EncodeAll;
    LongRun();
    assert Packets([]) == [];
    FinalizedIndexIsRight([], LongEvents());
  }

  // ----- the sink call as the code runs it, under its lock -----

  function Concat(emissions: seq<seq<Block>>): seq<Block> {
    if emissions == [] then [] else Concat(emissions[..|emissions| - 1]) + emissions[|emissions| - 1]
  }

  class PqcapCopyGlobalState {
    var blocks: seq<Block>
    var rows: seq<PacketRow>
    var writerOpen: bool

    constructor (initial: seq<Block>)
      ensures blocks == initial && rows == [] && writerOpen
    {
      blocks := initial;
      rows := [];
      writerOpen := true;
    }

    /** `emissions[r]` is what the packet writer appends for row `r` of the chunk. */
    method PcapngWriteSink(input: seq<InputRow>, emissions: seq<seq<Block>>) returns (error: Option<SinkError>)
      requires |emissions| == |input|
      requires forall r | 0 <= r < |input| && BuildRow(input[r]).Ok? :: Emits(BuildRow(input[r]).value, emissions[r])
      modifies `blocks, `rows
      ensures rows == old(rows) + SinkRows(input)
      ensures |SinkRows(input)| <= |input| && blocks == old(blocks) + Concat(emissions[..|SinkRows(input)|])
      ensures error.None? <==> |SinkRows(input)| == |input|
      ensures error.Some? ==> |SinkRows(input)| < |input| && BuildRow(input[|SinkRows(input)|]) == Err(error.value)
      ensures old(Agree(Packets(blocks), rows)) ==> Agree(Packets(blocks), rows)
    {
      hide BuildRow, Packets, Agree, SinkRows;
      NoRows(input);
      for r := 0 to |input|
        invariant Accepted(input, r)
        invariant rows == old(rows) + SinkRows(input[..r]) && |SinkRows(input[..r])| == r
        invariant blocks == old(blocks) + Concat(emissions[..r])
        invariant old(Agree(Packets(blocks), rows)) ==> Agree(Packets(blocks), rows)
      {
        var built := BuildRow(input[r]);
        if built.Err? {
          SinkRowsStop(input, r);
          return Some(built.error);
        }
        if Agree(Packets(blocks), rows) {
          AgreeAppend(blocks, rows, built.value, emissions[r]);
        }
        SinkRowsAccepted(input, r);
        assert emissions[..r + 1][..r] == emissions[..r];
        blocks := blocks + emissions[r];
        rows := rows + [built.value];
      }
      SinkRowsStop(input, |input|);
      error := None;
    }

    /** Closes the writer and, in `pqcap` mode, scans the closed file and embeds the index.  The answer is the file
        on disk and the locations that the index rows carry. */
    method PcapngWriteFinalize(pqcapMode: bool, parquet: bytes)
      returns (r: Result<(bytes, seq<Location>), FinalizeError>)
      requires AllWellFormed(blocks) && |parquet| < POW64
      modifies `writerOpen
      ensures !writerOpen
      ensures r == if pqcapMode then Finalize(EncodeAll(blocks), rows, parquet) else Ok((EncodeAll(blocks), []))
    {
      hide EncodeAll, Scan, Embedded;
      writerOpen := false;
      var file := EncodeAll(blocks);
      if !pqcapMode {
        return Ok((file, []));
      }
      var data := ToArray(file);
      var locations := ScanPacketLocations(data);
      if |rows| != |locations| {
        return Err(RowCountMismatch);
      }
      var capture := new ByteVector(file);
      EmbedParquet(capture, parquet);
      return Ok((capture.data, locations));
    }
  }

  lemma NoRows(input: seq<InputRow>)
    ensures SinkRows(input[..0]) == []
  {
  }
}
