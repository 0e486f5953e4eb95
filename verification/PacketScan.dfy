/** The batched scan behind `read_pqcap_packets`, over a classic capture. */
module PacketScan {
  import opened Bytes
  import opened Wrappers
  import opened ClassicPcap
  import opened PacketDecoder

  /** STANDARD_VECTOR_SIZE */
  const VECTOR_SIZE: nat := 2048

  datatype ScanRow = ScanRow(
    timestampMicros: int, interfaceId: u32, dataLink: u16, capturedLength: u32, origLen: u32,
    srcIp: Option<string>, dstIp: Option<string>, srcPort: Option<int>, dstPort: Option<int>,
    protocol: string, payload: Option<bytes>)

  function NonEmpty(s: string): Option<string> {
    if s == "" then None else Some(s)
  }

  /** The output row of a packet. */
  function RowOf(p: Packet): ScanRow {
    RowWith(p, ParseL4(p.header.dataLink, p.data))
  }

  function RowWith(p: Packet, l4: ParsedL4): ScanRow {
    ScanRow(
      TimestampMicros(p.header), p.header.interfaceId, p.header.dataLink,
      p.header.capturedLength, p.header.originalLength,
      NonEmpty(l4.srcIp), NonEmpty(l4.dstIp),
      if l4.hasPorts then Some(l4.srcPort) else None, if l4.hasPorts then Some(l4.dstPort) else None,
      l4.protocol, if p.data == [] then None else Some(p.data))
  }

  function RowsOf(ps: seq<Packet>): (rows: seq<ScanRow>)
    ensures |rows| == |ps|
  {
    seq(|ps|, i requires 0 <= i < |ps| => RowOf(ps[i]))
  }

  /** The state between calls: the reader and whether the scan is over. */
  datatype ScanState = ScanState(reader: Reader, finished: bool)

  /** A call outputs rows, or throws and outputs none. */
  datatype CallResult = Rows(rows: seq<ScanRow>) | Threw

  predicate ValidScan(s: ScanState) {
    s.reader.pos <= |s.reader.file|
  }

  /** Up to `n` more rows of a batch. */
  function Fill(r: Reader, n: nat): (res: (ScanState, CallResult))
    requires r.pos <= |r.file|
    ensures ValidScan(res.0)
    decreases n
  {
    if n == 0 then (ScanState(r, false), Rows([]))
    else
      hide Next, RowOf;
      var (r1, outcome) := Next(r);
      match outcome
      case End => (ScanState(r1, true), Rows([]))
      case TruncatedData => (ScanState(r1, false), Threw)
      case Got(p) => Prepend([RowOf(p)], Fill(r1, n - 1))
  }

  /** A batch with the rows already produced in front. */
  function Prepend(rows: seq<ScanRow>, res: (ScanState, CallResult)): (ScanState, CallResult) {
    (res.0, if res.1.Threw? then Threw else Rows(rows + res.1.rows))
  }

  /** One call of the table function. */
  function Call(s: ScanState): (res: (ScanState, CallResult))
    requires ValidScan(s)
    ensures ValidScan(res.0)
  {
    if s.finished then (s, Rows([])) else Fill(s.reader, VECTOR_SIZE)
  }

  class PacketsGlobalState {
    const classicReader: ClassicPcapReader
    var finished: bool

    constructor (reader: ClassicPcapReader)
      ensures classicReader == reader && !finished
    {
      classicReader := reader;
      finished := false;
    }

    ghost predicate Valid()
      reads this, classicReader
    {
      classicReader.Valid()
    }

    function State(): ScanState
      reads this, classicReader
    {
      ScanState(classicReader.State(), finished)
    }

    method ReadPqcapPacketsFunction() returns (result: CallResult)
      requires Valid()
      modifies this, classicReader
      ensures Valid() && (State(), result) == Call(old(State()))
    {
      hide Next, RowOf;
      if finished {
        return Rows([]);
      }
      var output: seq<ScanRow> := [];
      NoRowsYet(Fill(classicReader.State(), VECTOR_SIZE));
      var rowCount := 0;
      while rowCount < VECTOR_SIZE
        invariant rowCount <= VECTOR_SIZE && Valid() && !finished
        invariant Prepend(output, Fill(classicReader.State(), VECTOR_SIZE - rowCount))
               == Fill(old(classicReader.State()), VECTOR_SIZE)
      {
        ghost var before := classicReader.State();
        var outcome := classicReader.ReadNext();
        if outcome.End? {
          finished := true;
          break;
        }
        if outcome.TruncatedData? {
          return Threw;
        }
        var row := BuildRow(outcome.packet);
        FillStep(before, VECTOR_SIZE - rowCount, output, outcome.packet);
        output := output + [row];
        rowCount := rowCount + 1;
      }
      assert output + [] == output;
      result := Rows(output);
    }

    method BuildRow(p: Packet) returns (row: ScanRow)
      ensures row == RowOf(p)
    {
      var data := ToArray(p.data);
      var parsed := ParseL4Fields(p.header.dataLink, data);
      row := RowWith(p, parsed);
    }
  }

  lemma NoRowsYet(res: (ScanState, CallResult))
    ensures Prepend([], res) == res
  {
    assert res.1.Rows? ==> [] + res.1.rows == res.1.rows;
  }

  lemma FillStep(r: Reader, n: nat, rows: seq<ScanRow>, p: Packet)
    requires r.pos <= |r.file| && n > 0 && Next(r).1 == Got(p)
    ensures Prepend(rows, Fill(r, n)) == Prepend(rows + [RowOf(p)], Fill(Next(r).0, n - 1))
  {
    hide Next, RowOf;
    var rest := Fill(Next(r).0, n - 1);
    if rest.1.Rows? {
      assert rows + ([RowOf(p)] + rest.1.rows) == rows + [RowOf(p)] + rest.1.rows;
    }
  }

  // ----- the batches are the packet list, cut at multiples of the vector size -----

  /** Nothing is left to deliver. */
  predicate Drained(s: ScanState) {
    ValidScan(s) && (s.finished || ReadAll(s.reader) == ([], CleanEnd))
  }

  lemma RowsOfStep(ps: seq<Packet>, k: nat)
    requires 0 < k <= |ps|
    ensures RowsOf(ps[..k]) == [RowOf(ps[0])] + RowsOf(ps[1..][..k - 1])
  {
    hide RowOf;
    assert forall i | 0 < i < k :: ps[..k][i] == ps[1..][..k - 1][i - 1];
  }

  lemma EndIsDrained(r: Reader)
    requires r.pos <= |r.file| && !Next(r).1.Got?
    ensures Next(r).0.pos <= |r.file| && Next(r).0.file == r.file
    ensures ReadAll(Next(r).0) == ([], CleanEnd)
  {
    hide HostWord, PacketAt;
  }

  lemma ReadAllCases(r: Reader)
    requires r.pos <= |r.file|
    ensures var (r1, outcome) := Next(r);
      && r1.pos <= |r1.file|
      && (outcome.End? ==> ReadAll(r) == ([], CleanEnd))
      && (outcome.TruncatedData? ==> ReadAll(r) == ([], DataTruncated))
      && (outcome.Got? ==> ReadAll(r) == ([outcome.packet] + ReadAll(r1).0, ReadAll(r1).1))
  {
    hide HostWord, PacketAt;
  }

  /** A full batch leaves a reader whose packets are the remaining ones. */
  lemma {:induction false} FillFull(r: Reader, k: nat)
    requires r.pos <= |r.file| && k <= |ReadAll(r).0|
    ensures var (s, result) := Fill(r, k);
      && result == Rows(RowsOf(ReadAll(r).0[..k])) && !s.finished
      && ReadAll(s.reader) == (ReadAll(r).0[k..], ReadAll(r).1)
    decreases k
  {
    hide Next, RowOf, RowsOf, ReadAll;
    ReadAllCases(r);
    if k == 0 {
      NoPackets(ReadAll(r).0);
    } else {
      var ps := ReadAll(r).0;
      var r1 := Next(r).0;
      assert ps[1..] == ReadAll(r1).0;
      FillFull(r1, k - 1);
      RowsOfStep(ps, k);
      assert ps[1..][k - 1..] == ps[k..];
    }
  }

  lemma NoPackets(ps: seq<Packet>)
    ensures RowsOf(ps[..0]) == [] && ps[0..] == ps
  {
  }

  /** A batch that outlasts the packets ends the scan, or throws when the data was cut. */
  lemma {:induction false} FillShort(r: Reader, k: nat)
    requires r.pos <= |r.file| && k > |ReadAll(r).0|
    ensures var (s, result) := Fill(r, k);
      && result == (if ReadAll(r).1.CleanEnd? then Rows(RowsOf(ReadAll(r).0)) else Threw)
      && Drained(s)
    decreases k
  {
    hide Next, RowOf, RowsOf, ReadAll;
    ReadAllCases(r);
    var ps := ReadAll(r).0;
    if Next(r).1.Got? {
      assert ps[1..] == ReadAll(Next(r).0).0;
      FillShort(Next(r).0, k - 1);
      RowsOfStep(ps, |ps|);
      assert ps[..|ps|] == ps && ps[1..][..|ps| - 1] == ps[1..];
    } else {
      EndIsDrained(r);
      assert ps == [] && RowsOf(ps) == [];
    }
  }

  /** The state after `n` calls. */
  function After(s: ScanState, n: nat): (r: ScanState)
    requires ValidScan(s)
    ensures ValidScan(r)
  {
    if n == 0 then s else Call(After(s, n - 1)).0
  }

  lemma DrainedCall(s: ScanState)
    requires Drained(s)
    ensures Call(s).1 == Rows([]) && Drained(Call(s).0)
  {
    if !s.finished {
      FillShort(s.reader, VECTOR_SIZE);
    }
  }

  /** After `n` calls the scan still owes exactly the packets past the first `n` batches. */
  lemma {:induction false} StateAfter(r: Reader, n: nat)
    requires r.pos <= |r.file|
    ensures var (ps, ending) := ReadAll(r);
      var s := After(ScanState(r, false), n);
      if n * VECTOR_SIZE <= |ps|
      then !s.finished && ReadAll(s.reader) == (ps[n * VECTOR_SIZE..], ending) else Drained(s)
    decreases n
  {
    hide Fill, ReadAll, Drained;
    var ps := ReadAll(r).0;
    if n == 0 {
      assert ps[0..] == ps;
    } else {
      StateAfter(r, n - 1);
      var before := After(ScanState(r, false), n - 1);
      if n * VECTOR_SIZE <= |ps| {
        FillFull(before.reader, VECTOR_SIZE);
        assert ps[(n - 1) * VECTOR_SIZE..][VECTOR_SIZE..] == ps[n * VECTOR_SIZE..];
      } else if (n - 1) * VECTOR_SIZE <= |ps| {
        FillShort(before.reader, VECTOR_SIZE);
      } else {
        DrainedCall(before);
      }
    }
  }

  /** The result that call number `n` ought to have, given all packets and how the capture ends: a full batch as
      long as they last, then the rest (nothing, when the count is a multiple of the batch size), then nothing for
      ever.  When the capture's data is cut, the call that meets the cut throws instead. */
  function Batch(ps: seq<Packet>, ending: Ending, n: nat): CallResult {
    var from, to := n * VECTOR_SIZE, (n + 1) * VECTOR_SIZE;
    if to <= |ps| then Rows(RowsOf(ps[from..to]))
    else if from > |ps| then Rows([])
    else if ending.CleanEnd? then Rows(RowsOf(ps[from..]))
    else Threw
  }

  lemma CallOwing(s: ScanState, ps: seq<Packet>, ending: Ending, n: nat)
    requires ValidScan(s) && !s.finished && n * VECTOR_SIZE <= |ps|
    requires ReadAll(s.reader) == (ps[n * VECTOR_SIZE..], ending)
    ensures Call(s).1 == Batch(ps, ending, n)
  {
    hide Fill, ReadAll, RowsOf;
    if (n + 1) * VECTOR_SIZE <= |ps| {
      FillFull(s.reader, VECTOR_SIZE);
      assert ps[n * VECTOR_SIZE..][..VECTOR_SIZE] == ps[n * VECTOR_SIZE..(n + 1) * VECTOR_SIZE];
    } else {
      FillShort(s.reader, VECTOR_SIZE);
    }
  }

  /** Call number `n`, counting from zero, delivers exactly the packets `n * 2048 .. (n + 1) * 2048` of the capture. */
  lemma BatchesCutTheList(r: Reader, n: nat)
    requires r.pos <= |r.file|
    ensures Call(After(ScanState(r, false), n)).1 == Batch(ReadAll(r).0, ReadAll(r).1, n)
  {
    hide ReadAll, RowsOf, Call, After, Drained;
    StateAfter(r, n);
    var s := After(ScanState(r, false), n);
    if n * VECTOR_SIZE <= |ReadAll(r).0| {
      CallOwing(s, ReadAll(r).0, ReadAll(r).1, n);
    } else {
      DrainedCall(s);
    }
  }

  /** All rows of the first `n` calls, one batch after the other. */
  function Delivered(s: ScanState, n: nat): seq<ScanRow>
    requires ValidScan(s)
  {
    if n == 0 then []
    else
      var result := Call(After(s, n - 1)).1;
      Delivered(s, n - 1) + (if result.Rows? then result.rows else [])
  }

  lemma RowsOfJoin(ps: seq<Packet>, i: nat, j: nat)
    requires i <= j <= |ps|
    ensures RowsOf(ps[..i]) + RowsOf(ps[i..j]) == RowsOf(ps[..j])
  {
    hide RowOf;
  }

  /** Put together, the batches of a capture that ends cleanly are all its packets, once each and in order. */
  lemma {:induction false} BatchesConcatenate(r: Reader, n: nat)
    requires r.pos <= |r.file| && ReadAll(r).1.CleanEnd?
    ensures var ps := ReadAll(r).0;
      Delivered(ScanState(r, false), n) == RowsOf(ps[..if n * VECTOR_SIZE <= |ps| then n * VECTOR_SIZE else |ps|])
    decreases n
  {
    hide ReadAll, Call, After, RowsOf;
    var ps := ReadAll(r).0;
    if n == 0 {
      NoPackets(ps);
    } else {
      BatchesConcatenate(r, n - 1);
      BatchesCutTheList(r, n - 1);
      var from, to := (n - 1) * VECTOR_SIZE, n * VECTOR_SIZE;
      if to <= |ps| {
        RowsOfJoin(ps, from, to);
      } else if from <= |ps| {
        RowsOfJoin(ps, from, |ps|);
        assert ps[from..] == ps[from..|ps|];
      } else {
        assert RowsOf(ps[..|ps|]) + [] == RowsOf(ps[..|ps|]);
      }
    }
  }
}
