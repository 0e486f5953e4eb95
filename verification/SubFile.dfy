/** The read-only sub-file handle: a byte range of an inner file served as a file of its own. */
module SubFile {
  import opened Bytes
  import opened Wrappers

  const POW63: int := 0x8000_0000_0000_0000

  /** A non-negative byte count of type `int64_t`. */
  type count = x: int | 0 <= x < 0x8000_0000_0000_0000

  /** The state of a handle: the inner file's contents, the range, and the seek position. */
  datatype Handle = Handle(inner: bytes, base: u64, size: u64, pos: u64)

  datatype Op =
    | Seek(location: u64)
    | Reset
    | Read(n: count)
    | ReadAt(n: count, at: u64)
    | SeekPosition
    | GetFileSize

  datatype Output = Done | Data(data: bytes) | Number(value: int) | Failed

  function Min(a: nat, b: nat): (m: nat)
    ensures m <= a && m <= b
  {
    if a < b then a else b
  }

  /** An exact positional read of the inner file; it fails when the bytes are not all there. */
  function InnerRead(inner: bytes, n: nat, at: nat): Option<bytes> {
    if at + n <= |inner| then Some(inner[at..at + n]) else None
  }

  /** How many bytes a request may read at a position of the sub-file. */
  function Clipped(size: u64, n: count, at: u64): u64 {
    if at >= size then 0 else Min(n, size - at)
  }

  function Fetch(h: Handle, n: count, at: u64): Option<bytes> {
    var toRead := Clipped(h.size, n, at);
    if toRead == 0 then Some([]) else InnerRead(h.inner, toRead, Add64(at, h.base))
  }

  /** What each handle operation does, in the code's own 64-bit arithmetic. */
  function Step(h: Handle, op: Op): (Handle, Output) {
    match op
    case Seek(location) => (h.(pos := location), Done)
    case Reset => (h.(pos := 0), Done)
    case ReadAt(n, at) =>
      (match Fetch(h, n, at)
       case None => (h, Failed)
       case Some(b) => (h, Data(b)))
    case Read(n) =>
      (match Fetch(h, n, h.pos)
       case None => (h, Failed)
       case Some(b) => (h.(pos := Add64(h.pos, Clipped(h.size, n, h.pos))), Data(b)))
    case SeekPosition => (h, Number(h.pos))
    case GetFileSize => (h, Number(if h.size < POW63 then h.size else h.size - POW64))
  }

  class PqcapSubFileHandle {
    const inner: bytes
    const baseOffset: u64
    const subSize: u64
    var seekPos: u64

    constructor (inner: bytes, baseOffset: u64, subSize: u64)
      ensures State() == Handle(inner, baseOffset, subSize, 0)
    {
      this.inner := inner;
      this.baseOffset := baseOffset;
      this.subSize := subSize;
      seekPos := 0;
    }

    function State(): Handle
      reads this
    {
      Handle(inner, baseOffset, subSize, seekPos)
    }

    /** Positional read.  `ok` is false when the inner file throws. */
    method ReadAtLocation(buffer: array<byte>, nrBytes: count, location: u64) returns (ok: bool)
      requires nrBytes <= buffer.Length
      modifies buffer
      ensures var (h, out) := Step(old(State()), ReadAt(nrBytes, location));
        && State() == h
        && ok == out.Data?
        && (ok ==> |out.data| <= nrBytes && buffer[..] == out.data + old(buffer[..])[|out.data|..])
    {
      hide Add64, InnerRead;
      if location >= subSize {
        assert buffer[..] == [] + buffer[..][0..];
        return true;
      }
      var toRead := Min(nrBytes, subSize - location);
      if toRead == 0 {
        assert buffer[..] == [] + buffer[..][0..];
        return true;
      }
      ok := ReadInner(buffer, toRead, Add64(location, baseOffset));
    }

    /** Sequential read, answering the number of bytes read. */
    method ReadNext(buffer: array<byte>, nrBytes: count) returns (ok: bool, count: nat)
      requires nrBytes <= buffer.Length
      modifies this, buffer
      ensures var (h, out) := Step(old(State()), Read(nrBytes));
        && State() == h
        && ok == out.Data?
        && (ok ==> count == |out.data| <= nrBytes && buffer[..] == out.data + old(buffer[..])[count..])
    {
      hide InnerRead;
      if seekPos >= subSize {
        assert buffer[..] == [] + buffer[..][0..];
        return true, 0;
      }
      count := Min(nrBytes, subSize - seekPos);
      if count == 0 {
        assert buffer[..] == [] + buffer[..][0..];
        return true, 0;
      }
      ok := ReadInner(buffer, count, Add64(seekPos, baseOffset));
      if ok {
        seekPos := Add64(seekPos, count);
      }
    }

    /** The inner file's positional read into the caller's buffer. */
    method ReadInner(buffer: array<byte>, n: nat, at: nat) returns (ok: bool)
      requires n <= buffer.Length
      modifies buffer
      ensures ok == InnerRead(inner, n, at).Some?
      ensures ok ==> |InnerRead(inner, n, at).value| == n
      ensures ok ==> buffer[..] == InnerRead(inner, n, at).value + old(buffer[..])[n..]
      ensures !ok ==> buffer[..] == old(buffer[..])
    {
      if at + n > |inner| {
        return false;
      }
      forall i | 0 <= i < n {
        buffer[i] := inner[at + i];
      }
      ok := true;
    }

    method SeekTo(location: u64)
      modifies this
      ensures State() == Step(old(State()), Seek(location)).0
    {
      seekPos := location;
    }

    method Position() returns (position: u64)
      ensures Number(position) == Step(State(), SeekPosition).1
    {
      position := seekPos;
    }

    /** The size as an `int64_t`. */
    method FileSize() returns (size: int)
      ensures Number(size) == Step(State(), GetFileSize).1
    {
      size := if subSize < POW63 then subSize else subSize - POW64;
    }

    method Rewind()
      modifies this
      ensures State() == Step(old(State()), Reset).0
    {
      seekPos := 0;
    }
  }

  // ----- the file that the handle pretends to be -----

  /** An ordinary in-memory file with a position. */
  datatype PlainFile = PlainFile(contents: bytes, pos: nat)

  /** The part of the contents between two positions, either of which may be past the end. */
  function Part(contents: bytes, lo: nat, hi: nat): bytes
    requires lo <= hi
  {
    contents[Min(lo, |contents|)..Min(hi, |contents|)]
  }

  function PlainStep(f: PlainFile, op: Op): (PlainFile, Output) {
    match op
    case Seek(location) => (f.(pos := location), Done)
    case Reset => (f.(pos := 0), Done)
    case ReadAt(n, at) => (f, Data(Part(f.contents, at, at + n)))
    case Read(n) =>
      var part := Part(f.contents, f.pos, f.pos + n);
      (f.(pos := f.pos + |part|), Data(part))
    case SeekPosition => (f, Number(f.pos))
    case GetFileSize => (f, Number(|f.contents|))
  }

  /** The range lies inside the inner file, whose size is an `int64_t`. */
  predicate InRange(h: Handle) {
    h.base + h.size <= |h.inner| < POW63
  }

  function View(h: Handle): PlainFile
    requires InRange(h)
  {
    PlainFile(h.inner[h.base..h.base + h.size], h.pos)
  }

  lemma SliceOfSlice(s: bytes, base: nat, size: nat, at: nat, n: nat)
    requires base + size <= |s| && at + n <= size
    ensures s[base..base + size][at..at + n] == s[base + at..base + at + n]
  {
    var t, u := s[base..base + size][at..at + n], s[base + at..base + at + n];
    assert forall i | 0 <= i < n :: t[i] == s[base + at + i] == u[i];
  }

  lemma FetchIsPart(h: Handle, n: count, at: u64)
    requires InRange(h)
    ensures Fetch(h, n, at) == Some(Part(View(h).contents, at, at + n))
  {
    var contents := View(h).contents;
    if at >= h.size {
      assert Part(contents, at, at + n) == [];
    } else {
      var m := Clipped(h.size, n, at);
      assert Add64(at, h.base) == h.base + at;
      SliceOfSlice(h.inner, h.base, h.size, at, m);
    }
  }

  /** A request that fails when the range reaches past the end of the inner file. */
  lemma FailingRequest(h: Handle) returns (n: count, at: u64)
    requires h.size > 0 && |h.inner| < POW63 && !InRange(h)
    ensures Fetch(h, n, at).None?
  {
    if h.size < POW63 {
      n, at := h.size, 0;
    } else {
      n, at := POW63 - 1, 0;
      if Fetch(h, n, at).Some? {
        at := h.size - 1;
      }
    }
  }

  /** Nothing checks the range when the handle is opened.  For a non-empty range, no request whatsoever fails if and
      only if the range lies inside the inner file. */
  lemma ServesRangeIffInRange(h: Handle)
    requires h.size > 0 && |h.inner| < POW63
    ensures (forall n: count, at: u64 :: Fetch(h, n, at).Some?) <==> InRange(h)
  {
    hide Fetch;
    if InRange(h) {
      forall n: count, at: u64
        ensures Fetch(h, n, at).Some?
      {
        FetchIsPart(h, n, at);
      }
    } else {
      var n, at := FailingRequest(h);
    }
  }

  /** The request delivers bytes although its 64-bit start address has wrapped around to before the range. */
  predicate ReadsOutside(h: Handle, n: count, at: u64) {
    Clipped(h.size, n, at) > 0 && Fetch(h, n, at).Some? && Add64(at, h.base) < h.base
  }

  /** Where delivered bytes come from: all of them from their own place in the range, or, when the start address has
      wrapped, all of them from before the range. */
  lemma ReadSource(h: Handle, n: count, at: u64)
    requires Clipped(h.size, n, at) > 0 && Fetch(h, n, at).Some?
    ensures var m, lo := Clipped(h.size, n, at), Add64(at, h.base);
      && lo + m <= |h.inner| && Fetch(h, n, at) == Some(h.inner[lo..lo + m])
      && (ReadsOutside(h, n, at) ==> lo == h.base + at - POW64 && lo + m <= h.base)
      && (!ReadsOutside(h, n, at) ==> lo == h.base + at && lo + m <= h.base + h.size)
  {
  }

  /** Some request delivers bytes from outside the range if and only if the range's end wraps around 64 bits and the
      inner file is not empty. */
  lemma ReadsOutsideIffEndWraps(h: Handle)
    ensures (exists n: count, at: u64 :: ReadsOutside(h, n, at)) <==> h.base + h.size > POW64 && h.inner != []
  {
    if h.base + h.size > POW64 && h.inner != [] {
      assert Add64(POW64 - h.base, h.base) == 0;
      assert ReadsOutside(h, 1, POW64 - h.base);
    }
  }

  /** A one-byte file and a range of two bytes at the last 64-bit address: the first byte is refused, and the second is
      read from the start of the file. */
  lemma WrappedRead(h: Handle)
    requires h == Handle([7], POW64 - 1, 2, 0)
    ensures Fetch(h, 1, 0) == None && Fetch(h, 1, 1) == Some([7]) && ReadsOutside(h, 1, 1)
  {
    assert Add64(1, h.base) == 0 && Clipped(2, 1, 1) == 1;
    assert h.inner[0..1] == [7];
  }

  lemma ReadRefines(h: Handle, n: count)
    requires InRange(h)
    ensures var (h1, out) := Step(h, Read(n));
      var part := Part(View(h).contents, h.pos, h.pos + n);
      && out == Data(part)
      && h1 == h.(pos := h.pos + |part|)
      && (h.pos <= h.size ==> h1.pos <= h1.size)
  {
    FetchIsPart(h, n, h.pos);
    hide Fetch;
    assert |Part(View(h).contents, h.pos, h.pos + n)| == Clipped(h.size, n, h.pos);
  }

  lemma StepRefines(h: Handle, op: Op)
    requires InRange(h)
    ensures InRange(Step(h, op).0)
    ensures View(Step(h, op).0) == PlainStep(View(h), op).0
    ensures Step(h, op).1 == PlainStep(View(h), op).1
  {
    match op
    case ReadAt(n, at) => FetchIsPart(h, n, at);
    case Read(n) => ReadRefines(h, n);
    case _ =>
  }

  /** On any handle at all, whatever its range: the inner file and the range stay; the position is set by seeking and
      resetting, moves by the delivered bytes (modulo 2^64) in a sequential read, and stays when a read fails and in
      every other operation; and the size is answered modulo 2^64. */
  lemma OnlyPositionMoves(h: Handle, op: Op)
    ensures var (h1, out) := Step(h, op);
      && h1.inner == h.inner && h1.base == h.base && h1.size == h.size
      && h1.pos == (match op
                    case Seek(location) => location
                    case Reset => 0
                    case Read(_) => if out.Data? then (h.pos + |out.data|) % POW64 else h.pos
                    case _ => h.pos)
      && (op.SeekPosition? ==> out == Number(h.pos))
      && (op.GetFileSize? ==> out.Number? && -POW63 <= out.value < POW63 && out.value % POW64 == h.size)
  {
    match op
    case Read(n) => ReadMoves(h, n);
    case _ =>
  }

  lemma ReadMoves(h: Handle, n: count)
    ensures var (h1, out) := Step(h, Read(n));
      && h1 == h.(pos := h1.pos)
      && h1.pos == if out.Data? then (h.pos + |out.data|) % POW64 else h.pos
  {
    if Fetch(h, n, h.pos).Some? {
      assert |Fetch(h, n, h.pos).value| == Clipped(h.size, n, h.pos);
      hide Fetch, Clipped;
    }
  }

  function Run(h: Handle, ops: seq<Op>): (Handle, seq<Output>)
    decreases |ops|
  {
    if ops == [] then (h, [])
    else
      var (h1, out) := Step(h, ops[0]);
      var (h2, outs) := Run(h1, ops[1..]);
      (h2, [out] + outs)
  }

  function PlainRun(f: PlainFile, ops: seq<Op>): (PlainFile, seq<Output>)
    decreases |ops|
  {
    if ops == [] then (f, [])
    else
      var (f1, out) := PlainStep(f, ops[0]);
      var (f2, outs) := PlainRun(f1, ops[1..]);
      (f2, [out] + outs)
  }

  /** Over every run of operations, a handle whose range lies inside the inner file answers exactly as an
      independent file with the range's bytes would. */
  lemma {:induction false} HandleRefinesPlainFile(h: Handle, ops: seq<Op>)
    requires InRange(h)
    ensures InRange(Run(h, ops).0)
    ensures Run(h, ops).1 == PlainRun(View(h), ops).1
    ensures View(Run(h, ops).0) == PlainRun(View(h), ops).0
    decreases |ops|
  {
    if ops != [] {
      StepRefines(h, ops[0]);
      hide Step, PlainStep, View, InRange;
      HandleRefinesPlainFile(Step(h, ops[0]).0, ops[1..]);
    }
  }

  // ----- reading to the end in chunks -----

  function Total(counts: seq<count>): nat {
    if counts == [] then 0 else counts[0] + Total(counts[1..])
  }

  /** Everything that successive sequential reads deliver, put together. */
  function Drain(h: Handle, counts: seq<count>): Option<bytes>
    decreases |counts|
  {
    if counts == [] then Some([])
    else
      var (h1, out) := Step(h, Read(counts[0]));
      if !out.Data? then None
      else
        match Drain(h1, counts[1..])
        case None => None
        case Some(rest) => Some(out.data + rest)
  }

  lemma PartsJoin(contents: bytes, lo: nat, n: nat, t: nat)
    requires lo <= |contents|
    ensures var mid := lo + |Part(contents, lo, lo + n)|;
      Part(contents, lo, lo + n) + Part(contents, mid, mid + t) == Part(contents, lo, lo + n + t)
  {
  }

  lemma DrainUnfold(h: Handle, counts: seq<count>, here: bytes, later: bytes)
    requires counts != []
    requires Step(h, Read(counts[0])).1 == Data(here) && Drain(Step(h, Read(counts[0])).0, counts[1..]) == Some(later)
    ensures Drain(h, counts) == Some(here + later)
  {
    hide Step;
  }

  lemma DrainStep(h: Handle, counts: seq<count>, contents: bytes, h1: Handle)
    requires InRange(h) && counts != [] && h.pos <= |contents| && contents == View(h).contents
    requires h1 == Step(h, Read(counts[0])).0
    requires Drain(h1, counts[1..]) == Some(Part(contents, h1.pos, h1.pos + Total(counts[1..])))
    ensures Drain(h, counts) == Some(Part(contents, h.pos, h.pos + counts[0] + Total(counts[1..])))
  {
    hide *;
    var n, t := counts[0], Total(counts[1..]);
    ReadRefines(h, n);
    PartsJoin(contents, h.pos, n, t);
    DrainUnfold(h, counts, Part(contents, h.pos, h.pos + n), Part(contents, h1.pos, h1.pos + t));
  }

  /** Chunked sequential reads deliver the contents from the position on, up to the sum of the counts. */
  lemma {:induction false} DrainDelivers(h: Handle, counts: seq<count>)
    requires InRange(h) && h.pos <= h.size
    ensures Drain(h, counts) == Some(Part(View(h).contents, h.pos, h.pos + Total(counts)))
    decreases |counts|
  {
    if counts == [] {
      assert Part(View(h).contents, h.pos, h.pos) == [];
    } else {
      var h1 := Step(h, Read(counts[0])).0;
      ReadRefines(h, counts[0]);
      hide Step, Drain, Part;
      DrainDelivers(h1, counts[1..]);
      DrainStep(h, counts, View(h).contents, h1);
    }
  }
}
