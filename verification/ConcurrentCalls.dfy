/** Calls of `pqcap_embed_index` on one file whose steps interleave: a call checks the file's tail, counts its packets,
    writes the metadata beside it, reads both back, and writes the file, without a lock over these steps. */
module ConcurrentCalls {
  import opened Bytes
  import opened Wrappers
  import opened Blocks
  import opened Embed
  import opened IndexCalls

  /** How far a call has come. */
  datatype Phase =
    | Idle
    | Checked
    | Counted
    | SideWritten
    | Loaded(capture: bytes, p: parquet)
    | Stored

  /** `stores` counts the writes to the file, `successes` the calls that have returned a packet count. */
  datatype State = State(
    file: bytes, side: Option<parquet>, phases: map<nat, Phase>, stores: nat, successes: nat)

  datatype Event =
    | Check(t: nat)
    | Count(t: nat, features: nat)
    | WriteSide(t: nat, p: parquet)
    | Load(t: nat)
    | Store(t: nat)
    | Return(t: nat)
    | Fail(t: nat)

  function PhaseOf(s: State, t: nat): Phase {
    if t in s.phases then s.phases[t] else Idle
  }

  /** No call is running. */
  predicate AllIdle(s: State) {
    forall t | t in s.phases :: s.phases[t].Idle?
  }

  /** When a step may happen; `serial` says whether a call waits for the others to end before it starts. */
  predicate CanFire(s: State, e: Event, serial: bool) {
    var phase := PhaseOf(s, e.t);
    match e
    case Check(_) => phase.Idle? && IsPlain(s.file) && (serial ==> AllIdle(s))
    case Count(_, features) => phase.Checked? && features == |Scan(s.file, 0)|
    case WriteSide(_, _) => phase.Counted?
    case Load(_) => phase.SideWritten? && s.side.Some?
    case Store(_) => phase.Loaded?
    case Return(_) => phase.Stored?
    case Fail(_) => !phase.Idle? && !phase.Stored?
  }

  function Fire(s: State, e: Event, serial: bool): State
    requires CanFire(s, e, serial)
  {
    match e
    case Check(t) => s.(phases := s.phases[t := Checked])
    case Count(t, _) => s.(phases := s.phases[t := Counted])
    case WriteSide(t, p) => s.(side := Some(p), phases := s.phases[t := SideWritten])
    case Load(t) => s.(phases := s.phases[t := Loaded(s.file, s.side.value)])
    case Store(t) =>
      var call := PhaseOf(s, t);
      s.(file := Embedded(call.capture, call.p), phases := s.phases[t := Stored], stores := s.stores + 1)
    case Return(t) => s.(side := None, phases := s.phases[t := Idle], successes := s.successes + 1)
    case Fail(t) => s.(phases := s.phases[t := Idle])
  }

  predicate CanRun(s: State, events: seq<Event>, serial: bool)
    decreases |events|
  {
    events == [] || (CanFire(s, events[0], serial) && CanRun(Fire(s, events[0], serial), events[1..], serial))
  }

  function RunEvents(s: State, events: seq<Event>, serial: bool): State
    requires CanRun(s, events, serial)
    decreases |events|
  {
    if events == [] then s else RunEvents(Fire(s, events[0], serial), events[1..], serial)
  }

  function Start(file: bytes): State {
    State(file, None, map[], 0, 0)
  }

  // ----- what every interleaving keeps -----

  /** The original bytes are a prefix of the file and of every copy that a call has read. */
  predicate KeepsCapture(original: bytes, s: State) {
    && original <= s.file
    && forall t | t in s.phases && s.phases[t].Loaded? :: original <= s.phases[t].capture
  }

  /** Once the file has been written it ends in a footer. */
  predicate KeepsFooter(s: State) {
    s.stores > 0 ==> !IsPlain(s.file)
  }

  lemma PrefixOfPrefix(a: bytes, b: bytes, c: bytes)
    requires a <= b <= c
    ensures a <= c
  {
  }

  lemma StoreKeeps(original: bytes, s: State, t: nat, serial: bool)
    requires KeepsCapture(original, s) && CanFire(s, Store(t), serial)
    ensures KeepsCapture(original, Fire(s, Store(t), serial)) && KeepsFooter(Fire(s, Store(t), serial))
  {
    hide IsPlain, Embedded;
    var call := PhaseOf(s, t);
    EmbeddedIsNotPlain(call.capture, call.p);
    PrefixOfPrefix(original, call.capture, Embedded(call.capture, call.p));
  }

  lemma FireKeeps(original: bytes, s: State, e: Event, serial: bool)
    requires KeepsCapture(original, s) && KeepsFooter(s) && CanFire(s, e, serial)
    ensures KeepsCapture(original, Fire(s, e, serial)) && KeepsFooter(Fire(s, e, serial))
    ensures Fire(s, e, serial).stores >= s.stores
  {
    hide IsPlain, Embedded, Scan;
    if e.Store? {
      StoreKeeps(original, s, e.t, serial);
    }
  }

  lemma {:induction false} RunKeeps(original: bytes, s: State, events: seq<Event>, serial: bool)
    requires KeepsCapture(original, s) && KeepsFooter(s) && CanRun(s, events, serial)
    ensures var final := RunEvents(s, events, serial);
      KeepsCapture(original, final) && KeepsFooter(final) && final.stores >= s.stores
    decreases |events|
  {
    if events != [] {
      FireKeeps(original, s, events[0], serial);
      hide KeepsCapture, KeepsFooter, CanFire, Fire;
      RunKeeps(original, Fire(s, events[0], serial), events[1..], serial);
    }
  }

  /** However the calls interleave, the original capture stays a byte-for-byte prefix of the file. */
  lemma CaptureStaysPrefixConcurrently(file: bytes, events: seq<Event>)
    requires CanRun(Start(file), events, false)
    ensures file <= RunEvents(Start(file), events, false).file
  {
    hide CanRun, RunEvents;
    RunKeeps(file, Start(file), events, false);
  }

  lemma {:induction false} NoCheckOnceStored(s: State, events: seq<Event>, serial: bool, j: nat)
    requires KeepsFooter(s) && s.stores > 0 && CanRun(s, events, serial) && j < |events|
    ensures !events[j].Check?
    decreases j
  {
    hide IsPlain, Embedded, Scan;
    if j > 0 {
      assert KeepsCapture([], s);
      FireKeeps([], s, events[0], serial);
      hide CanFire, Fire, KeepsFooter;
      NoCheckOnceStored(Fire(s, events[0], serial), events[1..], serial, j - 1);
    }
  }

  lemma {:induction false} NoCheckAfter(s: State, events: seq<Event>, serial: bool, i: nat, j: nat)
    requires KeepsFooter(s) && CanRun(s, events, serial) && i < j < |events| && events[i].Store?
    ensures !events[j].Check?
    decreases i
  {
    hide IsPlain, Embedded, Scan;
    assert KeepsCapture([], s);
    FireKeeps([], s, events[0], serial);
    var s1 := Fire(s, events[0], serial);
    if i > 0 {
      hide CanFire, Fire, KeepsFooter;
      NoCheckAfter(s1, events[1..], serial, i - 1, j - 1);
    } else {
      assert s1.stores > 0;
      hide CanFire, Fire, KeepsFooter;
      NoCheckOnceStored(s1, events[1..], serial, j - 1);
    }
  }

  /** However the calls interleave, no call passes its check after another one has written the file: all calls that
      succeed had passed it before the first write. */
  lemma ChecksPrecedeStores(file: bytes, events: seq<Event>, i: nat, j: nat)
    requires CanRun(Start(file), events, false) && i < j < |events| && events[i].Store?
    ensures !events[j].Check?
  {
    hide CanRun;
    NoCheckAfter(Start(file), events, false, i, j);
  }

  // ----- calls that wait for one another -----

  /** At most one call is running; the file has been written at most once, and then no call is left that could write. */
  predicate SerialInv(s: State) {
    && KeepsFooter(s)
    && (forall t, u | t in s.phases && u in s.phases && !s.phases[t].Idle? && !s.phases[u].Idle? :: t == u)
    && s.successes <= s.stores <= 1
    && (s.stores == 1 ==> forall t | t in s.phases :: s.phases[t].Idle? || s.phases[t].Stored?)
    && (forall t | t in s.phases && s.phases[t].Stored? :: s.successes < s.stores)
  }

  lemma FireKeepsSerialInv(s: State, e: Event)
    requires SerialInv(s) && CanFire(s, e, true)
    ensures SerialInv(Fire(s, e, true))
  {
    hide IsPlain, Embedded, Scan;
    assert KeepsCapture([], s);
    FireKeeps([], s, e, true);
    hide KeepsFooter;
  }

  lemma {:induction false} RunKeepsSerialInv(s: State, events: seq<Event>)
    requires SerialInv(s) && CanRun(s, events, true)
    ensures SerialInv(RunEvents(s, events, true))
    decreases |events|
  {
    if events != [] {
      FireKeepsSerialInv(s, events[0]);
      hide SerialInv, CanFire, Fire;
      RunKeepsSerialInv(Fire(s, events[0], true), events[1..]);
    }
  }

  /** Of calls that wait for one another at most one succeeds, and the file is written at most once. */
  lemma SerialCallsSucceedOnce(file: bytes, events: seq<Event>)
    requires CanRun(Start(file), events, true)
    ensures var s := RunEvents(Start(file), events, true); s.successes <= s.stores <= 1
  {
    hide CanRun, RunEvents;
    RunKeepsSerialInv(Start(file), events);
  }

  // ----- calls that do not wait -----

  /** Two calls on an empty capture; both pass their check before either writes. */
  function OverlappingEvents(): seq<Event> {
    [Check(0), Check(1), Count(0, 0), Count(1, 0),
     WriteSide(0, []), Load(0), Store(0), Return(0),
     WriteSide(1, []), Load(1), Store(1), Return(1)]
  }

  lemma StepThen(s: State, s1: State, e: Event, events: seq<Event>, rest: seq<Event>, final: State)
    requires events == [e] + rest
    requires CanFire(s, e, false) && s1 == Fire(s, e, false)
    requires CanRun(s1, rest, false) && RunEvents(s1, rest, false) == final
    ensures CanRun(s, events, false) && RunEvents(s, events, false) == final
  {
    hide CanFire, Fire;
    assert events[0] == e && events[1..] == rest;
  }

  lemma LastStep(s: State)
    ensures CanRun(s, [], false) && RunEvents(s, [], false) == s
  {
  }

  function BothCounted(): State {
    State([], None, map[0 := Counted, 1 := Counted], 0, 0)
  }

  function FirstReturned(once: bytes): State {
    State(once, None, map[0 := Idle, 1 := Counted], 1, 1)
  }

  function BothReturned(twice: bytes): State {
    State(twice, None, map[0 := Idle, 1 := Idle], 2, 2)
  }

  lemma FirstCall(once: bytes, rest: seq<Event>, final: State)
    requires once == Embedded([], [])
    requires CanRun(FirstReturned(once), rest, false) && RunEvents(FirstReturned(once), rest, false) == final
    ensures var events := [WriteSide(0, []), Load(0), Store(0), Return(0)] + rest;
      CanRun(BothCounted(), events, false) && RunEvents(BothCounted(), events, false) == final
  {
    hide CanRun, RunEvents, Embedded, IsPlain, Scan;
    var s1 := State([], Some([]), map[0 := SideWritten, 1 := Counted], 0, 0);
    var s2 := State([], Some([]), map[0 := Loaded([], []), 1 := Counted], 0, 0);
    var s3 := State(once, Some([]), map[0 := Stored, 1 := Counted], 1, 0);
    StepThen(s3, FirstReturned(once), Return(0), [Return(0)] + rest, rest, final);
    StepThen(s2, s3, Store(0), [Store(0), Return(0)] + rest, [Return(0)] + rest, final);
    StepThen(s1, s2, Load(0), [Load(0), Store(0), Return(0)] + rest, [Store(0), Return(0)] + rest, final);
    StepThen(BothCounted(), s1, WriteSide(0, []), [WriteSide(0, []), Load(0), Store(0), Return(0)] + rest,
             [Load(0), Store(0), Return(0)] + rest, final);
  }

  lemma SecondCall(once: bytes, twice: bytes)
    requires twice == Embedded(once, [])
    ensures var events := [WriteSide(1, []), Load(1), Store(1), Return(1)];
      && CanRun(FirstReturned(once), events, false)
      && RunEvents(FirstReturned(once), events, false) == BothReturned(twice)
  {
    hide CanRun, RunEvents, Embedded, IsPlain, Scan;
    var final := BothReturned(twice);
    var s1 := State(once, Some([]), map[0 := Idle, 1 := SideWritten], 1, 1);
    var s2 := State(once, Some([]), map[0 := Idle, 1 := Loaded(once, [])], 1, 1);
    var s3 := State(twice, Some([]), map[0 := Idle, 1 := Stored], 2, 1);
    LastStep(final);
    StepThen(s3, final, Return(1), [Return(1)], [], final);
    StepThen(s2, s3, Store(1), [Store(1), Return(1)], [Return(1)], final);
    StepThen(s1, s2, Load(1), [Load(1), Store(1), Return(1)], [Store(1), Return(1)], final);
    StepThen(FirstReturned(once), s1, WriteSide(1, []), [WriteSide(1, []), Load(1), Store(1), Return(1)],
             [Load(1), Store(1), Return(1)], final);
  }

  lemma EmptyFile()
    ensures IsPlain([]) && Scan([], 0) == []
  {
  }

  lemma BothCheck(rest: seq<Event>, final: State)
    requires CanRun(BothCounted(), rest, false) && RunEvents(BothCounted(), rest, false) == final
    ensures var events := [Check(0), Check(1), Count(0, 0), Count(1, 0)] + rest;
      CanRun(Start([]), events, false) && RunEvents(Start([]), events, false) == final
  {
    EmptyFile();
    hide CanRun, RunEvents, IsPlain, Scan;
    var s1 := State([], None, map[0 := Checked], 0, 0);
    var s2 := State([], None, map[0 := Checked, 1 := Checked], 0, 0);
    var s3 := State([], None, map[0 := Counted, 1 := Checked], 0, 0);
    StepThen(s3, BothCounted(), Count(1, 0), [Count(1, 0)] + rest, rest, final);
    StepThen(s2, s3, Count(0, 0), [Count(0, 0), Count(1, 0)] + rest, [Count(1, 0)] + rest, final);
    StepThen(s1, s2, Check(1), [Check(1), Count(0, 0), Count(1, 0)] + rest, [Count(0, 0), Count(1, 0)] + rest, final);
    StepThen(Start([]), s1, Check(0), [Check(0), Check(1), Count(0, 0), Count(1, 0)] + rest,
             [Check(1), Count(0, 0), Count(1, 0)] + rest, final);
  }

  /** Overlapping calls can both succeed: the file then carries two indexes, one embedded behind the other. */
  lemma OverlappingCallsBothSucceed()
    ensures CanRun(Start([]), OverlappingEvents(), false)
    ensures var s := RunEvents(Start([]), OverlappingEvents(), false);
      s.successes == 2 && s.file == Embedded(Embedded([], []), [])
  {
    hide CanRun, RunEvents, Embedded;
    var once := Embedded([], []);
    var twice := Embedded(once, []);
    SecondCall(once, twice);
    FirstCall(once, [WriteSide(1, []), Load(1), Store(1), Return(1)], BothReturned(twice));
    BothCheck([WriteSide(0, []), Load(0), Store(0), Return(0)] + [WriteSide(1, []), Load(1), Store(1), Return(1)],
              BothReturned(twice));
    assert OverlappingEvents() == [Check(0), Check(1), Count(0, 0), Count(1, 0)]
      + ([WriteSide(0, []), Load(0), Store(0), Return(0)] + [WriteSide(1, []), Load(1), Store(1), Return(1)]);
  }
}
