/** `pqcap_embed_index` on one capture file that already exists, and runs of such calls. */
module IndexCalls {
  import opened Bytes
  import opened Wrappers
  import opened Blocks
  import opened Footer
  import opened Embed

  type parquet = p: bytes | |p| < 0x1_0000_0000_0000_0000

  /** The outcome of writing the metadata to the temporary file beside the capture: the bytes written, or, when writing
      fails, whatever then lies there. */
  datatype Metadata = Written(p: parquet) | NotWritten(left: Option<bytes>)

  /** What the unseen parts of one call answer: the number of packets that the packet reader delivers (none when reading
      fails), the metadata, and whether the capture can be opened for writing. */
  datatype Env = Env(features: Option<nat>, metadata: Metadata, writable: bool)

  datatype IndexError =
    | PathIsNull
    | CannotOpen
    | AlreadyIndexed
    | FeaturesFailed
    | CountMismatch
    | MetadataFailed
    | CannotWrite

  /** True when the last 44 bytes do not parse as a footer. */
  predicate IsPlain(file: bytes) {
    |file| < FOOTER_BLOCK_SIZE || ParseFooterLocator(file[|file| - FOOTER_BLOCK_SIZE..]).None?
  }

  /** One call on one file: the file afterwards, and the packet count or the error. */
  function IndexCall(file: bytes, env: Env): (bytes, Result<nat, IndexError>) {
    if !IsPlain(file) then (file, Err(AlreadyIndexed))
    else if env.features.None? then (file, Err(FeaturesFailed))
    else if env.features.value != |Scan(file, 0)| then (file, Err(CountMismatch))
    else if env.metadata.NotWritten? then (file, Err(MetadataFailed))
    else if !env.writable then (file, Err(CannotWrite))
    else (Embedded(file, env.metadata.p), Ok(env.features.value))
  }

  /** The file ends in a footer that the parser accepts. */
  ghost predicate EndsInFooter(file: bytes) {
    |file| >= FOOTER_BLOCK_SIZE
    && exists version: u16, flags: u16, offset: u64, length: u64 ::
         version <= 1 && file[|file| - FOOTER_BLOCK_SIZE..] == FooterBlock(version, flags, offset, length)
  }

  lemma PlainMeansNoFooter(file: bytes)
    ensures IsPlain(file) <==> !EndsInFooter(file)
  {
    if |file| >= FOOTER_BLOCK_SIZE {
      hide ParseFooterLocator, FooterBlock;
      var tail := file[|file| - FOOTER_BLOCK_SIZE..];
      if ParseFooterLocator(tail).Some? {
        FooterParserIsExact(tail, ParseFooterLocator(tail).value);
      }
      if version: u16, flags: u16, offset: u64, length: u64
        :| version <= 1 && tail == FooterBlock(version, flags, offset, length) {
        FooterRoundTrip(version, flags, offset, length);
      }
    }
  }

  /** A call writes to the file exactly when the file does not end in a footer, the features could be read and are as
      many as the packets that the walk finds, the metadata could be written, and the file can be opened for writing. */
  lemma CallSucceedsExactly(file: bytes, env: Env)
    ensures IndexCall(file, env).1.Ok? <==>
      !EndsInFooter(file) && env.features == Some(|Scan(file, 0)|) && env.metadata.Written? && env.writable
    ensures IndexCall(file, env).1.Ok? ==> IndexCall(file, env).1.value == |Scan(file, 0)|
    ensures IndexCall(file, env).1.Err? ==> IndexCall(file, env).0 == file
  {
    hide IsPlain, EndsInFooter, Scan, Embedded;
    PlainMeansNoFooter(file);
  }

  /** Which error a call that fails reports: that of the first obstacle, in the order in which the call meets them. */
  lemma CallReportsFirstObstacle(file: bytes, env: Env)
    requires IndexCall(file, env).1.Err?
    ensures var error := IndexCall(file, env).1.error;
      && (error == AlreadyIndexed <==> EndsInFooter(file))
      && (error == FeaturesFailed <==> !EndsInFooter(file) && env.features.None?)
      && (error == CountMismatch
          <==> !EndsInFooter(file) && env.features.Some? && env.features.value != |Scan(file, 0)|)
      && (error == MetadataFailed
          <==> !EndsInFooter(file) && env.features == Some(|Scan(file, 0)|) && env.metadata.NotWritten?)
      && (error == CannotWrite
          <==> !EndsInFooter(file) && env.features == Some(|Scan(file, 0)|) && env.metadata.Written? && !env.writable)
  {
    hide IsPlain, EndsInFooter, Scan, Embedded;
    PlainMeansNoFooter(file);
  }

  // ----- runs over one file -----

  lemma EmbeddedIsNotPlain(capture: bytes, p: parquet)
    ensures !IsPlain(Embedded(capture, p)) && capture <= Embedded(capture, p)
  {
    EmbeddedTailParses(capture, p);
    hide Embedded, ParseFooterLocator;
  }

  function RunCalls(file: bytes, envs: seq<Env>): (bytes, seq<Result<nat, IndexError>>)
    decreases |envs|
  {
    if envs == [] then (file, [])
    else
      var (file1, r) := IndexCall(file, envs[0]);
      var (file2, rs) := RunCalls(file1, envs[1..]);
      (file2, [r] + rs)
  }

  /** Once a footer is there, every call is refused and the file does not change. */
  lemma {:induction false} IndexedStaysIndexed(file: bytes, envs: seq<Env>)
    requires !IsPlain(file)
    ensures RunCalls(file, envs).0 == file
    ensures |RunCalls(file, envs).1| == |envs|
    ensures forall i | 0 <= i < |envs| :: RunCalls(file, envs).1[i] == Err(AlreadyIndexed)
    decreases |envs|
  {
    if envs != [] {
      IndexedStaysIndexed(file, envs[1..]);
      hide IsPlain;
    }
  }

  /** Call `k` embeds its metadata into the original bytes, reporting the walk's packet count; the calls before
      it fail and every call after it is refused. */
  predicate SucceedsAt(file: bytes, envs: seq<Env>, final: bytes, rs: seq<Result<nat, IndexError>>, k: nat) {
    && |rs| == |envs| && k < |rs|
    && rs[k] == Ok(|Scan(file, 0)|)
    && envs[k].metadata.Written? && final == Embedded(file, envs[k].metadata.p)
    && (forall i | 0 <= i < k :: rs[i].Err?)
    && (forall i | k < i < |rs| :: rs[i] == Err(AlreadyIndexed))
  }

  predicate AllRefused(file: bytes, final: bytes, rs: seq<Result<nat, IndexError>>) {
    final == file && forall i | 0 <= i < |rs| :: rs[i].Err?
  }

  lemma SucceedsLater(file: bytes, envs: seq<Env>, final: bytes,
                      r: Result<nat, IndexError>, rs: seq<Result<nat, IndexError>>, k: nat)
    requires envs != [] && r.Err? && SucceedsAt(file, envs[1..], final, rs, k)
    ensures SucceedsAt(file, envs, final, [r] + rs, k + 1)
  {
    hide Embedded, Scan;
    var all := [r] + rs;
    assert forall i | 0 < i < |all| :: all[i] == rs[i - 1];
    assert envs[k + 1] == envs[1..][k];
  }

  lemma SucceedsNow(file: bytes, envs: seq<Env>)
    requires envs != [] && IndexCall(file, envs[0]).1.Ok?
    ensures var (final, rs) := RunCalls(file, envs); SucceedsAt(file, envs, final, rs, 0)
  {
    hide IsPlain, Scan, Embedded;
    var p := envs[0].metadata.p;
    EmbeddedIsNotPlain(file, p);
    IndexedStaysIndexed(Embedded(file, p), envs[1..]);
    var later := RunCalls(Embedded(file, p), envs[1..]).1;
    assert RunCalls(file, envs) == (Embedded(file, p), [Ok(|Scan(file, 0)|)] + later);
    hide RunCalls, IndexCall;
    assert forall i | 0 < i < |[Ok(|Scan(file, 0)|)] + later| :: ([Ok(|Scan(file, 0)|)] + later)[i] == later[i - 1];
  }

  /** Over any run of calls on one file either every call fails and the file is untouched, or exactly one
      succeeds, embedding its metadata behind the original bytes, and every later call is refused. */
  lemma {:induction false} AtMostOneSuccess(file: bytes, envs: seq<Env>)
    ensures var (final, rs) := RunCalls(file, envs);
      && |rs| == |envs|
      && (AllRefused(file, final, rs) || exists k: nat :: SucceedsAt(file, envs, final, rs, k))
    decreases |envs|
  {
    if envs != [] {
      hide IsPlain, Scan, Embedded, SucceedsAt;
      var r := IndexCall(file, envs[0]).1;
      if r.Ok? {
        SucceedsNow(file, envs);
      } else {
        AtMostOneSuccess(file, envs[1..]);
        var (final, rs) := RunCalls(file, envs[1..]);
        FailsFirst(file, envs);
        if k: nat :| SucceedsAt(file, envs[1..], final, rs, k) {
          SucceedsLater(file, envs, final, r, rs, k);
        }
      }
    }
  }

  lemma FailsFirst(file: bytes, envs: seq<Env>)
    requires envs != [] && IndexCall(file, envs[0]).1.Err?
    ensures var (final, rs) := RunCalls(file, envs[1..]);
      RunCalls(file, envs) == (final, [IndexCall(file, envs[0]).1] + rs)
  {
    hide IsPlain, Scan, Embedded;
  }

  /** Whatever the run, the original capture stays a byte-for-byte prefix of the file. */
  lemma CaptureStaysPrefix(file: bytes, envs: seq<Env>)
    ensures file <= RunCalls(file, envs).0
  {
    AtMostOneSuccess(file, envs);
    var (final, rs) := RunCalls(file, envs);
    hide Embedded, Scan, RunCalls;
    if k: nat :| SucceedsAt(file, envs, final, rs, k) {
      EmbeddedIsNotPlain(file, envs[k].metadata.p);
    }
  }

  lemma IndexCallSucceeds(file: bytes, env: Env)
    requires IndexCall(file, env).1.Ok?
    ensures IsPlain(file) && env.metadata.Written?
    ensures IndexCall(file, env) == (Embedded(file, env.metadata.p), Ok(|Scan(file, 0)|))
  {
    hide IsPlain, Scan, Embedded;
  }
}
