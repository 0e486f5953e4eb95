/** `pqcap_embed_index` over vectors of paths: the captures, and the temporary metadata file beside each of them. */
module IndexVectors {
  import opened Bytes
  import opened Wrappers
  import opened Blocks
  import opened Embed
  import opened IndexCalls

  /** The files of the system; different path strings name different files. */
  type Files = map<string, bytes>

  function Lookup(files: Files, path: string): Option<bytes> {
    if path in files then Some(files[path]) else None
  }

  function Put(files: Files, path: string, content: Option<bytes>): Files {
    match content
    case None => files - {path}
    case Some(b) => files[path := b]
  }

  /** Where a call puts the metadata before it embeds them. */
  function SidePath(path: string): (side: string)
    ensures |side| == |path| + 17
  {
    path + ".tmp.meta.parquet"
  }

  /** What lies at the side path after a call: nothing after success, what a late failure leaves there, and what was
      there before after an early one. */
  function SideAfter(before: Option<bytes>, env: Env, r: Result<nat, IndexError>): Option<bytes> {
    if r.Ok? then None
    else if r.error.MetadataFailed? && env.metadata.NotWritten? then env.metadata.left
    else if r.error.CannotWrite? && env.metadata.Written? then Some(env.metadata.p)
    else before
  }

  function IndexPath(files: Files, path: string, env: Env): (Files, Result<nat, IndexError>) {
    if path !in files then (files, Err(CannotOpen))
    else
      var (file, r) := IndexCall(files[path], env);
      var side := SidePath(path);
      (Put(files, side, SideAfter(Lookup(files, side), env, r))[path := file], r)
  }

  lemma PutSame(files: Files, path: string)
    requires path in files
    ensures Put(files, SidePath(path), Lookup(files, SidePath(path)))[path := files[path]] == files
  {
  }

  lemma PutBeside(files: Files, path: string, content: Option<bytes>)
    requires path in files
    ensures Put(files, SidePath(path), content)[path := files[path]] == Put(files, SidePath(path), content)
    ensures content.Some? ==> Put(files, SidePath(path), content)[path] == files[path]
  {
  }

  /** The scalar function over a vector of path arguments: the first error ends the vector, but what earlier
      elements wrote stays written. */
  function IndexVector(files: Files, args: seq<Option<string>>, envs: seq<Env>): (Files, Result<seq<nat>, IndexError>)
    requires |args| == |envs|
    decreases |args|
  {
    if args == [] then (files, Ok([]))
    else if args[0].None? then (files, Err(PathIsNull))
    else
      var (files1, r) := IndexPath(files, args[0].value, envs[0]);
      if r.Err? then (files1, Err(r.error))
      else
        var (files2, rest) := IndexVector(files1, args[1..], envs[1..]);
        (files2, if rest.Err? then rest else Ok([r.value] + rest.value))
  }

  class CaptureStore {
    var files: Files

    method EmbedPqcapIndex(path: string, env: Env) returns (r: Result<nat, IndexError>)
      modifies this
      ensures (files, r) == IndexPath(old(files), path, env)
    {
      hide IsPlain, Scan, Embedded;
      if path !in files {
        return Err(CannotOpen);
      }
      PutSame(files, path);
      if !IsPlain(files[path]) {
        return Err(AlreadyIndexed);
      }
      if env.features.None? {
        return Err(FeaturesFailed);
      }
      var data := ToArray(files[path]);
      var locations := ScanPacketLocations(data);
      if env.features.value != |locations| {
        return Err(CountMismatch);
      }
      var side := SidePath(path);
      if env.metadata.NotWritten? {
        PutBeside(files, path, env.metadata.left);
        files := Put(files, side, env.metadata.left);
        return Err(MetadataFailed);
      }
      PutBeside(files, path, Some(env.metadata.p));
      files := files[side := env.metadata.p];
      var capture := new ByteVector(files[path]);
      EmbedParquet(capture, files[side]);
      if !env.writable {
        return Err(CannotWrite);
      }
      files := files[path := capture.data];
      files := files - {side};
      assert files == (old(files) - {side})[path := capture.data];
      return Ok(env.features.value);
    }

    method PqcapEmbedIndexFunction(args: seq<Option<string>>, envs: seq<Env>) returns (r: Result<seq<nat>, IndexError>)
      requires |args| == |envs|
      modifies this
      ensures (files, r) == IndexVector(old(files), args, envs)
    {
      hide IndexPath, IndexVector;
      var counts: seq<nat> := [];
      WholeVector(files, args, envs);
      for i := 0 to |args|
        invariant Prepended(counts, IndexVector(files, args[i..], envs[i..])) == IndexVector(old(files), args, envs)
      {
        if args[i].None? {
          VectorStops(counts, files, args, envs, i);
          return Err(PathIsNull);
        }
        ghost var before := files;
        var c := EmbedPqcapIndex(args[i].value, envs[i]);
        VectorStep(counts, before, args, envs, i);
        if c.Err? {
          return Err(c.error);
        }
        counts := counts + [c.value];
      }
      VectorEnd(counts, files, args, envs);
      r := Ok(counts);
    }
  }

  /** The outcome of a whole vector, given the counts already produced. */
  function Prepended(counts: seq<nat>, rest: (Files, Result<seq<nat>, IndexError>))
    : (Files, Result<seq<nat>, IndexError>)
  {
    (rest.0, if rest.1.Err? then rest.1 else Ok(counts + rest.1.value))
  }

  lemma WholeVector(files: Files, args: seq<Option<string>>, envs: seq<Env>)
    requires |args| == |envs|
    ensures Prepended([], IndexVector(files, args[0..], envs[0..])) == IndexVector(files, args, envs)
  {
    assert args[0..] == args && envs[0..] == envs;
    var rest := IndexVector(files, args, envs).1;
    assert rest.Ok? ==> [] + rest.value == rest.value;
  }

  lemma VectorEnd(counts: seq<nat>, files: Files, args: seq<Option<string>>, envs: seq<Env>)
    requires |args| == |envs|
    ensures Prepended(counts, IndexVector(files, args[|args|..], envs[|args|..])) == (files, Ok(counts))
  {
    assert counts + [] == counts;
  }

  lemma VectorStops(counts: seq<nat>, files: Files, args: seq<Option<string>>, envs: seq<Env>, i: nat)
    requires |args| == |envs| && i < |args| && args[i].None?
    ensures Prepended(counts, IndexVector(files, args[i..], envs[i..])) == (files, Err(PathIsNull))
  {
  }

  lemma VectorStep(counts: seq<nat>, files: Files, args: seq<Option<string>>, envs: seq<Env>, i: nat)
    requires |args| == |envs| && i < |args| && args[i].Some?
    ensures var (files1, r) := IndexPath(files, args[i].value, envs[i]);
      Prepended(counts, IndexVector(files, args[i..], envs[i..])) ==
        if r.Err? then (files1, Err(r.error))
        else Prepended(counts + [r.value], IndexVector(files1, args[i + 1..], envs[i + 1..]))
  {
    hide IndexPath;
    assert args[i..][1..] == args[i + 1..] && envs[i..][1..] == envs[i + 1..];
    var (files1, r) := IndexPath(files, args[i].value, envs[i]);
    if r.Ok? {
      var rest := IndexVector(files1, args[i + 1..], envs[i + 1..]).1;
      if rest.Ok? {
        assert counts + ([r.value] + rest.value) == counts + [r.value] + rest.value;
      }
    }
  }

  // ----- what a vector that succeeds does to the files -----

  /** The element's file exists, is plain and has as many packets as counted, and its metadata were written. */
  predicate Embeds(files: Files, arg: Option<string>, env: Env, count: nat) {
    && arg.Some? && arg.value in files && IsPlain(files[arg.value])
    && count == |Scan(files[arg.value], 0)| && env.metadata.Written?
  }

  /** Every element embeds into the file that was there before the vector, and no file is named twice. */
  predicate AllEmbed(files: Files, args: seq<Option<string>>, envs: seq<Env>, counts: seq<nat>) {
    && |args| == |envs| == |counts|
    && (forall i | 0 <= i < |args| :: Embeds(files, args[i], envs[i], counts[i]))
    && (forall i, j | 0 <= i < j < |args| :: args[i] != args[j])
  }

  /** The path is the side path of an element. */
  predicate IsSide(path: string, args: seq<Option<string>>) {
    exists i | 0 <= i < |args| :: args[i].Some? && path == SidePath(args[i].value)
  }

  /** Every element whose file is still there has its metadata in it, and every other remaining file is as before. */
  predicate Remaining(files: Files, final: Files, args: seq<Option<string>>, envs: seq<Env>) {
    && |args| == |envs| && final.Keys <= files.Keys
    && (forall i | 0 <= i < |args| && args[i].Some? && args[i].value in final ::
          envs[i].metadata.Written? && final[args[i].value] == Embedded(files[args[i].value], envs[i].metadata.p))
    && (forall p | p in final && Some(p) !in args :: final[p] == files[p])
  }

  /** Gone are exactly the files at the side paths of the elements. */
  ghost predicate SidesRemoved(files: Files, final: Files, args: seq<Option<string>>) {
    forall p: string :: p in final <==> p in files && !IsSide(p, args)
  }

  lemma IndexPathSucceeds(files: Files, path: string, env: Env)
    requires IndexPath(files, path, env).1.Ok?
    ensures var (files1, r) := IndexPath(files, path, env);
      && Embeds(files, Some(path), env, r.value)
      && !IsPlain(Embedded(files[path], env.metadata.p))
      && files1 == (files - {SidePath(path)})[path := Embedded(files[path], env.metadata.p)]
  {
    hide IsPlain, Scan, Embedded, IndexCall;
    IndexCallSucceeds(files[path], env);
    EmbeddedIsNotPlain(files[path], env.metadata.p);
  }

  lemma EmbedsEarlier(files: Files, files1: Files, path: string, e: bytes, arg: Option<string>, env: Env, count: nat)
    requires path in files && files1 == (files - {SidePath(path)})[path := e] && !IsPlain(e)
    requires Embeds(files1, arg, env, count)
    ensures arg != Some(path) && Embeds(files, arg, env, count) && files[arg.value] == files1[arg.value]
  {
    hide IsPlain, Scan;
  }

  lemma OneMoreEmbeds(files: Files, files1: Files, path: string, e: bytes,
                      args: seq<Option<string>>, envs: seq<Env>, count: nat, counts: seq<nat>)
    requires |args| == |envs| && args != [] && args[0] == Some(path) && Embeds(files, args[0], envs[0], count)
    requires files1 == (files - {SidePath(path)})[path := e] && !IsPlain(e)
    requires AllEmbed(files1, args[1..], envs[1..], counts)
    ensures AllEmbed(files, args, envs, [count] + counts) && args[0] !in args[1..]
  {
    hide IsPlain, Scan, Embeds;
    EmbedsAre(files, args[0], envs[0], count);
    var all := [count] + counts;
    forall i | 0 < i < |args|
      ensures args[i] != args[0] && Embeds(files, args[i], envs[i], all[i])
    {
      assert args[i] == args[1..][i - 1] && envs[i] == envs[1..][i - 1] && all[i] == counts[i - 1];
      EmbedsEarlier(files, files1, path, e, args[i], envs[i], all[i]);
    }
    forall i, j | 0 <= i < j < |args|
      ensures args[i] != args[j]
    {
      if i > 0 {
        assert args[i] == args[1..][i - 1] && args[j] == args[1..][j - 1];
      }
    }
  }

  lemma SideOfCons(p: string, args: seq<Option<string>>)
    requires args != [] && args[0].Some?
    ensures IsSide(p, args) <==> p == SidePath(args[0].value) || IsSide(p, args[1..])
  {
    hide SidePath;
    if IsSide(p, args) && p != SidePath(args[0].value) {
      var i :| 0 <= i < |args| && args[i].Some? && p == SidePath(args[i].value);
      assert args[1..][i - 1] == args[i];
    }
    if IsSide(p, args[1..]) {
      var i :| 0 <= i < |args[1..]| && args[1..][i].Some? && p == SidePath(args[1..][i].value);
      assert args[1..][i] == args[i + 1];
    }
  }

  lemma OneMoreRemoved(files: Files, files1: Files, final: Files, path: string, e: bytes, args: seq<Option<string>>)
    requires args != [] && args[0] == Some(path) && path in files
    requires files1 == (files - {SidePath(path)})[path := e]
    requires SidesRemoved(files1, final, args[1..])
    ensures SidesRemoved(files, final, args)
  {
    forall p: string
      ensures p in final <==> p in files && !IsSide(p, args)
    {
      SideOfCons(p, args);
      assert SidePath(path) != path;
      hide IsSide, SidePath;
    }
  }

  lemma OneMoreRemains(files: Files, files1: Files, final: Files, path: string,
                       args: seq<Option<string>>, envs: seq<Env>)
    requires |args| == |envs| && args != [] && args[0] == Some(path) && path in files && envs[0].metadata.Written?
    requires files1 == (files - {SidePath(path)})[path := Embedded(files[path], envs[0].metadata.p)]
    requires args[0] !in args[1..] && Remaining(files1, final, args[1..], envs[1..])
    ensures Remaining(files, final, args, envs)
  {
    hide Embedded, SidePath;
    forall i | 0 <= i < |args| && args[i].Some? && args[i].value in final
      ensures envs[i].metadata.Written?
      ensures args[i].value in files && final[args[i].value] == Embedded(files[args[i].value], envs[i].metadata.p)
    {
      if i > 0 {
        assert args[i] == args[1..][i - 1] && envs[i] == envs[1..][i - 1];
      }
    }
  }

  /** A vector that succeeds names distinct plain files; each named file that remains carries its metadata behind the
      bytes that it had before the vector, no other file that remains is changed, and gone are exactly the files at the
      side paths of the elements. */
  lemma {:induction false} SuccessfulVector(files: Files, args: seq<Option<string>>, envs: seq<Env>)
    requires |args| == |envs| && IndexVector(files, args, envs).1.Ok?
    ensures var (final, r) := IndexVector(files, args, envs);
      && AllEmbed(files, args, envs, r.value)
      && Remaining(files, final, args, envs) && SidesRemoved(files, final, args)
    decreases |args|
  {
    if args != [] {
      hide IsPlain, IndexPath, IndexVector, Embedded, Embeds, AllEmbed, Remaining, SidesRemoved, SidePath;
      VectorUnfold(files, args, envs);
      var path := args[0].value;
      var (files1, r) := IndexPath(files, path, envs[0]);
      IndexPathSucceeds(files, path, envs[0]);
      EmbedsAre(files, args[0], envs[0], r.value);
      SuccessfulVector(files1, args[1..], envs[1..]);
      var (final, rest) := IndexVector(files1, args[1..], envs[1..]);
      var e := Embedded(files[path], envs[0].metadata.p);
      OneMoreEmbeds(files, files1, path, e, args, envs, r.value, rest.value);
      OneMoreRemoved(files, files1, final, path, e, args);
      OneMoreRemains(files, files1, final, path, args, envs);
    }
  }

  lemma EmbedsAre(files: Files, arg: Option<string>, env: Env, count: nat)
    requires Embeds(files, arg, env, count)
    ensures arg.Some? && arg.value in files && env.metadata.Written?
  {
    hide IsPlain, Scan;
  }

  lemma VectorUnfold(files: Files, args: seq<Option<string>>, envs: seq<Env>)
    requires |args| == |envs| && args != [] && IndexVector(files, args, envs).1.Ok?
    ensures args[0].Some? && IndexPath(files, args[0].value, envs[0]).1.Ok?
    ensures var (files1, r) := IndexPath(files, args[0].value, envs[0]);
      var (final, rest) := IndexVector(files1, args[1..], envs[1..]);
      rest.Ok? && IndexVector(files, args, envs) == (final, Ok([r.value] + rest.value))
  {
    hide IndexPath;
  }

  // ----- when nothing else is touched -----

  /** No file is lost: every named file carries its metadata, and every other file is as before. */
  predicate Undisturbed(files: Files, final: Files, args: seq<Option<string>>, envs: seq<Env>) {
    final.Keys == files.Keys && Remaining(files, final, args, envs)
  }

  predicate NoSideFiles(files: Files, args: seq<Option<string>>) {
    forall i | 0 <= i < |args| && args[i].Some? :: SidePath(args[i].value) !in files
  }

  /** A vector that succeeds touches nothing but the files that it names, and loses none of them, if and only if no
      file lies at the side path of any element beforehand. */
  lemma UndisturbedIffNoSideFiles(files: Files, args: seq<Option<string>>, envs: seq<Env>)
    requires |args| == |envs| && IndexVector(files, args, envs).1.Ok?
    ensures Undisturbed(files, IndexVector(files, args, envs).0, args, envs) <==> NoSideFiles(files, args)
  {
    hide *;
    SuccessfulVector(files, args, envs);
    KeysKeptIffNoSideFiles(files, IndexVector(files, args, envs).0, args);
    UndisturbedIs(files, IndexVector(files, args, envs).0, args, envs);
  }

  lemma UndisturbedIs(files: Files, final: Files, args: seq<Option<string>>, envs: seq<Env>)
    requires Remaining(files, final, args, envs)
    ensures Undisturbed(files, final, args, envs) <==> final.Keys == files.Keys
  {
    hide Remaining;
  }

  lemma KeysKeptIffNoSideFiles(files: Files, final: Files, args: seq<Option<string>>)
    requires SidesRemoved(files, final, args)
    ensures final.Keys == files.Keys <==> NoSideFiles(files, args)
  {
    hide SidePath;
    if NoSideFiles(files, args) {
      forall p: string
        ensures p in final.Keys <==> p in files.Keys
      {
        assert p in final <==> p in files && !IsSide(p, args);
      }
    } else {
      var i :| 0 <= i < |args| && args[i].Some? && SidePath(args[i].value) in files;
      assert IsSide(SidePath(args[i].value), args);
      assert SidePath(args[i].value) in files.Keys && SidePath(args[i].value) !in final.Keys;
    }
  }

  /** A file at a side path is lost, also when the same vector has just indexed it: with two empty captures, one of them
      at the side path of the other, the vector that names it first reports two successes and leaves one file, and the
      vector that names it last fails because the file is gone. */
  lemma SideFileIsLost(x: string, env: Env)
    requires env == Env(Some(0), Written([]), true)
    ensures var side := SidePath(x);
      var files: Files := map[x := [], side := []];
      && IndexVector(files, [Some(side), Some(x)], [env, env]) == (map[x := Embedded([], [])], Ok([0, 0]))
      && IndexVector(files, [Some(x), Some(side)], [env, env]) == (map[x := Embedded([], [])], Err(CannotOpen))
  {
    var side := SidePath(x);
    var files: Files := map[x := [], side := []];
    var e := Embedded([], []);
    EmptyCaptureIndexed(env);
    hide IsPlain, IndexCall, Embedded;
    assert x != side && SidePath(side) != x && SidePath(side) != side;
    IndexedPath(files, side, env);
    IndexedPath(files[side := e], x, env);
    IndexedPath(files, x, env);
    assert (files - {SidePath(side)})[side := e] == files[side := e];
    assert (files[side := e] - {side})[x := e] == map[x := e];
    assert (files - {side})[x := e] == map[x := e];
    hide IndexPath, SidePath;
    VectorOfTwo(files, Some(side), Some(x), env);
    VectorOfTwo(files, Some(x), Some(side), env);
  }

  lemma EmptyCaptureIndexed(env: Env)
    requires env == Env(Some(0), Written([]), true)
    ensures IndexCall([], env) == (Embedded([], []), Ok(0))
  {
    hide Embedded;
  }

  lemma IndexedPath(files: Files, path: string, env: Env)
    requires path in files && IndexCall(files[path], env) == (Embedded([], []), Ok(0))
    ensures IndexPath(files, path, env) == ((files - {SidePath(path)})[path := Embedded([], [])], Ok(0))
  {
    hide IndexCall, Embedded;
  }

  lemma VectorOfOne(files: Files, b: Option<string>, env: Env)
    requires b.Some?
    ensures var (files2, q) := IndexPath(files, b.value, env);
      IndexVector(files, [b], [env]) == (files2, if q.Ok? then Ok([q.value]) else Err(q.error))
  {
    hide IndexPath;
    assert [b][1..] == [] && [env][1..] == [];
    var (files2, q) := IndexPath(files, b.value, env);
    assert IndexVector(files2, [], []) == (files2, Ok([]));
    if q.Ok? {
      SucceedingFirst(files, files2, [b], [env], q.value);
      assert [q.value] + [] == [q.value];
    }
  }

  lemma VectorOfTwo(files: Files, a: Option<string>, b: Option<string>, env: Env)
    requires a.Some? && b.Some? && IndexPath(files, a.value, env).1.Ok?
    ensures var (files1, r) := IndexPath(files, a.value, env);
      var (files2, q) := IndexPath(files1, b.value, env);
      IndexVector(files, [a, b], [env, env]) == (files2, if q.Ok? then Ok([r.value, q.value]) else Err(q.error))
  {
    hide IndexPath, IndexVector;
    var (files1, r) := IndexPath(files, a.value, env);
    assert [a, b][1..] == [b] && [env, env][1..] == [env];
    SucceedingFirst(files, files1, [a, b], [env, env], r.value);
    VectorOfOne(files1, b, env);
    var q := IndexPath(files1, b.value, env).1;
    assert q.Ok? ==> [r.value] + [q.value] == [r.value, q.value];
  }

  // ----- vectors that fail -----

  /** A call that fails early leaves everything as it was; one that fails late leaves, at its side path and nowhere
      else, the metadata or whatever the failed write of the metadata has left. */
  lemma FailedPath(files: Files, path: string, env: Env)
    requires IndexPath(files, path, env).1.Err?
    ensures var (final, r) := IndexPath(files, path, env);
      && (forall p: string | p != SidePath(path) :: Lookup(final, p) == Lookup(files, p))
      && (!r.error.MetadataFailed? && !r.error.CannotWrite? ==> final == files)
      && (r.error.MetadataFailed? ==>
            env.metadata.NotWritten? && Lookup(final, SidePath(path)) == env.metadata.left)
      && (r.error.CannotWrite? ==>
            env.metadata.Written? && Lookup(final, SidePath(path)) == Some(env.metadata.p))
  {
    hide IsPlain, Scan, Embedded;
    if path in files {
      PutSame(files, path);
    }
  }

  /** The first element that fails, or the number of elements: what happens from the files that it finds. */
  predicate StopsAt(mid: Files, final: Files, args: seq<Option<string>>, envs: seq<Env>, n: nat, counts: seq<nat>,
                    r: Result<seq<nat>, IndexError>)
    requires |args| == |envs| && n <= |args|
  {
    if n == |args| then final == mid && r == Ok(counts)
    else if args[n].None? then final == mid && r == Err(PathIsNull)
    else
      var (after, one) := IndexPath(mid, args[n].value, envs[n]);
      final == after && one.Err? && r == Err(one.error)
  }

  /** The elements before number `n` make up a vector that succeeds, and the vector stops there. */
  predicate SucceedsUpTo(files: Files, mid: Files, final: Files, args: seq<Option<string>>, envs: seq<Env>,
                         n: nat, counts: seq<nat>, r: Result<seq<nat>, IndexError>)
    requires |args| == |envs|
  {
    && n <= |args|
    && IndexVector(files, args[..n], envs[..n]) == (mid, Ok(counts))
    && StopsAt(mid, final, args, envs, n, counts, r)
  }

  lemma StopsAtOnce(files: Files, args: seq<Option<string>>, envs: seq<Env>)
    requires |args| == |envs|
    requires args == [] || args[0].None? || IndexPath(files, args[0].value, envs[0]).1.Err?
    ensures var (final, r) := IndexVector(files, args, envs); SucceedsUpTo(files, files, final, args, envs, 0, [], r)
  {
    hide IndexPath;
  }

  lemma SucceedingFirst(files: Files, files1: Files, args: seq<Option<string>>, envs: seq<Env>, count: nat)
    requires |args| == |envs| && args != [] && args[0].Some?
    requires IndexPath(files, args[0].value, envs[0]) == (files1, Ok(count))
    ensures var (final, rest) := IndexVector(files1, args[1..], envs[1..]);
      IndexVector(files, args, envs) == (final, if rest.Err? then rest else Ok([count] + rest.value))
  {
    hide IndexPath;
  }

  lemma StopsLater(files: Files, files1: Files, mid: Files, final: Files, args: seq<Option<string>>, envs: seq<Env>,
                   n: nat, count: nat, counts: seq<nat>, rest: Result<seq<nat>, IndexError>)
    requires |args| == |envs| && args != [] && args[0].Some?
    requires IndexPath(files, args[0].value, envs[0]) == (files1, Ok(count))
    requires SucceedsUpTo(files1, mid, final, args[1..], envs[1..], n, counts, rest)
    ensures SucceedsUpTo(files, mid, final, args, envs, n + 1, [count] + counts,
                         if rest.Err? then rest else Ok([count] + rest.value))
  {
    hide IndexPath, IndexVector;
    assert args[..n + 1][1..] == args[1..][..n] && envs[..n + 1][1..] == envs[1..][..n];
    SucceedingFirst(files, files1, args[..n + 1], envs[..n + 1], count);
  }

  lemma {:induction false} SomePrefixSucceeds(files: Files, args: seq<Option<string>>, envs: seq<Env>)
    requires |args| == |envs|
    ensures var (final, r) := IndexVector(files, args, envs);
      exists n: nat, mid: Files, counts: seq<nat> :: SucceedsUpTo(files, mid, final, args, envs, n, counts, r)
    decreases |args|
  {
    hide IndexPath, IndexVector, SucceedsUpTo;
    var (final, r) := IndexVector(files, args, envs);
    if args == [] || args[0].None? || IndexPath(files, args[0].value, envs[0]).1.Err? {
      StopsAtOnce(files, args, envs);
    } else {
      var (files1, one) := IndexPath(files, args[0].value, envs[0]);
      SomePrefixSucceeds(files1, args[1..], envs[1..]);
      SucceedingFirst(files, files1, args, envs, one.value);
      var rest := IndexVector(files1, args[1..], envs[1..]).1;
      var n: nat, mid: Files, counts: seq<nat> :|
        SucceedsUpTo(files1, mid, final, args[1..], envs[1..], n, counts, rest);
      StopsLater(files, files1, mid, final, args, envs, n, one.value, counts, rest);
    }
  }

  /** What the elements before number `n` do, up to where the vector stops. */
  ghost predicate WritesUpTo(files: Files, mid: Files, final: Files, args: seq<Option<string>>, envs: seq<Env>,
                             n: nat, counts: seq<nat>, r: Result<seq<nat>, IndexError>)
    requires |args| == |envs|
  {
    && n <= |args|
    && AllEmbed(files, args[..n], envs[..n], counts)
    && Remaining(files, mid, args[..n], envs[..n]) && SidesRemoved(files, mid, args[..n])
    && (Undisturbed(files, mid, args[..n], envs[..n]) <==> NoSideFiles(files, args[..n]))
    && StopsAt(mid, final, args, envs, n, counts, r)
  }

  /** Whatever the vector and its outcome: the elements before the first failing one embed into distinct files and
      remove what lies at their side paths, touching nothing else and losing none of their files if and only if no file
      lies at their side paths beforehand; the vector then stops with all the counts or with the error of the failing
      element. */
  lemma VectorWritesBeforeFirstFailure(files: Files, args: seq<Option<string>>, envs: seq<Env>)
    requires |args| == |envs|
    ensures var (final, r) := IndexVector(files, args, envs);
      exists n: nat, mid: Files, counts: seq<nat> :: WritesUpTo(files, mid, final, args, envs, n, counts, r)
  {
    hide IndexVector, AllEmbed, Remaining, SidesRemoved, Undisturbed, NoSideFiles, StopsAt;
    SomePrefixSucceeds(files, args, envs);
    var (final, r) := IndexVector(files, args, envs);
    var n: nat, mid: Files, counts: seq<nat> :| SucceedsUpTo(files, mid, final, args, envs, n, counts, r);
    SuccessfulVector(files, args[..n], envs[..n]);
    UndisturbedIffNoSideFiles(files, args[..n], envs[..n]);
    assert WritesUpTo(files, mid, final, args, envs, n, counts, r);
  }
}
