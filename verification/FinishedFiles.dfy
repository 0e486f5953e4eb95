/** What readers find in the files that `COPY` and `pqcap_embed_index` have finished. */
module FinishedFiles {
  import opened Bytes
  import opened Wrappers
  import opened Blocks
  import opened Embed
  import opened CopyWriter
  import opened ReadBack
  import Handles = SubFile
  import opened IndexCalls
  import opened IndexVectors

  /** The file starts with the given capture; opening it at its path through footer, locator, printed path and handle
      and reading the handle to the end returns exactly the given metadata, and empty metadata does not open. */
  predicate Serves(files: map<string, bytes>, path: string, capture: bytes, metadata: bytes,
                   counts: seq<Handles.count>)
    requires path in files
  {
    && capture <= files[path]
    && var h := OpenMetadata(files, path);
       && (h.Some? <==> metadata != [])
       && (h.Some? ==> Handles.Drain(h.value, counts) == Some(metadata))
  }

  lemma EmbeddedServes(files: map<string, bytes>, path: string, capture: bytes, metadata: bytes,
                       counts: seq<Handles.count>)
    requires |metadata| < POW64 && EmbeddedSize(|capture|, |metadata|) < Handles.POW63
    requires Handles.Total(counts) >= |metadata|
    ensures Serves(files[path := Embedded(capture, metadata)], path, capture, metadata, counts)
  {
    hide Embedded, OpenMetadata, Handles.Drain, Handles.Total;
    EmbeddedIsNotPlain(capture, metadata);
    MetadataReadBack(files, path, capture, metadata, counts);
  }

  /** In every reachable state in which a copy is closed, the finished file starts with the blocks that the sink calls
      wrote, and reading its metadata back returns exactly the bytes that were given to be embedded. */
  lemma FinishedCopyServes(blocks: seq<Block>, events: seq<Event>, files: map<string, bytes>, path: string,
                           counts: seq<Handles.count>)
    requires IsInitialFile(blocks) && CanRun(Start(blocks), events, true)
    requires RunEvents(Start(blocks), events, true).closed.Some?
    ensures var s := RunEvents(Start(blocks), events, true);
      AllWellFormed(s.blocks) && |s.closed.value| < POW64 &&
      var r := Finalize(EncodeAll(s.blocks), s.rows, s.closed.value);
      && r.Ok?
      && (EmbeddedSize(|EncodeAll(s.blocks)|, |s.closed.value|) < Handles.POW63
          && Handles.Total(counts) >= |s.closed.value|
          ==> Serves(files[path := r.value.0], path, EncodeAll(s.blocks), s.closed.value, counts))
  {
    hide CanRun, RunEvents, IsInitialFile, EncodeAll, Embedded, Scan, Serves, Handles.Total, EmbeddedSize;
    FinalizedIndexIsRight(blocks, events);
    var s := RunEvents(Start(blocks), events, true);
    if EmbeddedSize(|EncodeAll(s.blocks)|, |s.closed.value|) < Handles.POW63
      && Handles.Total(counts) >= |s.closed.value| {
      EmbeddedServes(files, path, EncodeAll(s.blocks), s.closed.value, counts);
    }
  }

  /** After a call on a path has succeeded, the file starts with the capture as it was, and reading its metadata back
      returns exactly the bytes that the call wrote beside it. */
  lemma IndexedPathServes(files: Files, path: string, env: Env, counts: seq<Handles.count>)
    requires IndexPath(files, path, env).1.Ok?
    ensures path in files && env.metadata.Written? && path in IndexPath(files, path, env).0
    ensures EmbeddedSize(|files[path]|, |env.metadata.p|) < Handles.POW63 && Handles.Total(counts) >= |env.metadata.p|
      ==> Serves(IndexPath(files, path, env).0, path, files[path], env.metadata.p, counts)
  {
    hide IndexPath, Embedded, IsPlain, Serves, Handles.Total, EmbeddedSize, SidePath;
    IndexPathSucceeds(files, path, env);
    if EmbeddedSize(|files[path]|, |env.metadata.p|) < Handles.POW63 && Handles.Total(counts) >= |env.metadata.p| {
      EmbeddedServes(files - {SidePath(path)}, path, files[path], env.metadata.p, counts);
    }
  }
}
