/**
  The `/sfm` request handler. A `Host` holds the disk the handler works on;
  one call of `SfmEndpoint` is one request: check the three configuration
  keys, create the temporary workspace, save the images, run the five
  stages, zip the reconstruction, read the zip back, remove the workspace,
  and answer.
 */
module Endpoint {
  import opened Wrappers
  import opened Files
  import opened Config
  import opened Ingest
  import opened Stages
  import opened Archive

  /** What the handler returns: a JSON error, or the archive as a stream. */
  datatype Response =
    | JsonError(status: int, error: string)
    | ZipStream(body: Bytes, mediaType: string, disposition: string)

  /** The prefix of every 500 message; the exception's text follows it. */
  const InternalError := "Internal server error: "

  const ZipMediaType := "application/zip"
  const ZipDisposition := "attachment; filename=sfm_output.zip"

  /** The disk once the workspace exists and every upload has been saved. */
  function Ingested(t: Tree, L: Layout, uploads: seq<Upload>, clock: nat -> nat): Tree {
    Tree(t.files + Saved(L.Images(), uploads, clock), t.dirs + {L.tmp, L.Images(), L.Outputs()})
  }

  /** The text of the `OSError` raised when `p` cannot be opened for writing. */
  function WriteError(t: Tree, p: Path): string {
    if p in t.dirs then "[Errno 21] Is a directory: '" + Show(p) + "'"
    else "[Errno 2] No such file or directory: '" + Show(p) + "'"
  }

  class Host {
    var files: map<Path, Bytes>
    var dirs: set<Path>

    constructor (t: Tree)
      ensures Disk() == t
    {
      files := t.files;
      dirs := t.dirs;
    }

    function Disk(): Tree
      reads this
    {
      Tree(files, dirs)
    }

    /** `tempfile.TemporaryDirectory()` and the two `mkdir` calls. */
    method CreateWorkspace(L: Layout)
      modifies this
      ensures Disk() == Tree(old(files), old(dirs) + {L.tmp, L.Images(), L.Outputs()})
    {
      dirs := dirs + {L.tmp, L.Images(), L.Outputs()};
    }

    /** `open(p, "wb").write(data)` where the open cannot fail. */
    method WriteFile(p: Path, data: Bytes)
      requires CanWrite(Disk(), p)
      modifies this
      ensures Disk() == Tree(old(files)[p := data], old(dirs))
    {
      files := files[p := data];
    }

    /** `open(p, "wb")` where it may fail; `ok` tells whether it wrote. */
    method TryWriteFile(p: Path, data: Bytes) returns (ok: bool)
      modifies this
      ensures ok == CanWrite(old(Disk()), p)
      ensures Disk() == if ok then Tree(old(files)[p := data], old(dirs)) else old(Disk())
    {
      ok := CanWrite(Disk(), p);
      if ok {
        files := files[p := data];
      }
    }

    /** The loop that saves the uploads into `images/`, in order. */
    method SaveImages(L: Layout, uploads: seq<Upload>, clock: nat -> nat)
      requires L.Images() in dirs
      requires forall d :: d in dirs ==> !Below(d, L.Images())
      modifies this
      ensures Disk() == Tree(old(files) + Saved(L.Images(), uploads, clock), old(dirs))
    {
      var k := 0;
      while k < |uploads|
        invariant 0 <= k <= |uploads|
        invariant dirs == old(dirs)
        invariant files == old(files) + Saved(L.Images(), uploads[..k], clock)
      {
        var name := StoredName(uploads[k], clock(k));
        assert Below(L.Images() + [name], L.Images());
        WriteFile(L.Images() + [name], uploads[k].payload);
        assert uploads[..k + 1][..k] == uploads[..k];
        k := k + 1;
      }
      assert uploads[..k] == uploads;
    }

    /** One call into the vision library; the stage may change the disk. */
    method RunStage(v: Vision, c: Call) returns (o: Outcome)
      modifies this
      ensures o == Invoke(v, c, old(Disk())) && Disk() == o.tree
    {
      o := Invoke(v, c, Disk());
      files, dirs := o.tree.files, o.tree.dirs;
    }

    /** The removal of the temporary directory when the `with` block exits. */
    method RemoveTree(root: Path)
      modifies this
      ensures Disk() == Prune(old(Disk()), root)
    {
      var t := Prune(Disk(), root);
      files, dirs := t.files, t.dirs;
    }

    /** The five stage calls, stopping at the first exception. */
    method RunPipeline(v: Vision, rconf: Conf, fconf: Conf, mconf: Conf, L: Layout, images: nat)
      returns (run: Run)
      modifies this
      ensures run == Pipeline(v, rconf, fconf, mconf, L, images, old(Disk()))
      ensures Disk() == run.tree
    {
      var c0 := ExtractFeatures(rconf, L.Images(), L.Outputs());
      var o0 := RunStage(v, c0);
      var steps := [Step(RetrievalExtraction, c0, o0)];
      if o0.Raised? {
        return Run(steps, Some(o0.message), o0.tree);
      }

      var c1 := PairsFromRetrieval(o0.value, L.PairsFile(), NumMatched(images));
      var o1 := RunStage(v, c1);
      steps := steps + [Step(PairGeneration, c1, o1)];
      if o1.Raised? {
        return Run(steps, Some(o1.message), o1.tree);
      }

      var c2 := ExtractFeatures(fconf, L.Images(), L.Outputs());
      var o2 := RunStage(v, c2);
      steps := steps + [Step(FeatureExtraction, c2, o2)];
      if o2.Raised? {
        return Run(steps, Some(o2.message), o2.tree);
      }

      // `feature_conf["output"]` raises KeyError when the entry is missing
      if "output" !in fconf {
        return Run(steps, Some(MissingOutputKey), o2.tree);
      }
      var c3 := MatchFeatures(mconf, L.PairsFile(), fconf["output"], L.Outputs());
      var o3 := RunStage(v, c3);
      steps := steps + [Step(Matching, c3, o3)];
      if o3.Raised? {
        return Run(steps, Some(o3.message), o3.tree);
      }

      var c4 := Reconstruct(L.SfmDir(), L.Images(), L.PairsFile(), o2.value, o3.value);
      var o4 := RunStage(v, c4);
      steps := steps + [Step(Reconstruction, c4, o4)];
      run := Run(steps, if o4.Raised? then Some(o4.message) else None, o4.tree);
    }

    /**
      One request. `L.tmp` is the fresh directory the temporary-directory
      context hands out, `clock(k)` the millisecond reading while upload `k`
      is saved, and `pack` the zip encoding of a list of entries. `steps`
      are the calls made into the vision library, `archive` the entries of
      the zip that was sent.
     */
    method SfmEndpoint(uploads: seq<Upload>, keys: Keys, tables: Tables, v: Vision, L: Layout,
                       clock: nat -> nat, pack: seq<Entry> -> Bytes)
      returns (resp: Response, steps: seq<Step>, ghost archive: seq<Entry>)
      requires Absent(Disk(), L.tmp)
      modifies this
      // a bad key: 400 naming the first bad key, and nothing else happens
      ensures Validate(tables, keys).Some? ==>
        && resp == JsonError(400, Message(Validate(tables, keys).value))
        && steps == []
        && Disk() == old(Disk())
      // all keys good: the stage chain runs on the saved images and the workspace is gone afterwards
      ensures Validate(tables, keys).None? ==>
        var run := Pipeline(v, tables.extractConfs[keys.retrieval], tables.extractConfs[keys.feature],
                            tables.matchConfs[keys.matcher], L, |uploads|,
                            Ingested(old(Disk()), L, uploads, clock));
        && steps == run.steps
        && Disk() == Prune(run.tree, L.tmp)
        && (run.error.Some? ==> resp == JsonError(500, InternalError + run.error.value))
        && (run.error.None? && !CanWrite(run.tree, L.ZipPath()) ==>
              resp == JsonError(500, InternalError + WriteError(run.tree, L.ZipPath())))
        && (run.error.None? && CanWrite(run.tree, L.ZipPath()) ==>
              && resp == ZipStream(pack(archive), ZipMediaType, ZipDisposition)
              && ArchiveOf(archive, run.tree.files, L.Outputs(), "sfm_colmap"))
    {
      steps, archive := [], [];
      var rejection := Validate(tables, keys);
      if rejection.Some? {
        resp := JsonError(400, Message(rejection.value));
        return;
      }

      CreateWorkspace(L);
      assert forall d :: Below(d, L.Images()) ==> Within(d, L.tmp);
      SaveImages(L, uploads, clock);

      // the lookups cannot fail: each key was just found in its table
      var rconf := tables.extractConfs[keys.retrieval];
      var fconf := tables.extractConfs[keys.feature];
      var mconf := tables.matchConfs[keys.matcher];

      var run := RunPipeline(v, rconf, fconf, mconf, L, |uploads|);
      steps := run.steps;
      if run.error.Some? {
        RemoveTree(L.tmp);
        resp := JsonError(500, InternalError + run.error.value);
        return;
      }

      // zip the reconstruction directory, then read the archive back
      var entries := CollectEntries(files, L.Outputs(), "sfm_colmap");
      var done := Disk();
      var ok := TryWriteFile(L.ZipPath(), pack(entries));
      if !ok {
        RemoveTree(L.tmp);
        resp := JsonError(500, InternalError + WriteError(done, L.ZipPath()));
        return;
      }
      // read the archive while the workspace still exists, then remove it
      var body := files[L.ZipPath()];
      RemoveTree(L.tmp);
      PruneAfterWrite(done, L.tmp, L.ZipPath(), pack(entries));
      archive := entries;
      resp := ZipStream(body, ZipMediaType, ZipDisposition);
    }
  }
}
