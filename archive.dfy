/**
  Packing the reconstruction directory: every file found below `sfm_dir`
  becomes one archive entry, named by its path relative to the parent of
  `sfm_dir`. The walk's order is the filesystem's and is left open.
 */
module Archive {
  import opened Files

  /** One member of the archive: its name (path components) and its content. */
  datatype Entry = Entry(name: Path, data: Bytes)

  function Names(entries: seq<Entry>): set<Path> {
    set e | e in entries :: e.name
  }

  /**
    `entries` is an archive of the files below `base + [top]`: no name twice,
    every entry is such a file with its content, and every such file is there.
   */
  ghost predicate ArchiveOf(entries: seq<Entry>, files: map<Path, Bytes>, base: Path, top: string) {
    var dir := base + [top];
    && (forall i, j :: 0 <= i < j < |entries| ==> entries[i].name != entries[j].name)
    && (forall i :: 0 <= i < |entries| ==>
          var p := base + entries[i].name;
          p in files && Below(p, dir) && files[p] == entries[i].data)
    && (forall p :: p in files && Below(p, dir) ==> p[|base|..] in Names(entries))
  }

  /** The nested walk over `os.walk(sfm_dir)`, one `zipf.write` per file. */
  method CollectEntries(files: map<Path, Bytes>, base: Path, top: string) returns (entries: seq<Entry>)
    ensures ArchiveOf(entries, files, base, top)
  {
    var dir := base + [top];
    var pending := set p | p in files && Below(p, dir);
    ghost var done: set<Path> := {};
    entries := [];
    while pending != {}
      invariant pending !! done
      invariant forall p :: p in pending + done <==> p in files && Below(p, dir)
      invariant forall i, j :: 0 <= i < j < |entries| ==> entries[i].name != entries[j].name
      invariant forall i :: 0 <= i < |entries| ==>
        var p := base + entries[i].name;
        p in done && files[p] == entries[i].data
      invariant forall p :: p in done ==> |base| <= |p| && p[|base|..] in Names(entries)
      decreases pending
    {
      var p :| p in pending;
      assert base + p[|base|..] == p;
      entries := entries + [Entry(p[|base|..], files[p])];
      pending := pending - {p};
      done := done + {p};
    }
  }

  /** Every entry name starts with the directory's own name: "sfm_colmap/...". */
  lemma EntryNamesStartWithTop(entries: seq<Entry>, files: map<Path, Bytes>, base: Path, top: string)
    requires ArchiveOf(entries, files, base, top)
    ensures forall i :: 0 <= i < |entries| ==> |entries[i].name| >= 2 && entries[i].name[0] == top
  {
    forall i | 0 <= i < |entries|
      ensures |entries[i].name| >= 2 && entries[i].name[0] == top
    {
      var p := base + entries[i].name;
      assert p[|base|] == (base + [top])[|base|];
    }
  }
}
