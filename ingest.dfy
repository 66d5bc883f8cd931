/**
  Saving the uploaded images into the workspace's `images/` directory:
  each upload is written under its own filename, or under a name made from
  the clock when it has none; later uploads overwrite earlier ones of the
  same name.
 */
module Ingest {
  import opened Wrappers
  import opened Text
  import opened Files

  /** An uploaded file: its optional client-side name and its content. */
  datatype Upload = Upload(filename: Option<string>, payload: Bytes)

  /**
    The name the upload is stored under, given the clock reading in
    milliseconds when it is saved. An empty filename counts as missing.
   */
  function StoredName(u: Upload, ms: nat): (name: string)
    ensures name != []
  {
    match u.filename
    case Some(f) => if f != [] then f else "image_" + Decimal(ms) + ".jpg"
    case None => "image_" + Decimal(ms) + ".jpg"
  }

  /**
    A named upload keeps its own name; otherwise the name is "image_", the
    decimal clock reading, and ".jpg", and the reading can be read back
    from it.
   */
  lemma StoredNameParts(u: Upload, ms: nat)
    ensures u.filename.Some? && u.filename.value != [] ==> StoredName(u, ms) == u.filename.value
    ensures u.filename.None? || u.filename.value == [] ==>
      var name := StoredName(u, ms);
      && |name| >= 11
      && name[..6] == "image_" && name[|name| - 4..] == ".jpg"
      && AllDigits(name[6..|name| - 4])
      && ParseDecimal(name[6..|name| - 4]) == ms
  {
    if u.filename.None? || u.filename.value == [] {
      var d := Decimal(ms);
      var name := StoredName(u, ms);
      assert name == "image_" + d + ".jpg";
      assert name[6..|name| - 4] == d;
      ParseDecimalInvertsDecimal(ms);
    }
  }

  /**
    The files written into `dir` by saving the uploads in order;
    `clock(k)` is the millisecond reading while upload `k` is saved.
   */
  function Saved(dir: Path, uploads: seq<Upload>, clock: nat -> nat): map<Path, Bytes> {
    if uploads == [] then map[]
    else
      var k := |uploads| - 1;
      Saved(dir, uploads[..k], clock)[dir + [StoredName(uploads[k], clock(k))] := uploads[k].payload]
  }

  /**
    The file of an upload holds the payload of the LAST upload with the
    same name: same-named uploads overwrite each other.
   */
  lemma {:induction false} LastUploadWins(dir: Path, uploads: seq<Upload>, clock: nat -> nat, k: nat)
    requires k < |uploads|
    requires forall j :: k < j < |uploads| ==> StoredName(uploads[j], clock(j)) != StoredName(uploads[k], clock(k))
    ensures dir + [StoredName(uploads[k], clock(k))] in Saved(dir, uploads, clock)
    ensures Saved(dir, uploads, clock)[dir + [StoredName(uploads[k], clock(k))]] == uploads[k].payload
  {
    var n := |uploads| - 1;
    if k < n {
      var init := uploads[..n];
      forall j | k < j < |init|
        ensures StoredName(init[j], clock(j)) != StoredName(init[k], clock(k))
      {
        assert init[j] == uploads[j];
      }
      LastUploadWins(dir, init, clock, k);
      var a, b := StoredName(uploads[n], clock(n)), StoredName(uploads[k], clock(k));
      assert (dir + [a])[|dir|] == a && (dir + [b])[|dir|] == b;
    }
  }

  /** Nothing but the uploads' own names ends up in the directory. */
  lemma {:induction false} OnlyUploadedNames(dir: Path, uploads: seq<Upload>, clock: nat -> nat, p: Path)
    requires p in Saved(dir, uploads, clock)
    ensures exists k :: 0 <= k < |uploads| && p == dir + [StoredName(uploads[k], clock(k))]
  {
    var n := |uploads| - 1;
    if p != dir + [StoredName(uploads[n], clock(n))] {
      OnlyUploadedNames(dir, uploads[..n], clock, p);
      var k :| 0 <= k < n && p == dir + [StoredName(uploads[..n][k], clock(k))];
      assert uploads[..n][k] == uploads[k];
    }
  }

  /** Every saved file lies directly inside the directory it was saved to. */
  lemma {:induction false} SavedInsideDir(dir: Path, uploads: seq<Upload>, clock: nat -> nat)
    ensures forall p :: p in Saved(dir, uploads, clock) ==> Below(p, dir) && |p| == |dir| + 1
  {
    if uploads != [] {
      var n := |uploads| - 1;
      SavedInsideDir(dir, uploads[..n], clock);
      var q := dir + [StoredName(uploads[n], clock(n))];
      assert q[..|dir|] == dir;
    }
  }
}
