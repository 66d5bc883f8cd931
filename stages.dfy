/**
  The five vision stages the handler chains together. The stages
  themselves belong to the vision library and are not modelled: each is an
  arbitrary function of its arguments and of the disk it runs on, that
  either returns (with the disk it leaves behind) or raises.
 */
module Stages {
  import opened Wrappers
  import opened Files
  import opened Config

  /** What a stage did: returned a value, or raised an exception with a message. */
  datatype Outcome =
    | Returned(value: Path, tree: Tree)
    | Raised(message: string, tree: Tree)

  /** One call into the vision library, with the arguments the handler passes. */
  datatype Call =
    | ExtractFeatures(conf: Conf, imageDir: Path, exportDir: Path)
    | PairsFromRetrieval(descriptors: Path, output: Path, numMatched: nat)
    | MatchFeatures(conf: Conf, pairs: Path, featureName: string, exportDir: Path)
    | Reconstruct(sfmDir: Path, imageDir: Path, pairs: Path, features: Path, matches: Path)

  /**
    `extract_features.main`, `pairs_from_retrieval.main`,
    `match_features.main` and `reconstruction.main`. The values returned by
    the pair and reconstruction stages are not used by the handler.
   */
  datatype Vision = Vision(
    extract: (Conf, Path, Path, Tree) -> Outcome,
    pairs: (Path, Path, nat, Tree) -> Outcome,
    matchFeatures: (Conf, Path, string, Path, Tree) -> Outcome,
    reconstruct: (Path, Path, Path, Path, Path, Tree) -> Outcome)

  function Invoke(v: Vision, c: Call, t: Tree): Outcome {
    match c
    case ExtractFeatures(conf, images, exportDir) => v.extract(conf, images, exportDir, t)
    case PairsFromRetrieval(desc, out, num) => v.pairs(desc, out, num, t)
    case MatchFeatures(conf, pairs, featureName, exportDir) => v.matchFeatures(conf, pairs, featureName, exportDir, t)
    case Reconstruct(sfm, images, pairs, features, matches) => v.reconstruct(sfm, images, pairs, features, matches, t)
  }

  /** The five stages, in the order the handler runs them. */
  datatype Stage = RetrievalExtraction | PairGeneration | FeatureExtraction | Matching | Reconstruction

  const StageOrder: seq<Stage> := [RetrievalExtraction, PairGeneration, FeatureExtraction, Matching, Reconstruction]

  /** A call made for a stage, and what came of it. */
  datatype Step = Step(stage: Stage, call: Call, outcome: Outcome)

  /** `min(5, len(images))`: how many retrieval neighbours each image is paired with. */
  function NumMatched(images: nat): (k: nat)
    ensures k <= 5 && k <= images
    ensures k == 5 || k == images
    ensures images <= 5 ==> k == images
  {
    if images < 5 then images else 5
  }

  /** The paths the handler derives from its temporary directory. */
  datatype Layout = Layout(tmp: Path) {
    function Images(): Path { tmp + ["images"] }
    function Outputs(): Path { tmp + ["outputs"] }
    function PairsFile(): Path { Outputs() + ["pairs.txt"] }
    function SfmDir(): Path { Outputs() + ["sfm_colmap"] }
    function ZipPath(): Path { tmp + ["sfm_output.zip"] }
  }

  /**
    The stage calls of one request, what each returned, the message of the
    exception that stopped the chain (if any), and the disk afterwards.
   */
  datatype Run = Run(steps: seq<Step>, error: Option<string>, tree: Tree)

  /** The text of the `KeyError` raised by `feature_conf["output"]`. */
  const MissingOutputKey := "'output'"

  /**
    The stage chain of the handler, from the disk `t0` holding the saved
    images. `images` is the number of uploads.
   */
  function Pipeline(v: Vision, rconf: Conf, fconf: Conf, mconf: Conf, L: Layout, images: nat, t0: Tree): (run: Run)
    // between one and five stages ran, and every stage but the last returned
    ensures 1 <= |run.steps| <= 5
    ensures forall k :: 0 <= k < |run.steps| ==> run.steps[k].stage == StageOrder[k]
    ensures forall k :: 0 <= k < |run.steps| - 1 ==> run.steps[k].outcome.Returned?
    // each stage ran on the disk the previous one left
    ensures run.steps[0].outcome == Invoke(v, run.steps[0].call, t0)
    ensures forall k :: 0 < k < |run.steps| ==>
      run.steps[k].outcome == Invoke(v, run.steps[k].call, run.steps[k - 1].outcome.tree)
    ensures run.tree == run.steps[|run.steps| - 1].outcome.tree
    // the arguments of each call, threaded from earlier results
    ensures run.steps[0].call == ExtractFeatures(rconf, L.Images(), L.Outputs())
    ensures |run.steps| > 1 ==>
      run.steps[1].call == PairsFromRetrieval(run.steps[0].outcome.value, L.PairsFile(), NumMatched(images))
    ensures |run.steps| > 2 ==> run.steps[2].call == ExtractFeatures(fconf, L.Images(), L.Outputs())
    ensures |run.steps| > 3 ==>
      "output" in fconf && run.steps[3].call == MatchFeatures(mconf, L.PairsFile(), fconf["output"], L.Outputs())
    ensures |run.steps| > 4 ==>
      run.steps[4].call == Reconstruct(L.SfmDir(), L.Images(), L.PairsFile(),
                                       run.steps[2].outcome.value, run.steps[3].outcome.value)
    // how the chain ended
    ensures run.error.None? <==> |run.steps| == 5 && run.steps[4].outcome.Returned?
    ensures run.steps[|run.steps| - 1].outcome.Raised? ==>
      run.error == Some(run.steps[|run.steps| - 1].outcome.message)
    ensures run.error.Some? && run.steps[|run.steps| - 1].outcome.Returned? ==>
      |run.steps| == 3 && "output" !in fconf && run.error == Some(MissingOutputKey)
  {
    var c0 := ExtractFeatures(rconf, L.Images(), L.Outputs());
    var o0 := Invoke(v, c0, t0);
    var s0 := Step(RetrievalExtraction, c0, o0);
    if o0.Raised? then Run([s0], Some(o0.message), o0.tree) else
    var c1 := PairsFromRetrieval(o0.value, L.PairsFile(), NumMatched(images));
    var o1 := Invoke(v, c1, o0.tree);
    var s1 := Step(PairGeneration, c1, o1);
    if o1.Raised? then Run([s0, s1], Some(o1.message), o1.tree) else
    var c2 := ExtractFeatures(fconf, L.Images(), L.Outputs());
    var o2 := Invoke(v, c2, o1.tree);
    var s2 := Step(FeatureExtraction, c2, o2);
    if o2.Raised? then Run([s0, s1, s2], Some(o2.message), o2.tree) else
    if "output" !in fconf then Run([s0, s1, s2], Some(MissingOutputKey), o2.tree) else
    var c3 := MatchFeatures(mconf, L.PairsFile(), fconf["output"], L.Outputs());
    var o3 := Invoke(v, c3, o2.tree);
    var s3 := Step(Matching, c3, o3);
    if o3.Raised? then Run([s0, s1, s2, s3], Some(o3.message), o3.tree) else
    var c4 := Reconstruct(L.SfmDir(), L.Images(), L.PairsFile(), o2.value, o3.value);
    var o4 := Invoke(v, c4, o3.tree);
    var s4 := Step(Reconstruction, c4, o4);
    Run([s0, s1, s2, s3, s4], if o4.Raised? then Some(o4.message) else None, o4.tree)
  }
}
