/**
 * The two helpers of trainer/run_trainer.py that do not touch the training libraries:
 * get_trainer_config, the PyTorch Lightning settings for the GPUs found, and
 * find_best_ckpt_by_metric, which reads a score out of every checkpoint file name and
 * returns the path of the first file with the best score. The directory listing, the
 * CUDA query and float() are inputs.
 */
module Checkpoints {
  import opened Results
  import opened Text

  // ---------------------------------------------------------------- get_trainer_config

  datatype TrainerConfig = TrainerConfig(
    overfitBatches: int,
    maxEpochs: real,
    maxSteps: Option<int>,
    precision: int,
    gpus: nat,
    accelerator: Option<string>,
    logEveryNSteps: int,
    checkValEveryNEpoch: int,
    numSanityValSteps: int)

  /**
   * get_trainer_config: with CUDA, every visible device is used, under distributed data
   * parallel ("ddp") when there is more than one; without CUDA, no GPU and no
   * accelerator. The epochs come from the training arguments; the rest is fixed.
   */
  function TrainerConfigFor(epochs: real, cudaAvailable: bool, deviceCount: nat): (c: TrainerConfig)
    ensures c.gpus == (if cudaAvailable then deviceCount else 0)
    ensures c.accelerator == Some("ddp") <==> c.gpus > 1
    ensures c.accelerator.None? <==> c.gpus <= 1
    ensures c.maxEpochs == epochs && c.maxSteps.None?
    ensures c.overfitBatches == 100 && c.precision == 32 && c.logEveryNSteps == 50
    ensures c.checkValEveryNEpoch == 1 && c.numSanityValSteps == 0
  {
    var gpus := if cudaAvailable then deviceCount else 0;
    var accelerator := if cudaAvailable && deviceCount > 1 then Some("ddp") else None;
    TrainerConfig(100, epochs, None, 32, gpus, accelerator, 50, 1, 0)
  }

  // ---------------------------------------------------------------- max() and min()

  /** beats is a strict total order: the one max and min use. */
  ghost predicate StrictTotal<T(!new)>(beats: (T, T) -> bool) {
    && (forall x :: !beats(x, x))
    && (forall x, y, z :: beats(x, y) && beats(y, z) ==> beats(x, z))
    && (forall x, y :: x == y || beats(x, y) || beats(y, x))
  }

  /**
   * max(xs) (beats is >) or min(xs) (beats is <): the running best, starting from the
   * first element, is replaced only by an element that beats it.
   */
  function Best<T>(xs: seq<T>, beats: (T, T) -> bool): (b: T)
    requires |xs| > 0
    ensures b in xs
    decreases |xs|
  {
    if |xs| == 1 then xs[0]
    else
      var m := Best(xs[..|xs| - 1], beats);
      if beats(xs[|xs| - 1], m) then xs[|xs| - 1] else m
  }

  /** Nothing beats the result. */
  lemma {:induction false} BestUnbeaten<T(!new)>(xs: seq<T>, beats: (T, T) -> bool)
    requires |xs| > 0 && StrictTotal(beats)
    ensures forall x :: x in xs ==> !beats(x, Best(xs, beats))
    decreases |xs|
  {
    if |xs| > 1 {
      var init := xs[..|xs| - 1];
      BestUnbeaten(init, beats);
      assert xs == init + [xs[|xs| - 1]];
    }
  }

  /** xs.index(v): the first position holding v. */
  function IndexOf<T(==)>(xs: seq<T>, v: T): (i: nat)
    requires v in xs
    ensures i < |xs| && xs[i] == v && forall j :: 0 <= j < i ==> xs[j] != v
  {
    if xs[0] == v then 0 else 1 + IndexOf(xs[1..], v)
  }

  /** xs.index(max(xs)): a position nothing beats, and the first one, as everything before it is beaten. */
  function BestIndex<T(==)>(xs: seq<T>, beats: (T, T) -> bool): (i: nat)
    requires |xs| > 0
    ensures i < |xs| && xs[i] == Best(xs, beats)
  {
    IndexOf(xs, Best(xs, beats))
  }

  lemma BestIndexFirst<T(!new)>(xs: seq<T>, beats: (T, T) -> bool)
    requires |xs| > 0 && StrictTotal(beats)
    ensures var i := BestIndex(xs, beats);
      && i < |xs|
      && (forall j :: 0 <= j < |xs| ==> !beats(xs[j], xs[i]))
      && (forall j :: 0 <= j < i ==> beats(xs[i], xs[j]))
  {
    BestUnbeaten(xs, beats);
  }

  /** > on str. */
  predicate StrAbove(x: string, m: string) {
    LexLess(m, x)
  }

  lemma StrAboveStrictTotal()
    ensures StrictTotal(StrAbove)
  {
    forall x: string
      ensures !StrAbove(x, x)
    {
      LexLessIrreflexive(x);
    }
    forall x: string, y: string, z: string | StrAbove(x, y) && StrAbove(y, z)
      ensures StrAbove(x, z)
    {
      LexLessTransitive(z, y, x);
    }
    forall x: string, y: string
      ensures x == y || StrAbove(x, y) || StrAbove(y, x)
    {
      LexLessTotal(x, y);
    }
  }

  /** < on the floats read from the names. */
  predicate RealBelow(x: real, m: real) {
    x < m
  }

  lemma RealBelowStrictTotal()
    ensures StrictTotal(RealBelow)
  {
  }

  /** scores.index(min(scores)): a smallest score, and every earlier score is larger. */
  lemma MinIndex(scores: seq<real>)
    requires scores != []
    ensures var i := BestIndex(scores, RealBelow);
      && i < |scores|
      && (forall j :: 0 <= j < |scores| ==> scores[i] <= scores[j])
      && (forall j :: 0 <= j < i ==> scores[i] < scores[j])
  {
    RealBelowStrictTotal();
    BestIndexFirst(scores, RealBelow);
  }

  // ---------------------------------------------------------------- find_best_ckpt_by_metric

  datatype CkptError =
    | EmptyScores         // max() or min() of no scores: ValueError
    | IndexError(name: string) // a val_loss file name without '-'
    | FloatError(text: string) // float() rejected the text: ValueError
    | UnboundScores       // a metric other than val_ex_acc and val_loss never binds scores
    | UnknownMethod       // best_method other than 'max' and 'min': ValueError

  const AccMarker: string := "val_ex_acc="

  const LossMarker: string := "val_loss="

  /** f.split('val_ex_acc=')[-1].replace('.ckpt', '') */
  function AccScore(f: string): string {
    RemoveAll(Last(SplitOn(f, AccMarker)), ".ckpt")
  }

  /**
   * The score of a val_ex_acc file is the text after the last "val_ex_acc=" with every
   * ".ckpt" removed; a name without the marker is its own score text.
   */
  lemma AccScoreText(f: string)
    ensures !Occurs(f, AccMarker) ==> AccScore(f) == RemoveAll(f, ".ckpt")
    ensures Occurs(f, AccMarker) ==>
      var parts := SplitOn(f, AccMarker);
      |parts| >= 2 && f == Join(AccMarker, parts[..|parts| - 1]) + AccMarker + Last(parts)
      && !Occurs(Last(parts), AccMarker) && AccScore(f) == RemoveAll(Last(parts), ".ckpt")
  {
    if Occurs(f, AccMarker) {
      SplitLast(f, AccMarker);
    } else {
      SplitAbsent(f, AccMarker);
    }
  }

  /** The score of every file, in order. */
  function AccScores(files: seq<string>): (scores: seq<string>)
    ensures |scores| == |files| && forall i :: 0 <= i < |files| ==> scores[i] == AccScore(files[i])
  {
    seq(|files|, i requires 0 <= i < |files| => AccScore(files[i]))
  }

  /** float(f.split('-')[1].split('val_loss=')[-1]), float() being parseFloat. */
  function LossScore(f: string, parseFloat: string -> Option<real>): (r: Result<real, CkptError>)
    ensures r == Err(IndexError(f)) <==> !Occurs(f, "-")
  {
    SplitTwoParts(f, "-");
    var parts := SplitOn(f, "-");
    if |parts| < 2 then Err(IndexError(f))
    else
      var text := Last(SplitOn(parts[1], LossMarker));
      match parseFloat(text)
      case None => Err(FloatError(text))
      case Some(v) => Ok(v)
  }

  /**
   * find_best_ckpt_by_metric(output_dir, target_metric, best_method) over the listed
   * files: a success is the directory joined with one of them. Any other metric is a
   * ValueError for an unknown best_method, and otherwise reads scores before it is bound.
   */
  function FindBestCkpt(outputDir: string, files: seq<string>, metric: string, bestMethod: string,
                        parseFloat: string -> Option<real>): (r: Result<string, CkptError>)
    ensures r.Ok? ==> exists i | 0 <= i < |files| :: r.value == PathJoin(outputDir, files[i])
    ensures metric != "val_ex_acc" && metric != "val_loss" ==>
      r == (if bestMethod == "max" || bestMethod == "min" then Err(UnboundScores) else Err(UnknownMethod))
  {
    if metric == "val_ex_acc" then
      var scores := AccScores(files);
      if scores == [] then Err(EmptyScores)
      else Ok(PathJoin(outputDir, files[BestIndex(scores, StrAbove)]))
    else if metric == "val_loss" then
      MapAllFacts(f => LossScore(f, parseFloat), files);
      match MapAll(f => LossScore(f, parseFloat), files)
      case Err(e) => Err(e)
      case Ok(scores) =>
        if scores == [] then Err(EmptyScores)
        else Ok(PathJoin(outputDir, files[BestIndex(scores, RealBelow)]))
    else if bestMethod == "max" || bestMethod == "min" then Err(UnboundScores)
    else Err(UnknownMethod)
  }

  /**
   * For val_ex_acc, whatever best_method says: no files is a ValueError; otherwise the
   * result is the directory joined with the first file whose score no other score
   * exceeds as a string, every earlier file scoring strictly lower.
   */
  lemma FindBestAcc(outputDir: string, files: seq<string>, bestMethod: string, parseFloat: string -> Option<real>)
    ensures files == [] ==> FindBestCkpt(outputDir, files, "val_ex_acc", bestMethod, parseFloat) == Err(EmptyScores)
    ensures files != [] ==> exists i | 0 <= i < |files| ::
      && FindBestCkpt(outputDir, files, "val_ex_acc", bestMethod, parseFloat) == Ok(PathJoin(outputDir, files[i]))
      && (forall j :: 0 <= j < |files| ==> !LexLess(AccScore(files[i]), AccScore(files[j])))
      && (forall j :: 0 <= j < i ==> LexLess(AccScore(files[j]), AccScore(files[i])))
  {
    if files != [] {
      var scores := AccScores(files);
      StrAboveStrictTotal();
      BestIndexFirst(scores, StrAbove);
      var i := BestIndex(scores, StrAbove);
      assert FindBestCkpt(outputDir, files, "val_ex_acc", bestMethod, parseFloat) == Ok(PathJoin(outputDir, files[i]));
      assert forall j :: 0 <= j < |files| ==> !StrAbove(scores[j], scores[i]);
    }
  }

  /**
   * For val_loss, whatever best_method says: the first file whose name has no '-' or
   * whose score text float() rejects stops the search with that error, any such file
   * makes the search fail, and otherwise no files is a ValueError.
   */
  lemma FindBestLossErr(outputDir: string, files: seq<string>, bestMethod: string, parseFloat: string -> Option<real>)
    ensures var r := FindBestCkpt(outputDir, files, "val_loss", bestMethod, parseFloat);
      && (r.Err? && r.error != EmptyScores ==> exists i | 0 <= i < |files| ::
            LossScore(files[i], parseFloat).Err? && r.error == LossScore(files[i], parseFloat).error
            && forall k :: 0 <= k < i ==> LossScore(files[k], parseFloat).Ok?)
      && (r == Err(EmptyScores) <==> files == [])
      && ((exists i | 0 <= i < |files| :: LossScore(files[i], parseFloat).Err?) ==> r.Err? && r.error != EmptyScores)
      && ((exists i | 0 <= i < |files| :: !Occurs(files[i], "-")) ==> r.Err?)
  {
    MapAllFacts(f => LossScore(f, parseFloat), files);
  }

  /** For val_loss with every score readable, the result is the first file with the smallest score. */
  lemma FindBestLossMin(outputDir: string, files: seq<string>, bestMethod: string, parseFloat: string -> Option<real>)
    requires files != [] && forall i :: 0 <= i < |files| ==> LossScore(files[i], parseFloat).Ok?
    ensures exists i | 0 <= i < |files| ::
      && FindBestCkpt(outputDir, files, "val_loss", bestMethod, parseFloat) == Ok(PathJoin(outputDir, files[i]))
      && (forall j :: 0 <= j < |files| ==> LossScore(files[i], parseFloat).value <= LossScore(files[j], parseFloat).value)
      && (forall j :: 0 <= j < i ==> LossScore(files[i], parseFloat).value < LossScore(files[j], parseFloat).value)
  {
    var g := f => LossScore(f, parseFloat);
    MinOfMapped(g, files);
    var scores := MapAll(g, files).value;
    LossPick(outputDir, files, bestMethod, parseFloat, scores);
    var i := BestIndex(scores, RealBelow);
    assert FindBestCkpt(outputDir, files, "val_loss", bestMethod, parseFloat) == Ok(PathJoin(outputDir, files[i]));
  }

  /** The index min() and index() find over the scores of the files, read by any scoring that succeeds on each. */
  lemma MinOfMapped(g: string -> Result<real, CkptError>, files: seq<string>)
    requires files != [] && forall i :: 0 <= i < |files| ==> g(files[i]).Ok?
    ensures MapAll(g, files).Ok? && MapAll(g, files).value != []
    ensures var i := BestIndex(MapAll(g, files).value, RealBelow);
      && i < |files|
      && (forall j :: 0 <= j < |files| ==> g(files[i]).value <= g(files[j]).value)
      && (forall j :: 0 <= j < i ==> g(files[i]).value < g(files[j]).value)
  {
    MapAllFacts(g, files);
    var scores := MapAll(g, files).value;
    MinIndex(scores);
  }

  /** With every score read, val_loss picks the file at the index of the smallest score. */
  lemma LossPick(outputDir: string, files: seq<string>, bestMethod: string, parseFloat: string -> Option<real>,
                 scores: seq<real>)
    requires MapAll(f => LossScore(f, parseFloat), files) == Ok(scores) && scores != []
    ensures |scores| == |files|
    ensures FindBestCkpt(outputDir, files, "val_loss", bestMethod, parseFloat)
      == Ok(PathJoin(outputDir, files[BestIndex(scores, RealBelow)]))
  {
    MapAllFacts(f => LossScore(f, parseFloat), files);
  }
}
