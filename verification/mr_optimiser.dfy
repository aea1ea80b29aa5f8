/**
 * The multi-resolution optimiser: a stack of coarsened graphs is smoothed
 * from the coarsest level down, each level first by a RoSy (orientation)
 * optimiser and then by a PoSy (position) optimiser. Each call advances
 * the active sub-optimiser by one step.
 *
 * The sub-optimisers are outside the model: each step is told whether
 * the RoSy step and the PoSy step it would take report completion.
 */
module MultiResolutionOptimiser {
  import opened Wrappers
  import opened Graph
  import opened SurfelGraph
  import opened MultiResolution

  datatype MrState = Uninitialised | Initialised | OptimisingRosy | OptimisingPosy | EndingOptimisation

  /**
   * `numLevels` is the configured level count, `level` the level being
   * smoothed and `levelCount` the number of levels the graph stack holds.
   */
  datatype MrOptimiser = MrOptimiser(state: MrState, numLevels: nat, level: nat, levelCount: nat)

  /** The level index names no level of the stack, or building a level failed. */
  datatype MrError = LevelOutOfRange | LevelNotBuilt(error: LevelError)

  /** `unsigned int` arithmetic wraps at 2^32. */
  const UintRange: nat := 0x1_0000_0000

  /** The constructor: the configured number of levels, nothing loaded. */
  function NewMrOptimiser(numLevels: nat): (o: MrOptimiser)
    requires numLevels < UintRange
    ensures o.state == Uninitialised && o.numLevels == numLevels && o.level == 0
  {
    MrOptimiser(Uninitialised, numLevels, 0, 0)
  }

  /**
   * `set_data`: builds the level stack over the graph and starts at the
   * coarsest level, `num_levels - 1`. Building a level can fail. With no
   * levels configured the unsigned subtraction wraps and names a level the
   * stack does not hold.
   */
  function SetData(o: MrOptimiser, g: SurfelGraph, orderOf: SurfelGraph -> seq<nat>, geo: MergeGeometry): (r: Result<MrOptimiser, MrError>)
    requires Valid(g) && o.numLevels < UintRange
    ensures r == Failure(LevelOutOfRange) <==> o.numLevels == 0
    ensures r.Success? <==> o.numLevels > 0 && GenerateLevels(FromGraph(g), o.numLevels, orderOf, geo).Success?
    ensures r.Success? ==> r.value.state == Initialised && r.value.numLevels == o.numLevels
    ensures r.Success? ==> r.value.level == o.numLevels - 1 && r.value.levelCount == o.numLevels
  {
    var built := GenerateLevelsAsWritten(FromGraph(g), o.numLevels, orderOf, geo);
    GenerateLevelsFromOneLevel(g, o.numLevels, orderOf, geo);
    assert o.numLevels == 0 ==> built == Success(FromGraph(g));
    match built
    case Failure(e) => Failure(LevelNotBuilt(e))
    case Success(m) =>
      assert |m.levels| == if o.numLevels == 0 then 1 else o.numLevels;
      // `m_num_levels - 1` in `unsigned int`: 0 wraps to the largest value.
      var level := if o.numLevels == 0 then UintRange - 1 else o.numLevels - 1;
      if level >= |m.levels| then Failure(LevelOutOfRange)
      else Success(o.(state := Initialised, level := level, levelCount := |m.levels|))
  }

  /** Between steps: never part way through a level change, and the level exists. */
  predicate Settled(o: MrOptimiser)
  {
    o.state != Uninitialised && o.level < o.levelCount
  }

  /** What the sub-optimisers report during one step. */
  datatype SubSteps = SubSteps(rosyDone: bool, posyDone: bool)

  /**
   * `optimise_do_one_step`: from INITIALISED the RoSy phase starts at
   * once. A completed RoSy step hands over to PoSy, which takes its first
   * step in the same call. A completed PoSy step moves down a level and
   * back to RoSy, or after level 0 ends optimisation. Only an ended
   * optimisation answers true. The source asserts that the optimiser has
   * data; with the assertion compiled out, a step of an optimiser with no
   * data does nothing and answers false.
   */
  function Step(o: MrOptimiser, sub: SubSteps): (r: (MrOptimiser, bool))
    ensures o.state == Uninitialised ==> r == (o, false)
    ensures r.0.numLevels == o.numLevels && r.0.levelCount == o.levelCount
    ensures r.1 <==> r.0.state == EndingOptimisation
  {
    match o.state
    case Uninitialised => (o, false)
    case EndingOptimisation => (o, true)
    case _ =>
      if o.state != OptimisingPosy && !sub.rosyDone then (o.(state := OptimisingRosy), false)
      else if !sub.posyDone then (o.(state := OptimisingPosy), false)
      else if o.level != 0 then (o.(state := OptimisingRosy, level := o.level - 1), false)
      else (o.(state := EndingOptimisation), true)
  }

  /** A sub-step that is not complete leaves the phase and level as they are, and the call answers false. */
  lemma IncompleteStepWaits(o: MrOptimiser, sub: SubSteps)
    requires o.state == OptimisingRosy || o.state == OptimisingPosy
    requires o.state == OptimisingRosy ==> !sub.rosyDone
    requires o.state == OptimisingPosy ==> !sub.posyDone
    ensures Step(o, sub) == (o, false)
  {
  }

  /** Completing PoSy above level 0 goes one level down and back to RoSy. */
  lemma PosyDoneDescends(o: MrOptimiser, sub: SubSteps)
    requires o.state == OptimisingPosy && sub.posyDone && o.level != 0
    ensures Step(o, sub) == (o.(state := OptimisingRosy, level := o.level - 1), false)
  {
  }

  /** Stepping keeps an optimiser settled. */
  lemma StepKeepsSettled(o: MrOptimiser, sub: SubSteps)
    requires Settled(o)
    ensures Settled(Step(o, sub).0)
  {
  }

  /** Steps in which every sub-step completes; the answers in order, and the optimiser after. */
  function EagerRun(o: MrOptimiser, n: nat): (r: (MrOptimiser, seq<bool>))
    ensures |r.1| == n
    ensures Settled(o) ==> Settled(r.0)
    ensures r.0.levelCount == o.levelCount
    decreases n
  {
    if n == 0 then (o, [])
    else
      var (o1, done) := Step(o, SubSteps(true, true));
      var (o2, rest) := EagerRun(o1, n - 1);
      (o2, [done] + rest)
  }

  /**
   * When every sub-step completes at once, a run from level `l` takes one
   * call per level: `l` calls answer false and the last answers true.
   */
  lemma {:induction false} EagerRunLevels(o: MrOptimiser)
    requires o.state == Initialised || o.state == OptimisingRosy
    ensures var r := EagerRun(o, o.level + 1);
            r.1 == seq(o.level, _ => false) + [true] &&
            r.0.state == EndingOptimisation && r.0.level == 0
    decreases o.level
  {
    var (o1, done) := Step(o, SubSteps(true, true));
    if o.level == 0 {
      assert done && o1.state == EndingOptimisation;
      assert EagerRun(o1, 0) == (o1, []);
    } else {
      assert !done && o1.state == OptimisingRosy && o1.level == o.level - 1;
      EagerRunLevels(o1);
      var rest := EagerRun(o1, o.level).1;
      assert [false] + rest == seq(o.level, _ => false) + [true];
    }
  }
}
