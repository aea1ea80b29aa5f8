/**
 * The field optimiser of the tools library: one call of `optimise_once`
 * moves a state machine that, for every level of a multi-resolution
 * graph from the coarsest down, runs a fixed number of RoSy passes and
 * then of PoSy passes, and finally labels the edges of the finest level.
 *
 * The passes' floating point smoothing and the k/t values written onto
 * an edge are outside the model; what is modelled is the sequence of
 * states, the iteration counting, the order in which a pass visits the
 * nodes, and which frame each edge is labelled in.
 */
module FieldOptimiser {
  import opened Wrappers
  import opened Sequences
  import opened Graph
  import opened Surfel
  import opened SurfelGraph
  import opened Shuffling
  import MultiResolution
  import AbstractOptimiser

  // ------------------------------------------------------------------
  // randomise_indices

  /** `randomise_indices`: the positions `0..n-1`, shuffled by the engine's draws. */
  function RandomiseIndices(n: nat, draws: seq<nat>): (r: seq<nat>)
    ensures |r| == n
    ensures forall i: nat :: i in r <==> i < n
    ensures Distinct(r)
  {
    var r := Shuffle(Iota(n), draws);
    IotaFacts(n);
    PermutationKeepsElements(Iota(n), r);
    r
  }

  lemma IotaFacts(n: nat)
    ensures forall i: nat :: i in Iota(n) <==> i < n
    ensures Distinct(Iota(n))
  {
    forall i | 0 <= i < n ensures i in Iota(n) {
      assert Iota(n)[i] == i;
    }
    forall i | i in Iota(n) ensures 0 <= i < n {
      var k :| 0 <= k < n && Iota(n)[k] == i;
    }
  }

  // ------------------------------------------------------------------
  // Edge labelling

  datatype LabelError = NoCommonFrames | MultiFrameUnsupported | FrameIndexOutOfRange

  /**
   * The frame `label_edge` labels an edge in, given the frames its ends
   * share, as written: the first guard repeats the second's `> 1` test, so
   * an edge with several frames is reported as having none, and an edge
   * with none reads past the end of the empty list.
   */
  function EdgeFrameAsWritten(frames: seq<nat>): (r: Result<nat, LabelError>)
    ensures r.Success? <==> |frames| == 1
    ensures |frames| > 1 ==> r == Failure(NoCommonFrames)
    ensures |frames| == 0 ==> r == Failure(FrameIndexOutOfRange)
  {
    if |frames| > 1 then Failure(NoCommonFrames)
    else if |frames| > 1 then Failure(MultiFrameUnsupported)
    else if |frames| == 0 then Failure(FrameIndexOutOfRange)
    else Success(frames[0])
  }

  /** An edge in two shared frames is reported as sharing none; an edge in none reads out of range. */
  lemma EdgeFrameAsWrittenMisreports()
    ensures EdgeFrameAsWritten([0, 1]) == Failure(NoCommonFrames)
    ensures EdgeFrameAsWritten([]) == Failure(FrameIndexOutOfRange)
  {
  }

  /**
   * The frame an edge is labelled in, as the error messages intend: an
   * edge whose ends share no frame has no common frames, one whose ends
   * share several is not supported, and otherwise it is the one frame.
   */
  function EdgeFrame(frames: seq<nat>): (r: Result<nat, LabelError>)
    ensures r.Success? <==> |frames| == 1
    ensures r.Success? ==> r.value in frames
    ensures r == Failure(NoCommonFrames) <==> |frames| == 0
    ensures r == Failure(MultiFrameUnsupported) <==> |frames| > 1
  {
    if |frames| == 0 then Failure(NoCommonFrames)
    else if |frames| > 1 then Failure(MultiFrameUnsupported)
    else Success(frames[0])
  }

  /** Where both agree: an edge in exactly one shared frame is labelled in that frame. */
  lemma EdgeFrameAgreesOnOneFrame(frames: seq<nat>)
    requires |frames| == 1
    ensures EdgeFrame(frames) == EdgeFrameAsWritten(frames) == Success(frames[0])
  {
  }

  /** Every edge's ends are nodes of the graph. */
  ghost predicate EdgesPresent(g: SurfelGraph)
  {
    forall i :: 0 <= i < |g.edges| ==> g.edges[i].from in g.nodes && g.edges[i].to in g.nodes
  }

  /** The frames the two ends of an edge share, ascending. */
  function EdgeFrames(g: SurfelGraph, e: Edge<SurfelGraphEdge.EdgeLabels>): (r: seq<nat>)
    requires e.from in g.nodes && e.to in g.nodes
    ensures forall f :: f in r <==> f in g.nodes[e.from].frames && f in g.nodes[e.to].frames
  {
    MultiResolution.CommonFrames(g.nodes[e.from], g.nodes[e.to])
  }

  /** An edge to label: its ends and the frame its labels are computed in. */
  datatype EdgeLabelling = EdgeLabelling(from: NodeId, to: NodeId, frame: nat)

  /** An edge can be labelled when its ends share exactly one frame. */
  ghost predicate Labellable(g: SurfelGraph, e: Edge<SurfelGraphEdge.EdgeLabels>)
  {
    e.from in g.nodes && e.to in g.nodes && |EdgeFrames(g, e)| == 1
  }

  /** The labelling of a labellable edge: its ends, and their one shared frame. */
  function LabellingOf(g: SurfelGraph, e: Edge<SurfelGraphEdge.EdgeLabels>): (l: EdgeLabelling)
    requires Labellable(g, e)
    ensures l.from == e.from && l.to == e.to
    ensures l.frame in g.nodes[e.from].frames && l.frame in g.nodes[e.to].frames
  {
    EdgeLabelling(e.from, e.to, EdgeFrames(g, e)[0])
  }

  /** The labelling of edges `es` in order; the first edge that cannot be labelled stops it. */
  function LabelEdgesFrom(g: SurfelGraph, es: seq<Edge<SurfelGraphEdge.EdgeLabels>>): (r: Result<seq<EdgeLabelling>, LabelError>)
    requires forall i :: 0 <= i < |es| ==> es[i].from in g.nodes && es[i].to in g.nodes
    ensures r.Success? <==> forall i :: 0 <= i < |es| ==> Labellable(g, es[i])
    ensures r.Success? ==> |r.value| == |es| && forall i :: 0 <= i < |es| ==> r.value[i] == LabellingOf(g, es[i])
    decreases |es|
  {
    if |es| == 0 then Success([])
    else LabelStep(g, es, LabelEdgesFrom(g, es[1..]))
  }

  /** One step of the labelling: the first edge of `es`, then the outcome `rest` for the others. */
  function LabelStep(g: SurfelGraph, es: seq<Edge<SurfelGraphEdge.EdgeLabels>>, rest: Result<seq<EdgeLabelling>, LabelError>)
    : (r: Result<seq<EdgeLabelling>, LabelError>)
    requires |es| > 0 && es[0].from in g.nodes && es[0].to in g.nodes
    requires rest.Success? <==> forall i :: 0 <= i < |es[1..]| ==> Labellable(g, es[1..][i])
    requires rest.Success? ==> |rest.value| == |es[1..]| && forall i :: 0 <= i < |es[1..]| ==> rest.value[i] == LabellingOf(g, es[1..][i])
    ensures r.Success? <==> forall i :: 0 <= i < |es| ==> Labellable(g, es[i])
    ensures r.Success? ==> |r.value| == |es| && forall i :: 0 <= i < |es| ==> r.value[i] == LabellingOf(g, es[i])
  {
    ShiftLabellable(g, es);
    match EdgeFrame(EdgeFrames(g, es[0]))
    case Failure(err) => Failure(err)
    case Success(f) =>
      match rest
      case Failure(err) => Failure(err)
      case Success(ls) =>
        ShiftLabelling(g, es, ls);
        Success([LabellingOf(g, es[0])] + ls)
  }

  lemma ShiftLabellable(g: SurfelGraph, es: seq<Edge<SurfelGraphEdge.EdgeLabels>>)
    requires |es| > 0
    ensures (forall i :: 0 <= i < |es| ==> Labellable(g, es[i])) <==>
            Labellable(g, es[0]) && forall i :: 0 <= i < |es[1..]| ==> Labellable(g, es[1..][i])
  {
    assert forall i :: 0 <= i < |es[1..]| ==> es[1..][i] == es[i + 1];
  }

  lemma ShiftLabelling(g: SurfelGraph, es: seq<Edge<SurfelGraphEdge.EdgeLabels>>, ls: seq<EdgeLabelling>)
    requires |es| > 0 && Labellable(g, es[0]) && forall i :: 0 <= i < |es[1..]| ==> Labellable(g, es[1..][i])
    requires |ls| == |es[1..]| && forall i :: 0 <= i < |es[1..]| ==> ls[i] == LabellingOf(g, es[1..][i])
    ensures forall i :: 0 <= i < |es| ==> Labellable(g, es[i]) && ([LabellingOf(g, es[0])] + ls)[i] == LabellingOf(g, es[i])
  {
    forall i | 0 <= i < |es|
      ensures Labellable(g, es[i]) && ([LabellingOf(g, es[0])] + ls)[i] == LabellingOf(g, es[i])
    {
      if i > 0 {
        assert es[i] == es[1..][i - 1];
      }
    }
  }

  /** `label_edges`: every edge of the finest level, in edge order. */
  function LabelEdges(g: SurfelGraph): (r: Result<seq<EdgeLabelling>, LabelError>)
    requires EdgesPresent(g)
    ensures r.Success? <==> forall i :: 0 <= i < |g.edges| ==> Labellable(g, g.edges[i])
    ensures r.Success? ==> |r.value| == |g.edges| && forall i :: 0 <= i < |g.edges| ==> r.value[i] == LabellingOf(g, g.edges[i])
  {
    LabelEdgesFrom(g, g.edges)
  }

  // ------------------------------------------------------------------
  // The state machine

  datatype FieldState =
    | Uninitialised
    | Initialised
    | StartingNewLevel
    | OptimisingRosy
    | OptimisingPosy
    | EndingLevel
    | LabelEdgesState
    | Done

  datatype SolveMode = Rosy | Posy

  /**
   * `iterations` counts the passes of the current phase toward `target`;
   * `level` is the level being smoothed of the `numLevels` the graph
   * holds; `base` is its finest level; `labels` the edges labelled.
   */
  datatype Field = Field(
    state: FieldState,
    mode: SolveMode,
    iterations: int,
    target: int,
    level: nat,
    numLevels: nat,
    base: SurfelGraph,
    labels: seq<EdgeLabelling>)

  datatype FieldError = NoGraph | Labelling(error: LabelError)

  /** The constructor: the pass count per phase, no graph yet. */
  function NewField(target: int, mode: SolveMode): (f: Field)
    ensures f.state == Uninitialised && f.target == target && f.iterations == 0 && f.level == 0
  {
    Field(Uninitialised, mode, 0, target, 0, 0, Empty(false), [])
  }

  /** `set_graph`: a multi-resolution graph is loaded; ready to begin. */
  function SetGraph(f: Field, m: MultiResolution.MultiResolutionGraph): (r: Field)
    requires MultiResolution.WellFormed(m)
    ensures r.state == Initialised
    ensures r.numLevels == |m.levels| && r.base == m.levels[0] && Valid(r.base)
    ensures r.target == f.target && r.iterations == f.iterations && r.level == f.level
  {
    f.(state := Initialised, numLevels := |m.levels|, base := m.levels[0])
  }

  /** `set_mode`: the mode changes only before optimisation has begun. */
  function SetMode(f: Field, mode: SolveMode): (r: Field)
    ensures r.mode == if f.state == Initialised || f.state == Uninitialised then mode else f.mode
    ensures r.(mode := f.mode) == f
  {
    if f.state != Initialised && f.state != Uninitialised then f
    else if f.mode == mode then f
    else f.(mode := mode)
  }

  /** `optimise_begin`: start at the coarsest level. */
  function Begin(f: Field): (r: Field)
    requires f.numLevels > 0
    ensures r.state == StartingNewLevel && r.level == f.numLevels - 1
  {
    f.(level := f.numLevels - 1, state := StartingNewLevel)
  }

  /** `start_level`: the pass count restarts and RoSy smoothing begins. */
  function StartLevel(f: Field): (r: Field)
    ensures r.state == OptimisingRosy && r.iterations == 0 && r.level == f.level
  {
    f.(iterations := 0, state := OptimisingRosy)
  }

  /** `optimise_rosy`'s bookkeeping: after the target number of passes, the count restarts for PoSy. */
  function RosyPass(f: Field): (r: Field)
    ensures f.iterations + 1 == f.target ==> r.state == OptimisingPosy && r.iterations == 0
    ensures f.iterations + 1 != f.target ==> r.state == f.state && r.iterations == f.iterations + 1
    ensures r.level == f.level && r.target == f.target && r.numLevels == f.numLevels && r.base == f.base
  {
    var counted := f.(iterations := f.iterations + 1);
    if counted.iterations == f.target then counted.(iterations := 0, state := OptimisingPosy) else counted
  }

  /** `optimise_posy`'s bookkeeping: after the target number of passes the level ends. */
  function PosyPass(f: Field): (r: Field)
    ensures r.iterations == f.iterations + 1
    ensures r.state == if f.iterations + 1 == f.target then EndingLevel else f.state
    ensures r.level == f.level && r.target == f.target && r.numLevels == f.numLevels && r.base == f.base
  {
    var counted := f.(iterations := f.iterations + 1);
    if counted.iterations == f.target then counted.(state := EndingLevel) else counted
  }

  /** `end_level`: after level 0 the edges are labelled, otherwise the next finer level starts. */
  function EndLevel(f: Field): (r: Field)
    ensures f.level == 0 ==> r.state == LabelEdgesState && r.level == 0
    ensures f.level != 0 ==> r.state == StartingNewLevel && r.level == f.level - 1
    ensures r.iterations == f.iterations && r.target == f.target && r.numLevels == f.numLevels && r.base == f.base
  {
    if f.level == 0 then f.(state := LabelEdgesState)
    else f.(level := f.level - 1, state := StartingNewLevel)
  }

  /** Between calls: a loaded graph has a level, and its finest level is a valid graph. */
  ghost predicate Settled(f: Field)
  {
    Valid(f.base) && (f.state != Uninitialised ==> f.numLevels > 0 && f.level < f.numLevels)
  }

  /**
   * `optimise_once`: one state's work. Optimising with no graph fails, an
   * edge that cannot be labelled fails, and only the DONE state answers
   * true.
   */
  function Step(f: Field): (r: Result<(Field, bool), FieldError>)
    requires Settled(f)
    ensures f.state == Uninitialised ==> r == Failure(NoGraph)
    ensures r.Success? ==> (r.value.1 <==> f.state == Done)
    ensures r.Success? ==> r.value.0.target == f.target && r.value.0.base == f.base && r.value.0.numLevels == f.numLevels
    ensures r.Success? ==> Settled(r.value.0)
  {
    match f.state
    case Uninitialised => Failure(NoGraph)
    case Initialised => Success((Begin(f), false))
    case StartingNewLevel => Success((StartLevel(f), false))
    case OptimisingRosy => Success((RosyPass(f), false))
    case OptimisingPosy => Success((PosyPass(f), false))
    case EndingLevel => Success((EndLevel(f), false))
    case LabelEdgesState =>
      (match LabelEdges(f.base)
       case Failure(e) => Failure(Labelling(e))
       case Success(ls) => Success((f.(labels := ls, state := Done), false)))
    case Done => Success((f, true))
  }

  /** Labelling fails exactly when some finest-level edge does not have exactly one shared frame; DONE follows otherwise. */
  lemma LabelStateStep(f: Field)
    requires Settled(f) && f.state == LabelEdgesState
    ensures Step(f).Success? <==> forall i :: 0 <= i < |f.base.edges| ==> Labellable(f.base, f.base.edges[i])
    ensures Step(f).Success? ==> Step(f).value.0.state == Done && |Step(f).value.0.labels| == |f.base.edges|
  {
  }

  /** With no positive pass target, the RoSy phase never ends: the count only grows past it. */
  lemma RosyNeverEndsWithoutTarget(f: Field)
    requires Settled(f) && f.state == OptimisingRosy && f.target <= 0 && f.iterations >= 0
    ensures Step(f).Success?
    ensures Step(f).value.0.state == OptimisingRosy && Step(f).value.0.iterations == f.iterations + 1
  {
  }

  // ------------------------------------------------------------------
  // Whole runs

  /** `n` calls in a row; the answers in order, and the optimiser after. */
  function Run(f: Field, n: nat): (r: Result<(Field, seq<bool>), FieldError>)
    requires Settled(f)
    ensures r.Success? ==> |r.value.1| == n && Settled(r.value.0)
    decreases n
  {
    if n == 0 then Success((f, []))
    else
      match Step(f)
      case Failure(e) => Failure(e)
      case Success((f1, done)) =>
        match Run(f1, n - 1)
        case Failure(e) => Failure(e)
        case Success((f2, rest)) => Success((f2, [done] + rest))
  }

  /** A run that succeeded is a successful step followed by a successful shorter run. */
  lemma RunSplit(f: Field, n: nat, f1: Field, o1: seq<bool>)
    requires Settled(f) && n > 0 && Run(f, n) == Success((f1, o1))
    ensures Step(f).Success? && |o1| > 0 && o1[0] == Step(f).value.1
    ensures Run(Step(f).value.0, n - 1) == Success((f1, o1[1..]))
  {
  }

  /** A successful step followed by a successful shorter run is a successful run. */
  lemma RunJoin(f: Field, n: nat, g: Field, d: bool, g1: Field, rest: seq<bool>)
    requires Settled(f) && n > 0 && Step(f) == Success((g, d)) && Run(g, n - 1) == Success((g1, rest))
    ensures Run(f, n) == Success((g1, [d] + rest))
  {
  }

  /** One quiet call. */
  lemma RunOne(f: Field)
    requires Settled(f) && Step(f).Success? && !Step(f).value.1
    ensures Run(f, 1) == Success((Step(f).value.0, Quiet(1)))
  {
    var f1 := Step(f).value.0;
    assert Run(f1, 0) == Success((f1, []));
    assert [false] + [] == Quiet(1);
  }

  /** Runs compose: `a` calls and then `b` calls are `a + b` calls. */
  lemma {:induction false} RunAppend(f: Field, a: nat, b: nat, f1: Field, o1: seq<bool>, f2: Field, o2: seq<bool>)
    requires Settled(f) && Settled(f1)
    requires Run(f, a) == Success((f1, o1)) && Run(f1, b) == Success((f2, o2))
    ensures Run(f, a + b) == Success((f2, o1 + o2))
    decreases a
  {
    if a > 0 {
      RunSplit(f, a, f1, o1);
      var (g, d) := Step(f).value;
      var rest := o1[1..];
      RunAppend(g, a - 1, b, f1, rest, f2, o2);
      assert a - 1 + b == a + b - 1;
      RunJoin(f, a + b, g, d, f2, rest + o2);
      assert o1 == [d] + rest;
      assert [d] + (rest + o2) == o1 + o2;
    } else {
      assert f1 == f && o1 == [];
      assert o1 + o2 == o2;
    }
  }

  /** `k` quiet calls: all answer false. */
  function Quiet(k: nat): (r: seq<bool>)
    ensures |r| == k && forall i :: 0 <= i < k ==> !r[i]
  {
    seq(k, _ => false)
  }

  lemma QuietAppend(a: nat, b: nat)
    ensures Quiet(a) + Quiet(b) == Quiet(a + b)
  {
  }

  /** The last `k` RoSy passes of a level end in PoSy with the count restarted. */
  lemma {:induction false} RosyPhase(f: Field, k: nat)
    requires Settled(f) && f.state == OptimisingRosy && 0 < k && f.iterations == f.target - k
    ensures Run(f, k) == Success((f.(state := OptimisingPosy, iterations := 0), Quiet(k)))
    decreases k
  {
    var f1 := RosyPass(f);
    assert Step(f) == Success((f1, false));
    if k == 1 {
      assert f1 == f.(state := OptimisingPosy, iterations := 0);
      RunOne(f);
    } else {
      assert f1 == f.(iterations := f.iterations + 1);
      RosyPhase(f1, k - 1);
      assert f1.(state := OptimisingPosy, iterations := 0) == f.(state := OptimisingPosy, iterations := 0);
      assert [false] + Quiet(k - 1) == Quiet(k);
    }
  }

  /** The last `k` PoSy passes of a level end the level with the count at the target. */
  lemma {:induction false} PosyPhase(f: Field, k: nat)
    requires Settled(f) && f.state == OptimisingPosy && 0 < k && f.iterations == f.target - k
    ensures Run(f, k) == Success((f.(state := EndingLevel, iterations := f.target), Quiet(k)))
    decreases k
  {
    var f1 := PosyPass(f);
    assert Step(f) == Success((f1, false));
    if k == 1 {
      assert f1 == f.(state := EndingLevel, iterations := f.target);
      RunOne(f);
    } else {
      assert f1 == f.(iterations := f.iterations + 1);
      PosyPhase(f1, k - 1);
      assert f1.(state := EndingLevel, iterations := f.target) == f.(state := EndingLevel, iterations := f.target);
      assert [false] + Quiet(k - 1) == Quiet(k);
    }
  }

  /**
   * One level takes `2 * target + 2` calls: start, the RoSy passes, the
   * PoSy passes, and the end of the level.
   */
  lemma OneLevel(f: Field)
    requires Settled(f) && f.state == StartingNewLevel && f.target > 0
    ensures var r := Run(f, 2 * f.target + 2);
            r.Success? && r.value.1 == Quiet(2 * f.target + 2) &&
            r.value.0.iterations == f.target && r.value.0.target == f.target &&
            r.value.0.numLevels == f.numLevels && r.value.0.base == f.base &&
            (f.level == 0 ==> r.value.0.state == LabelEdgesState && r.value.0.level == 0) &&
            (f.level != 0 ==> r.value.0.state == StartingNewLevel && r.value.0.level == f.level - 1)
  {
    var t := f.target;
    var f1 := StartLevel(f);
    assert Step(f) == Success((f1, false));
    RunOne(f);
    var f2 := f1.(state := OptimisingPosy, iterations := 0);
    RosyPhase(f1, t);
    RunAppend(f, 1, t, f1, Quiet(1), f2, Quiet(t));
    QuietAppend(1, t);
    var f3 := f2.(state := EndingLevel, iterations := t);
    PosyPhase(f2, t);
    RunAppend(f, 1 + t, t, f2, Quiet(1 + t), f3, Quiet(t));
    QuietAppend(1 + t, t);
    var f4 := EndLevel(f3);
    assert Step(f3) == Success((f4, false));
    RunOne(f3);
    RunAppend(f, 1 + t + t, 1, f3, Quiet(1 + t + t), f4, Quiet(1));
    QuietAppend(1 + t + t, 1);
    assert 1 + t + t + 1 == 2 * t + 2;
  }

  /** From the start of level `l`, all the levels take `(l + 1) * (2 * target + 2)` calls and reach edge labelling. */
  lemma {:induction false} AllLevels(f: Field)
    requires Settled(f) && f.state == StartingNewLevel && f.target > 0
    ensures var n := (f.level + 1) * (2 * f.target + 2);
            var r := Run(f, n);
            r.Success? && r.value.1 == Quiet(n) &&
            r.value.0.state == LabelEdgesState && r.value.0.base == f.base
    decreases f.level
  {
    var per := 2 * f.target + 2;
    OneLevel(f);
    var (f1, o1) := Run(f, per).value;
    if f.level != 0 {
      AllLevels(f1);
      var n1 := (f1.level + 1) * per;
      var (f2, o2) := Run(f1, n1).value;
      RunAppend(f, per, n1, f1, o1, f2, o2);
      QuietAppend(per, n1);
      assert per + n1 == (f.level + 1) * per;
    }
  }

  /**
   * A whole optimisation with a positive pass target: begin, every level,
   * the labelling; every call so far answers false, and when every edge
   * has exactly one shared frame the optimiser is DONE and the next call
   * answers true.
   */
  lemma WholeRun(f: Field)
    requires Settled(f) && f.state == Initialised && f.target > 0
    requires forall i :: 0 <= i < |f.base.edges| ==> Labellable(f.base, f.base.edges[i])
    ensures var n := 1 + f.numLevels * (2 * f.target + 2) + 1;
            var r := Run(f, n);
            r.Success? && r.value.1 == Quiet(n) && r.value.0.state == Done &&
            Step(r.value.0) == Success((r.value.0, true))
  {
    var f1 := Begin(f);
    assert Step(f) == Success((f1, false));
    RunOne(f);
    var m := f.numLevels * (2 * f.target + 2);
    AllLevels(f1);
    var (f2, o2) := Run(f1, m).value;
    RunAppend(f, 1, m, f1, Quiet(1), f2, o2);
    QuietAppend(1, m);
    LabelStateStep(f2);
    var f3 := Step(f2).value.0;
    RunOne(f2);
    RunAppend(f, 1 + m, 1, f2, Quiet(1 + m), f3, Quiet(1));
    QuietAppend(1 + m, 1);
  }
}
