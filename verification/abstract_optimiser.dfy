/**
 * The control logic shared by the smoothing optimisers: the termination
 * criteria bitmask read from a comma separated property, the order of the
 * termination checks, the INITIALISED / OPTIMISING / ENDING_OPTIMISATION
 * state machine driven one step at a time, and the frames two surfels
 * share.
 *
 * What a pass does to the field, and the floating point convergence test,
 * are outside the model: each step is told whether the user cancelled and
 * whether the smoothness test reports convergence.
 */
module AbstractOptimiser {
  import opened Wrappers
  import opened Sequences
  import opened Text
  import opened Surfel
  import opened SurfelGraph
  import MultiResolution

  // ------------------------------------------------------------------
  // Termination criteria

  const TcAbsolute: bv16 := 1
  const TcRelative: bv16 := 2
  const TcFixed: bv16 := 4

  /** The criteria bits that have a name. */
  const TcKnown: bv16 := TcAbsolute | TcRelative | TcFixed

  /** The bit an option names, 0 for an option with no meaning. */
  function BitOf(option: string): bv16
  {
    if option == "absolute" then TcAbsolute
    else if option == "relative" then TcRelative
    else if option == "fixed" then TcFixed
    else 0
  }

  /** Sets `bit` when the option names it and it is not yet set. */
  function SetNamed(criteria: bv16, named: bool, bit: bv16): (r: bv16)
    requires bit == TcAbsolute || bit == TcRelative || bit == TcFixed
    ensures r == if named then criteria | bit else criteria
  {
    if named && criteria & bit == 0 then criteria | bit else criteria
  }

  lemma NamesDistinct()
    ensures "absolute" != "relative" && "absolute" != "fixed" && "relative" != "fixed"
  {
    assert "absolute"[0] != "relative"[0];
  }

  /** One option of the property: its bit is set unless already set. */
  function AddOption(criteria: bv16, option: string): (r: bv16)
    ensures r == criteria | BitOf(option)
  {
    NamesDistinct();
    var a, b, f := option == "absolute", option == "relative", option == "fixed";
    SetThree(criteria, a, b, f);
    SetNamed(SetNamed(SetNamed(criteria, a, TcAbsolute), b, TcRelative), f, TcFixed)
  }

  lemma SetThree(c: bv16, a: bool, b: bool, f: bool)
    requires !(a && b) && !(a && f) && !(b && f)
    ensures SetNamed(SetNamed(SetNamed(c, a, TcAbsolute), b, TcRelative), f, TcFixed) ==
            c | (if a then TcAbsolute else if b then TcRelative else if f then TcFixed else 0)
  {
    if a {
    } else if b {
    } else if f {
    } else {
    }
  }

  /** What setting one named bit (or none) does to each named bit. */
  lemma OrBit(c: bv16, b: bv16)
    requires b == 0 || b == TcAbsolute || b == TcRelative || b == TcFixed
    ensures (c | b) & TcAbsolute != 0 <==> c & TcAbsolute != 0 || b == TcAbsolute
    ensures (c | b) & TcRelative != 0 <==> c & TcRelative != 0 || b == TcRelative
    ensures (c | b) & TcFixed != 0 <==> c & TcFixed != 0 || b == TcFixed
  {
    if b == 0 {
    } else if b == TcAbsolute {
    } else if b == TcRelative {
    } else {
    }
  }

  /** Setting a named bit leaves the other bits alone. */
  lemma OrBitOthers(c: bv16, b: bv16)
    requires b == 0 || b == TcAbsolute || b == TcRelative || b == TcFixed
    ensures (c | b) & !TcKnown == c & !TcKnown
  {
    if b == 0 {
    } else if b == TcAbsolute {
    } else if b == TcRelative {
    } else {
    }
  }

  /** Setting a named bit changes nothing exactly when it was already set. */
  lemma OrBitSame(c: bv16, b: bv16)
    requires b == 0 || b == TcAbsolute || b == TcRelative || b == TcFixed
    ensures c | b == c <==> b == 0 || c & b != 0
  {
    if b == 0 {
    } else if b == TcAbsolute {
    } else if b == TcRelative {
    } else {
    }
  }

  /** The criteria stay as they were, and the option is reported as ignored, exactly when it is unknown or repeated. */
  lemma IgnoredOption(criteria: bv16, option: string)
    ensures AddOption(criteria, option) == criteria <==> BitOf(option) == 0 || criteria & BitOf(option) != 0
  {
    var b := BitOf(option);
    BitOfNamed(option);
    OrBitSame(criteria, b);
  }

  lemma BitOfNamed(option: string)
    ensures BitOf(option) == 0 || BitOf(option) == TcAbsolute || BitOf(option) == TcRelative || BitOf(option) == TcFixed
  {
  }

  /** What one option does to each bit. */
  lemma AddOptionBits(criteria: bv16, option: string)
    ensures AddOption(criteria, option) & TcAbsolute != 0 <==> criteria & TcAbsolute != 0 || option == "absolute"
    ensures AddOption(criteria, option) & TcRelative != 0 <==> criteria & TcRelative != 0 || option == "relative"
    ensures AddOption(criteria, option) & TcFixed != 0 <==> criteria & TcFixed != 0 || option == "fixed"
    ensures AddOption(criteria, option) & !TcKnown == criteria & !TcKnown
  {
    NamesDistinct();
    BitOfNamed(option);
    OrBit(criteria, BitOf(option));
    OrBitOthers(criteria, BitOf(option));
  }

  /** The options, one after another. */
  function AddOptions(criteria: bv16, options: seq<string>): (r: bv16)
    ensures r & TcAbsolute != 0 <==> criteria & TcAbsolute != 0 || "absolute" in options
    ensures r & TcRelative != 0 <==> criteria & TcRelative != 0 || "relative" in options
    ensures r & TcFixed != 0 <==> criteria & TcFixed != 0 || "fixed" in options
    ensures r & !TcKnown == criteria & !TcKnown
    decreases |options|
  {
    if |options| == 0 then criteria
    else
      InCons(options);
      AddOptionBits(criteria, options[0]);
      AddOptions(AddOption(criteria, options[0]), options[1..])
  }

  lemma InCons(options: seq<string>)
    requires |options| > 0
    ensures forall x :: x in options <==> x == options[0] || x in options[1..]
  {
    assert options == [options[0]] + options[1..];
  }

  /**
   * `read_termination_criteria`: the bit of every named criterion among
   * the comma separated fields of the property, and no other bit.
   */
  function ReadTerminationCriteria(property: string): (r: bv16)
    ensures r & TcAbsolute != 0 <==> "absolute" in Pieces(property, ',')
    ensures r & TcRelative != 0 <==> "relative" in Pieces(property, ',')
    ensures r & TcFixed != 0 <==> "fixed" in Pieces(property, ',')
    ensures r & !TcKnown == 0
  {
    AddOptions(0, Pieces(property, ','))
  }

  /** The criteria depend only on which of the three names are listed. */
  lemma SameNamesSameCriteria(p: string, q: string)
    requires forall name :: name in ["absolute", "relative", "fixed"] ==>
               (name in Pieces(p, ',') <==> name in Pieces(q, ','))
    ensures ReadTerminationCriteria(p) == ReadTerminationCriteria(q)
  {
    var a, b := ReadTerminationCriteria(p), ReadTerminationCriteria(q);
    assert "absolute" in ["absolute", "relative", "fixed"];
    assert "relative" in ["absolute", "relative", "fixed"];
    assert "fixed" in ["absolute", "relative", "fixed"];
    BitsDecide(a, b);
  }

  lemma BitsDecide(a: bv16, b: bv16)
    requires a & !TcKnown == 0 && b & !TcKnown == 0
    requires (a & TcAbsolute != 0) == (b & TcAbsolute != 0)
    requires (a & TcRelative != 0) == (b & TcRelative != 0)
    requires (a & TcFixed != 0) == (b & TcFixed != 0)
    ensures a == b
  {
  }

  // ------------------------------------------------------------------
  // Termination checks

  datatype OptimisationResult = NotComplete | Converged | Cancelled

  /** `unsigned int` counters wrap at 2^32. */
  const UintRange: nat := 0x1_0000_0000

  /** `maybe_check_iterations`: a fixed-iteration run has done its iterations. */
  predicate IterationsDone(criteria: bv16, iterations: nat, maxIterations: nat)
  {
    criteria & TcFixed != 0 && iterations >= maxIterations
  }

  /**
   * `check_termination_criteria`: cancellation first, then the iteration
   * count, then the smoothness test; the reason for stopping, or nothing.
   */
  function CheckTermination(criteria: bv16, iterations: nat, maxIterations: nat, cancelled: bool, converged: bool): (r: Option<OptimisationResult>)
    ensures r.None? <==> !cancelled && !IterationsDone(criteria, iterations, maxIterations) && !converged
    ensures r == Some(Cancelled) <==> cancelled
    ensures r.Some? ==> r.value != NotComplete
    ensures criteria & TcFixed == 0 ==> r == CheckTermination(0, iterations, maxIterations, cancelled, converged)
  {
    if cancelled then Some(Cancelled)
    else if IterationsDone(criteria, iterations, maxIterations) then Some(Converged)
    else if converged then Some(Converged)
    else None
  }

  // ------------------------------------------------------------------
  // The state machine

  datatype OptimisationState = Uninitialised | Initialised | Optimising | EndingOptimisation

  datatype Optimiser = Optimiser(
    state: OptimisationState,
    result: OptimisationResult,
    criteria: bv16,
    maxIterations: nat,
    iterations: nat,
    numFrames: nat)

  /** A freshly constructed optimiser: no graph, no criteria. */
  function NewOptimiser(): (o: Optimiser)
    ensures o.state == Uninitialised && o.result == NotComplete
    ensures o.criteria == 0 && o.iterations == 0
  {
    Optimiser(Uninitialised, NotComplete, 0, 0, 0, 0)
  }

  /**
   * `setup_termination_criteria`: the criteria from the property; the
   * iteration bound is read only when the fixed criterion is chosen.
   */
  function SetupTermination(o: Optimiser, property: string, maxIterations: nat): (r: Optimiser)
    requires maxIterations < UintRange
    ensures r.criteria == ReadTerminationCriteria(property)
    ensures r.maxIterations == if "fixed" in Pieces(property, ',') then maxIterations else o.maxIterations
    ensures r.state == o.state && r.iterations == o.iterations && r.result == o.result
  {
    var c := ReadTerminationCriteria(property);
    o.(criteria := c, maxIterations := if c & TcFixed == TcFixed then maxIterations else o.maxIterations)
  }

  /** `set_data`: a graph is loaded; the optimiser is ready to begin. */
  function SetData(o: Optimiser, g: SurfelGraph): (r: Optimiser)
    ensures r.state == Initialised
    ensures r.numFrames == NumFrames(g)
    ensures r.criteria == o.criteria && r.maxIterations == o.maxIterations && r.iterations == o.iterations
  {
    o.(state := Initialised, numFrames := NumFrames(g))
  }

  /** Between steps an optimiser is never part way through ending, and its counters fit. */
  predicate Settled(o: Optimiser)
  {
    o.state != EndingOptimisation && o.iterations < UintRange && o.maxIterations < UintRange
  }

  /** What the environment reports during one step. */
  datatype Checks = Checks(cancelled: bool, converged: bool)

  /** `optimise_begin`: the count restarts and optimisation is under way. */
  function Begin(o: Optimiser): (r: Optimiser)
    ensures r.state == Optimising && r.iterations == 0
  {
    o.(iterations := 0, state := Optimising)
  }

  /** `optimise_end`: ready for another run. */
  function End(o: Optimiser): (r: Optimiser)
    ensures r.state == Initialised
    ensures r.result == o.result && r.iterations == o.iterations
    ensures r.criteria == o.criteria && r.maxIterations == o.maxIterations && r.numFrames == o.numFrames
  {
    o.(state := Initialised)
  }

  /** One pass, counted, then the termination checks. */
  function Pass(o: Optimiser, checks: Checks): (r: Optimiser)
    requires o.state == Optimising
    ensures r.iterations == (o.iterations + 1) % UintRange
    ensures r.state == EndingOptimisation || r.state == Optimising
    ensures r.state == EndingOptimisation <==>
              CheckTermination(o.criteria, r.iterations, o.maxIterations, checks.cancelled, checks.converged).Some?
    ensures r.state == EndingOptimisation ==>
              r.result == CheckTermination(o.criteria, r.iterations, o.maxIterations, checks.cancelled, checks.converged).value
    ensures r.state == Optimising ==> r.result == o.result
    ensures r.criteria == o.criteria && r.maxIterations == o.maxIterations && r.numFrames == o.numFrames
  {
    var counted := o.(iterations := (o.iterations + 1) % UintRange);
    match CheckTermination(o.criteria, counted.iterations, o.maxIterations, checks.cancelled, checks.converged)
    case Some(why) => counted.(state := EndingOptimisation, result := why)
    case None => counted
  }

  /**
   * `optimise_do_one_step`: begins if needed, does one pass, and ends
   * optimisation when a termination check fires. Answers whether
   * optimisation has finished. The source asserts that the optimiser has
   * data; with the assertion compiled out, a step of an optimiser with no
   * data does nothing and answers false.
   */
  function Step(o: Optimiser, checks: Checks): (r: (Optimiser, bool))
    ensures o.state == Uninitialised ==> r == (o, false)
    ensures r.1 ==> r.0.state == Initialised
    ensures o.state != Uninitialised && !r.1 ==> r.0.state == Optimising
    ensures r.0.criteria == o.criteria && r.0.maxIterations == o.maxIterations
  {
    match o.state
    case Uninitialised => (o, false)
    case EndingOptimisation => (End(o), true)
    case _ =>
      var begun := if o.state == Initialised then Begin(o) else o;
      var passed := Pass(begun, checks);
      if passed.state == EndingOptimisation then (End(passed), true)
      else (passed, false)
  }

  /** Stepping keeps an optimiser settled. */
  lemma StepKeepsSettled(o: Optimiser, checks: Checks)
    requires Settled(o) && o.state != Uninitialised
    ensures Settled(Step(o, checks).0)
  {
  }

  /** A step finishes exactly when a check fires after the pass, and then says why. */
  lemma StepFinishes(o: Optimiser, checks: Checks)
    requires Settled(o) && o.state != Uninitialised
    ensures var n := if o.state == Initialised then 1 else (o.iterations + 1) % UintRange;
            var why := CheckTermination(o.criteria, n, o.maxIterations, checks.cancelled, checks.converged);
            var (o', done) := Step(o, checks);
            o'.iterations == n &&
            (done <==> why.Some?) &&
            (done ==> o'.result == why.value) &&
            (!done ==> o'.result == o.result)
  {
  }

  /** Steps with nothing cancelled and no convergence; the answers in order, and the optimiser after. */
  function QuietRun(o: Optimiser, n: nat): (r: (Optimiser, seq<bool>))
    ensures |r.1| == n
    decreases n
  {
    if n == 0 then (o, [])
    else
      var (o1, done) := Step(o, Checks(false, false));
      var (o2, rest) := QuietRun(o1, n - 1);
      (o2, [done] + rest)
  }

  /**
   * A fixed run of `m` iterations, `m` at least 1: started from
   * INITIALISED with the fixed criterion alone, quiet steps answer false
   * until the `m`-th answers true, with the result CONVERGED and the
   * optimiser INITIALISED again.
   */
  lemma FixedRun(o: Optimiser, m: nat)
    requires Settled(o) && o.state == Initialised
    requires o.criteria == TcFixed && o.maxIterations == m && 0 < m
    ensures var r := QuietRun(o, m);
            r.1 == seq(m - 1, _ => false) + [true] &&
            r.0.state == Initialised && r.0.result == Converged && r.0.iterations == m
  {
    var o1 := Step(o, Checks(false, false)).0;
    if m == 1 {
      assert QuietRun(o1, 0) == (o1, []);
    } else {
      assert o1.state == Optimising && o1.iterations == 1;
      FixedRunFrom(o1, m, m - 1);
    }
  }

  /** The rest of a fixed run, `k` steps before its end, with `m - k` iterations done. */
  lemma {:induction false} FixedRunFrom(o: Optimiser, m: nat, k: nat)
    requires Settled(o) && o.state == Optimising
    requires o.criteria == TcFixed && o.maxIterations == m && 0 < k <= m && o.iterations == m - k
    ensures var r := QuietRun(o, k);
            r.1 == seq(k - 1, _ => false) + [true] &&
            r.0.state == Initialised && r.0.result == Converged && r.0.iterations == m
    decreases k
  {
    var (o1, done) := Step(o, Checks(false, false));
    assert o1.iterations == m - k + 1;
    if k == 1 {
      assert done;
      assert QuietRun(o1, 0) == (o1, []);
    } else {
      assert !done && o1.state == Optimising;
      FixedRunFrom(o1, m, k - 1);
      var rest := QuietRun(o1, k - 1).1;
      assert [false] + rest == seq(k - 1, _ => false) + [true];
    }
  }

  // ------------------------------------------------------------------
  // get_common_frames

  /**
   * `std::set_intersection` of two ascending sequences: a merge walk that
   * keeps the values both hold.
   */
  method Intersection(a: seq<nat>, b: seq<nat>) returns (r: seq<nat>)
    requires forall i, j :: 0 <= i < j < |a| ==> a[i] < a[j]
    requires forall i, j :: 0 <= i < j < |b| ==> b[i] < b[j]
    ensures forall x :: x in r <==> x in a && x in b
    ensures forall i, j :: 0 <= i < j < |r| ==> r[i] < r[j]
  {
    var i, j := 0, 0;
    r := [];
    while i < |a| && j < |b|
      invariant 0 <= i <= |a| && 0 <= j <= |b|
      invariant forall x :: x in r <==> x in a[..i] && x in b[..j]
      invariant forall k :: 0 <= k < i && j < |b| ==> a[k] < b[j]
      invariant forall k :: 0 <= k < j && i < |a| ==> b[k] < a[i]
      invariant forall p, q :: 0 <= p < q < |r| ==> r[p] < r[q]
      invariant forall p :: 0 <= p < |r| && i < |a| ==> r[p] < a[i]
      decreases |a| - i + |b| - j
    {
      if a[i] < b[j] {
        i := i + 1;
      } else if b[j] < a[i] {
        j := j + 1;
      } else {
        r := r + [a[i]];
        i, j := i + 1, j + 1;
      }
    }
  }

  /**
   * `get_common_frames`: the frames of each surfel as an ordered set, then
   * their intersection. It is the ascending listing of the frames both
   * surfels are in, the same list a merge of the two surfels uses.
   */
  method GetCommonFrames(s1: Surfel, s2: Surfel) returns (r: seq<nat>)
    ensures r == MultiResolution.CommonFrames(s1, s2)
    ensures forall f :: f in r <==> f in s1.frames && f in s2.frames
  {
    var a := Ascending(MultiResolution.FrameSet(s1));
    var b := Ascending(MultiResolution.FrameSet(s2));
    r := Intersection(a, b);
    IncreasingUnique(r, MultiResolution.CommonFrames(s1, s2));
  }
}
