/** The adaptive concurrency search of the later tuner. Each outer step
    runs the pipeline `Iterations` times with the current vector, reads the
    samples out of the profiling log, and records the step's wall-clock
    total. If that total beats the best so far, the vector is remembered
    and the plateau counter is reset; otherwise the counter is incremented.
    Then the worker count of the bottleneck stage is doubled. The search
    ends when tuning is switched off, when the plateau counter reaches its
    limit, or when some worker count reaches twice the processor count. */
module TuningSearch {
  import opened Wrappers
  import opened Ints
  import opened Text
  import opened TunerTypes
  import opened TuningLog
  import opened TuningStats

  datatype Version = Both | New | Legacy | PreNewBackend

  datatype Size = All | Small | Medium | Large | Huge

  /** The command-line settings the search reads. */
  datatype Config = Config(autoTuningSteps: int, iterations: int, size: Size, tuning: String, versionToTest: Version)

  /** The `restore-legacy` values one benchmark run covers. */
  function ParseLegaciesToRun(v: Version): (r: seq<String>)
    ensures |r| == (if v.Both? then 2 else 1)
    ensures forall i, j :: 0 <= i < j < |r| ==> r[i] != r[j]
    ensures forall i :: 0 <= i < |r| ==> r[i] == "false" || r[i] == "true" || r[i] == "prenewbackend"
  {
    match v
    case Both => ["false", "true"]
    case New => ["false"]
    case Legacy => ["true"]
    case PreNewBackend => ["prenewbackend"]
  }

  /** Different versions run different engine selections. */
  lemma LegaciesDetermineVersion(a: Version, b: Version)
    requires ParseLegaciesToRun(a) == ParseLegaciesToRun(b)
    ensures a == b
  {
    assert ParseLegaciesToRun(a)[0] == ParseLegaciesToRun(b)[0];
  }

  /** The tuning strings the search starts from: the four defaults "1" when
      none were given, else the comma-separated parts. */
  function InitialTuning(tuning: String): seq<String> {
    if tuning == "" then ["1", "1", "1", "1"] else Split(tuning, ',')
  }

  datatype Setup = Setup(legacy: String, start: Vec)

  /** The argument checks at the top of the tuner, in source order. */
  function Validate(c: Config): (r: Result<Setup, TuneError>)
    ensures c.versionToTest.Both? ==> r == Err(MultipleVersions(2))
    ensures !c.versionToTest.Both? && c.size.All? ==> r == Err(AllSizes)
    ensures r.Ok? <==> !c.versionToTest.Both? && !c.size.All? && |InitialTuning(c.tuning)| == 4
    ensures r.Ok? ==> [r.value.legacy] == ParseLegaciesToRun(c.versionToTest)
    ensures r.Ok? ==> Parts(r.value.start) == InitialTuning(c.tuning)
    ensures r.Ok? && c.tuning != "" ==> Joined(r.value.start) == c.tuning && CountChar(c.tuning, ',') == 3
    ensures r.Ok? && c.tuning == "" ==> Joined(r.value.start) == "1,1,1,1"
  {
    var legacies := ParseLegaciesToRun(c.versionToTest);
    if |legacies| != 1 then Err(MultipleVersions(|legacies|))
    else if c.size.All? then Err(AllSizes)
    else
      var parts := InitialTuning(c.tuning);
      if |parts| != 4 then Err(BadTuningCount(|parts|))
      else
        var start := FromParts(parts);
        assert c.tuning != "" ==> Join(Split(c.tuning, ','), ',') == c.tuning && |Split(c.tuning, ',')| == CountChar(c.tuning, ',') + 1 by {
          if c.tuning != "" {
            JoinSplit(c.tuning, ',');
            SplitCount(c.tuning, ',');
          }
        }
        Ok(Setup(legacies[0], start))
  }

  /** `double.MaxValue`, the starting value of the best wall-clock total. */
  const DOUBLE_MAX: real := 179769313486231570814527423731704356798070567525844996598917476803157260780028538760589558632766878171540458953514382464234321326889464182768467546703537516986049910576551282076245490090389328944075868508455133942304583236903222948165808559332123348274797826204144723168738177180919299881250404026184124858368.0

  /** The pipeline under test: the lines the profiling log holds after run
      `i` of step `k` with vector `v`. The log is deleted at the start of a
      step only, so whatever earlier runs of the step left in it is part of
      these lines. */
  type Pipeline = (Vec, nat, nat) -> seq<String>

  /** The logs read after each run of one step. */
  function StepLogs(p: Pipeline, iterations: int, v: Vec, k: nat): (logs: seq<seq<String>>)
    ensures |logs| == if iterations > 0 then iterations else 0
    ensures forall i :: 0 <= i < |logs| ==> logs[i] == p(v, k, i)
  {
    var n: nat := if iterations > 0 then iterations else 0;
    seq(n, i requires 0 <= i < n => p(v, k, i))
  }

  /** One step's measurement: the samples of all its runs, aggregated. */
  function Evaluate(p: Pipeline, iterations: int, v: Vec, k: nat): Result<Stats, TuneError> {
    var samples :- StepSamples(Exact, StepLogs(p, iterations, v, k), EmptySamples);
    Aggregate(samples)
  }

  /** With no runs there is nothing to average: the first stage throws. */
  lemma NoRunsNoStats(p: Pipeline, iterations: int, v: Vec, k: nat)
    requires iterations <= 0
    ensures Evaluate(p, iterations, v, k) == Err(NoSamples(FileProcessor))
  {
    assert StepLogs(p, iterations, v, k) == [];
    var rs := StageResults(EmptySamples.stages);
    assert rs.Get(FileProcessor).Err?;
  }

  predicate Below(x: String, cap: int) {
    IntParse(x).Some? && IntParse(x).value < cap
  }

  /** `xs.All(x => int.Parse(x) < cap)`: the strings are parsed in order
      and the scan stops at the first one that is not below the cap, so
      only a string reached before that can throw. */
  function AllBelowFrom(xs: seq<String>, cap: int): Result<bool, TuneError> {
    if xs == [] then Ok(true)
    else match IntParse(xs[0])
      case None => Err(BadTuningValue(xs[0]))
      case Some(x) => if x < cap then AllBelowFrom(xs[1..], cap) else Ok(false)
  }

  /** The scan answers `true` exactly when every string parses to a value
      below the cap. */
  lemma {:induction false} AllBelowFromIff(xs: seq<String>, cap: int)
    ensures AllBelowFrom(xs, cap) == Ok(true) <==> forall i :: 0 <= i < |xs| ==> Below(xs[i], cap)
  {
    if xs != [] {
      if Below(xs[0], cap) {
        assert AllBelowFrom(xs, cap) == AllBelowFrom(xs[1..], cap);
        AllBelowFromIff(xs[1..], cap);
        BelowCons(xs, cap);
      } else {
        assert AllBelowFrom(xs, cap) != Ok(true);
      }
    }
  }

  /** Past a head below the cap, all strings are below it exactly when
      those of the tail are. */
  lemma BelowCons(xs: seq<String>, cap: int)
    requires xs != [] && Below(xs[0], cap)
    ensures (forall i :: 0 <= i < |xs| ==> Below(xs[i], cap))
        <==> (forall i :: 0 <= i < |xs[1..]| ==> Below(xs[1..][i], cap))
  {
    if forall i :: 0 <= i < |xs[1..]| ==> Below(xs[1..][i], cap) {
      forall i | 0 <= i < |xs| ensures Below(xs[i], cap) {
        if i > 0 { assert xs[i] == xs[1..][i - 1]; }
      }
    }
  }

  /** The loop's test on the vector, in stage order. */
  function AllBelow(v: Vec, cap: int): Result<bool, TuneError> {
    AllBelowFrom(Parts(v), cap)
  }

  /** Measures vector `v` as step `k`. */
  type Evaluator = (Vec, nat) -> Result<Stats, TuneError>

  /** What the search loop reads: how a step is measured (in the tuner,
      `Evaluate` with the configured pipeline and iteration count), the
      plateau limit, and `cap`, which is `Environment.ProcessorCount * 2`
      with 32-bit wrap-around. */
  datatype Env = Env(evaluate: Evaluator, autoSteps: int, cap: int)

  /** The search state. `history`, `totals` and `choices` record, per
      completed step, the vector evaluated, its wall-clock total and the
      stage doubled afterwards (the rows of the results table). */
  datatype Search = Search(tuning: Vec, minima: real, best: Vec, steps: int,
                           history: seq<Vec>, totals: seq<real>, choices: seq<Stage>)

  /** The state before the first step: `minima = double.MaxValue`, and the
      best vector is the starting one. */
  function Start(v: Vec): Search {
    Search(v, DOUBLE_MAX, v, 0, [], [], [])
  }

  /** The loop condition after a step. */
  function Continues(env: Env, st: Search): Result<bool, TuneError> {
    if env.autoSteps > 0 && st.steps < env.autoSteps then AllBelow(st.tuning, env.cap) else Ok(false)
  }

  datatype StepResult = Again(next: Search) | Done(last: Search) | StepFailed(error: TuneError) {
    /** The state a step that did not throw leaves behind. */
    function State(): Search
      requires !StepFailed?
    {
      if Again? then next else last
    }
  }

  /** Records one measured step: its vector, total and choice, and the new
      minimum or one more step without improvement. */
  function Observe(st: Search, total: real, choice: Stage): Search {
    var recorded := st.(history := st.history + [st.tuning], totals := st.totals + [total], choices := st.choices + [choice]);
    if total < st.minima then recorded.(minima := total, best := st.tuning, steps := 0)
    else recorded.(steps := st.steps + 1)
  }

  /** One pass of the do-while body followed by the loop condition. */
  function Step(env: Env, st: Search): StepResult {
    match env.evaluate(st.tuning, |st.history|)
    case Err(e) => StepFailed(e)
    case Ok(stats) =>
      var total := stats.WallClock();
      var choice := SelectRework(stats);
      var observed := Observe(st, total, choice);
      match DoubleAt(st.tuning, choice)
      case Err(e) => StepFailed(e)
      case Ok(next) =>
        var st' := observed.(tuning := next);
        match Continues(env, st')
        case Err(e) => StepFailed(e)
        case Ok(more) => if more then Again(st') else Done(st')
  }

  datatype Ending = Stopped(search: Search) | Failed(error: TuneError) | OutOfFuel

  /** A do-while loop over any step function, run for at most `fuel` steps. */
  function Run(step: Search -> StepResult, st: Search, fuel: nat): Ending
    decreases fuel
  {
    if fuel == 0 then OutOfFuel
    else match step(st)
      case StepFailed(e) => Failed(e)
      case Done(last) => Stopped(last)
      case Again(next) => Run(step, next, fuel - 1)
  }

  function StepOf(env: Env): Search -> StepResult {
    st => Step(env, st)
  }

  /** The tuner's loop. */
  function Session(env: Env, st: Search, fuel: nat): Ending {
    Run(StepOf(env), st, fuel)
  }

  datatype Outcome =
    | Finished(best: Vec, minima: real, search: Search)
    | LegacySkipped
    | Aborted(error: TuneError)
    | FuelExhausted

  function TunerEnv(c: Config, p: Pipeline, processorCount: int): Env {
    Env((v: Vec, k: nat) => Evaluate(p, c.iterations, v, k), c.autoTuningSteps, Wrap32(2 * processorCount))
  }

  /** The whole tuner: argument checks, the early return for the legacy
      engine (which writes no profiling data), then the search. */
  function RunTuning(c: Config, p: Pipeline, processorCount: int, fuel: nat): (r: Outcome)
    ensures Validate(c).Err? ==> r == Aborted(Validate(c).error)
    ensures r.LegacySkipped? <==> Validate(c).Ok? && c.versionToTest.Legacy? && c.iterations >= 1
    ensures r.Finished? ==> r.best in r.search.history && r.minima in r.search.totals
    ensures r.Finished? ==>
              forall k :: 1 <= k < |r.search.history| ==>
                AllBelow(r.search.history[k], Wrap32(2 * processorCount)) == Ok(true)
  {
    match Validate(c)
    case Err(e) => Aborted(e)
    case Ok(setup) =>
      if c.versionToTest.Legacy? && c.iterations >= 1 then LegacySkipped
      else
        var env := TunerEnv(c, p, processorCount);
        TunerMeasured(c, p, processorCount);
        SessionKeepsBest(env, Start(setup.start), fuel);
        SessionNeverEvaluatesCap(env, setup.start, fuel);
        match Session(env, Start(setup.start), fuel)
        case Stopped(st) =>
          SessionEvaluates(env, Start(setup.start), fuel);
          Finished(st.best, st.minima, st)
        case Failed(e) => Aborted(e)
        case OutOfFuel => FuelExhausted
  }

  /** Each step's record: the vector evaluated at step `k` measured
      `totals[k]`, the bottleneck rule chose `choices[k]` from that step's
      statistics, and doubling that component gave the next vector. */
  ghost predicate Trace(env: Env, st: Search) {
    && |st.totals| == |st.history| && |st.choices| == |st.history|
    && forall k :: 0 <= k < |st.history| ==> Traced(env, st, k)
  }

  /** Step `k` of the record agrees with the evaluator and the doubling. */
  ghost predicate Traced(env: Env, st: Search, k: nat)
    requires k < |st.history| == |st.totals| == |st.choices|
  {
    var e := env.evaluate(st.history[k], k);
    && e.Ok?
    && st.totals[k] == e.value.WallClock()
    && st.choices[k] == SelectRework(e.value)
    && DoubleAt(st.history[k], st.choices[k]) == Ok(if k + 1 < |st.history| then st.history[k + 1] else st.tuning)
  }

  /** `b` is `a` after one more evaluated step: the records grow by one
      entry, the vector evaluated being `a`'s current one. */
  ghost predicate Grows(a: Search, b: Search) {
    && |b.history| == |a.history| + 1
    && b.history[..|a.history|] == a.history
    && b.history[|a.history|] == a.tuning
    && |b.totals| == |a.totals| + 1
    && b.totals[..|a.totals|] == a.totals
  }

  /** Appending one correctly measured step keeps the record a trace. */
  lemma TraceExtend(env: Env, st: Search, r: Search, stats: Stats)
    requires Trace(env, st)
    requires env.evaluate(st.tuning, |st.history|) == Ok(stats)
    requires r.history == st.history + [st.tuning]
    requires r.totals == st.totals + [stats.WallClock()]
    requires r.choices == st.choices + [SelectRework(stats)]
    requires DoubleAt(st.tuning, SelectRework(stats)) == Ok(r.tuning)
    ensures Trace(env, r)
  {
    var n := |st.history|;
    assert |r.totals| == |r.choices| == |r.history| == n + 1;
    TracedAppended(env, st, r, stats);
    assert r.totals[..n] == st.totals && r.choices[..n] == st.choices;
    TracedPrefix(env, st, r);
    forall k | 0 <= k < |r.history| ensures Traced(env, r, k) {
      if k == n {
        assert Traced(env, r, n);
      }
    }
  }

  /** The steps recorded before an append stay traced. */
  lemma TracedPrefix(env: Env, st: Search, r: Search)
    requires Trace(env, st)
    requires r.history == st.history + [st.tuning]
    requires |r.totals| == |r.choices| == |r.history|
    requires r.totals[..|st.totals|] == st.totals && r.choices[..|st.choices|] == st.choices
    ensures forall k :: 0 <= k < |st.history| ==> Traced(env, r, k)
  {
    forall k | 0 <= k < |st.history| ensures Traced(env, r, k) {
      TracedKept(env, st, r, k);
    }
  }

  /** The appended step is traced: it measured the vector it records, and
      doubling its choice gave the next one. */
  lemma TracedAppended(env: Env, st: Search, r: Search, stats: Stats)
    requires |st.totals| == |st.history| && |st.choices| == |st.history|
    requires env.evaluate(st.tuning, |st.history|) == Ok(stats)
    requires r.history == st.history + [st.tuning]
    requires r.totals == st.totals + [stats.WallClock()]
    requires r.choices == st.choices + [SelectRework(stats)]
    requires DoubleAt(st.tuning, SelectRework(stats)) == Ok(r.tuning)
    ensures Traced(env, r, |st.history|)
  {
    var k := |st.history|;
    assert r.history[k] == st.tuning && r.totals[k] == stats.WallClock() && r.choices[k] == SelectRework(stats);
  }

  /** The steps already recorded stay traced once a step is appended. */
  lemma TracedKept(env: Env, st: Search, r: Search, k: nat)
    requires |st.totals| == |st.history| && |st.choices| == |st.history|
    requires k < |st.history| && Traced(env, st, k)
    requires r.history == st.history + [st.tuning]
    requires |r.totals| == |r.choices| == |r.history|
    requires r.totals[..|st.totals|] == st.totals && r.choices[..|st.choices|] == st.choices
    ensures Traced(env, r, k)
  {
    assert r.history[k] == st.history[k];
    assert r.totals[k] == r.totals[..|st.totals|][k];
    assert r.choices[k] == r.choices[..|st.choices|][k];
    assert (if k + 1 < |r.history| then r.history[k + 1] else r.tuning)
        == (if k + 1 < |st.history| then st.history[k + 1] else st.tuning);
  }

  lemma StepTrace(env: Env, st: Search)
    requires Trace(env, st)
    requires !Step(env, st).StepFailed?
    ensures Trace(env, Step(env, st).State()) && Grows(st, Step(env, st).State())
  {
    var r := Step(env, st).State();
    var stats := env.evaluate(st.tuning, |st.history|).value;
    TraceExtend(env, st, r, stats);
    assert r.history[..|st.history|] == st.history;
  }

  lemma {:induction false} RunTrace(env: Env, step: Search -> StepResult, st: Search, fuel: nat)
    requires forall s :: Trace(env, s) && !step(s).StepFailed? ==> Trace(env, step(s).State()) && Grows(s, step(s).State())
    requires Trace(env, st)
    requires Run(step, st, fuel).Stopped?
    ensures var out := Run(step, st, fuel).search;
            Trace(env, out) && |out.history| > |st.history|
            && out.history[..|st.history|] == st.history && out.history[|st.history|] == st.tuning
            && out.totals[..|st.totals|] == st.totals
    decreases fuel
  {
    var r := step(st);
    if r.Again? {
      RunTrace(env, step, r.next, fuel - 1);
      var out := Run(step, r.next, fuel - 1).search;
      assert out.history[..|st.history|] == out.history[..|r.next.history|][..|st.history|];
      assert out.history[|st.history|] == out.history[..|r.next.history|][|st.history|];
      assert out.totals[..|st.totals|] == out.totals[..|r.next.totals|][..|st.totals|];
    }
  }

  /** A session that stops has evaluated at least one more vector; the
      record it started from is kept as a prefix, and the vector it was
      given is the first one it evaluated. */
  lemma SessionEvaluates(env: Env, st: Search, fuel: nat)
    requires Trace(env, st)
    requires Session(env, st, fuel).Stopped?
    ensures var out := Session(env, st, fuel).search;
            && Trace(env, out)
            && |out.history| > |st.history|
            && out.history[..|st.history|] == st.history
            && out.totals[..|st.totals|] == st.totals
            && out.history[|st.history|] == st.tuning
  {
    forall s | Trace(env, s) && !StepOf(env)(s).StepFailed?
      ensures Trace(env, StepOf(env)(s).State()) && Grows(s, StepOf(env)(s).State())
    {
      StepTrace(env, s);
    }
    RunTrace(env, StepOf(env), st, fuel);
  }

  /** Every vector evaluated after the first passed the loop test: each of
      its components parses and is below the cap. */
  ghost predicate EvaluatedBelowCap(env: Env, st: Search) {
    forall k :: 1 <= k < |st.history| ==> AllBelow(st.history[k], env.cap) == Ok(true)
  }

  /** The state at the top of the loop body: once a step has run, the
      vector about to be evaluated passed the loop test as well. */
  ghost predicate CapReady(env: Env, st: Search) {
    && EvaluatedBelowCap(env, st)
    && (st.history != [] ==> AllBelow(st.tuning, env.cap) == Ok(true))
  }

  /** One iteration evaluates only a vector the loop test admitted, and
      continues only with a vector that passes it. */
  lemma StepBelowCap(env: Env, st: Search)
    requires CapReady(env, st)
    requires !Step(env, st).StepFailed?
    ensures EvaluatedBelowCap(env, Step(env, st).State())
    ensures Step(env, st).Again? ==> CapReady(env, Step(env, st).next)
  {
    var r := Step(env, st).State();
    assert r.history == st.history + [st.tuning];
    forall k | 1 <= k < |r.history| ensures AllBelow(r.history[k], env.cap) == Ok(true) {
      if k < |st.history| {
        assert r.history[k] == st.history[k];
      }
    }
  }

  /** A do-while run whose every step establishes `post` from `inv`, and
      `inv` again when it continues, ends in a state satisfying `post`. */
  lemma {:induction false} RunEstablishes(step: Search -> StepResult, inv: Search -> bool, post: Search -> bool,
                                          st: Search, fuel: nat)
    requires forall s :: inv(s) && !step(s).StepFailed? ==> post(step(s).State()) && (step(s).Again? ==> inv(step(s).next))
    requires inv(st)
    ensures Run(step, st, fuel).Stopped? ==> post(Run(step, st, fuel).search)
    decreases fuel
  {
    if fuel > 0 && step(st).Again? {
      RunEstablishes(step, inv, post, step(st).next, fuel - 1);
    }
  }

  /** A vector that reaches the cap is never evaluated: the first vector
      is measured unconditionally (the loop is a do-while), and every later
      one only after the loop test found all its components below
      `2 * ProcessorCount`. */
  lemma SessionNeverEvaluatesCap(env: Env, v: Vec, fuel: nat)
    ensures var e := Session(env, Start(v), fuel);
            e.Stopped? ==>
              forall k :: 1 <= k < |e.search.history| ==>
                AllBelow(e.search.history[k], env.cap) == Ok(true)
  {
    forall s | CapReady(env, s) && !StepOf(env)(s).StepFailed?
      ensures EvaluatedBelowCap(env, StepOf(env)(s).State())
              && (StepOf(env)(s).Again? ==> CapReady(env, StepOf(env)(s).next))
    {
      StepBelowCap(env, s);
    }
    RunEstablishes(StepOf(env), s => CapReady(env, s), s => EvaluatedBelowCap(env, s), Start(v), fuel);
  }

  /** With automatic tuning off (`AutoTuningSteps <= 0`) exactly one vector
      is evaluated. */
  lemma SingleStepWhenTuningOff(env: Env, v: Vec, fuel: nat)
    requires env.autoSteps <= 0 && fuel >= 1
    ensures Session(env, Start(v), fuel).Stopped? || Session(env, Start(v), fuel).Failed?
    ensures Session(env, Start(v), fuel).Stopped? ==> Session(env, Start(v), fuel).search.history == [v]
  {
    assert !Step(env, Start(v)).Again?;
  }

  /** Position of the first smallest total. */
  function FirstMin(xs: seq<real>): (b: nat)
    requires |xs| > 0
    ensures b < |xs|
    ensures forall j :: 0 <= j < |xs| ==> xs[b] <= xs[j]
    ensures forall j :: 0 <= j < b ==> xs[j] > xs[b]
  {
    if |xs| == 1 then 0
    else
      var m := FirstMin(xs[..|xs| - 1]);
      assert forall j :: 0 <= j < |xs| - 1 ==> xs[..|xs| - 1][j] == xs[j];
      if xs[|xs| - 1] < xs[m] then |xs| - 1 else m
  }

  /** The best-so-far bookkeeping: `minima` is the smallest total seen (or
      `double.MaxValue` before any), `best` is the vector of the first step
      that reached it, and `steps` counts the steps since then. */
  ghost predicate BestKept(st: Search) {
    && |st.totals| == |st.history|
    && (forall k :: 0 <= k < |st.totals| ==> st.totals[k] < DOUBLE_MAX)
    && (st.totals == [] ==> st.minima == DOUBLE_MAX && st.steps == 0)
    && (st.totals != [] ==>
          var b := FirstMin(st.totals);
          st.minima == st.totals[b] && st.best == st.history[b] && st.steps == |st.totals| - 1 - b)
  }

  /** Every wall-clock total the evaluator reports is below
      `double.MaxValue`, so the first step always improves on the start. */
  ghost predicate Measured(env: Env) {
    forall v, k :: env.evaluate(v, k).Ok? ==> env.evaluate(v, k).value.WallClock() < DOUBLE_MAX
  }

  /** Totals measured from a profiling log are means of 64-bit sums, far
      below `double.MaxValue`. */
  lemma TunerMeasured(c: Config, p: Pipeline, processorCount: int)
    ensures Measured(TunerEnv(c, p, processorCount))
  {
    var env := TunerEnv(c, p, processorCount);
    forall v, k | env.evaluate(v, k).Ok?
      ensures env.evaluate(v, k).value.WallClock() < DOUBLE_MAX
    {
      assert env.evaluate(v, k) == Evaluate(p, c.iterations, v, k);
    }
  }

  lemma FirstMinExtend(xs: seq<real>, x: real)
    requires |xs| > 0
    ensures var b := FirstMin(xs);
            FirstMin(xs + [x]) == if x < xs[b] then |xs| else b
  {
    assert (xs + [x])[..|xs|] == xs;
  }

  lemma StepKeepsBest(env: Env, st: Search)
    requires Measured(env) && BestKept(st)
    requires !Step(env, st).StepFailed?
    ensures BestKept(Step(env, st).State())
  {
    var stats := env.evaluate(st.tuning, |st.history|).value;
    var total := stats.WallClock();
    var observed := Observe(st, total, SelectRework(stats));
    ObserveKeepsBest(st, total, SelectRework(stats));
    assert Step(env, st).State() == observed.(tuning := Step(env, st).State().tuning);
  }

  /** Recording a measured step keeps the best vector, the minimum and the
      plateau counter in step with the totals. */
  lemma ObserveKeepsBest(st: Search, total: real, choice: Stage)
    requires BestKept(st) && total < DOUBLE_MAX
    ensures BestKept(Observe(st, total, choice))
  {
    var r := Observe(st, total, choice);
    BelowAppend(st.totals, total, DOUBLE_MAX);
    if st.totals != [] {
      ObserveLater(st, total, choice);
    } else {
      assert r.totals == [total];
    }
  }

  lemma BelowAppend(xs: seq<real>, x: real, bound: real)
    requires forall k :: 0 <= k < |xs| ==> xs[k] < bound
    requires x < bound
    ensures forall k :: 0 <= k < |xs + [x]| ==> (xs + [x])[k] < bound
  {
    forall k | 0 <= k < |xs + [x]| ensures (xs + [x])[k] < bound {
      if k < |xs| { assert (xs + [x])[k] == xs[k]; }
    }
  }

  /** After the first step, the new first minimum is the new total exactly
      when it undercuts the old minimum. */
  lemma ObserveLater(st: Search, total: real, choice: Stage)
    requires BestKept(st) && st.totals != []
    ensures var r := Observe(st, total, choice);
      var b := FirstMin(r.totals);
      r.minima == r.totals[b] && r.best == r.history[b] && r.steps == |r.totals| - 1 - b
  {
    var r := Observe(st, total, choice);
    var b := FirstMin(st.totals);
    FirstMinExtend(st.totals, total);
    assert r.totals == st.totals + [total];
    assert r.history == st.history + [st.tuning];
    assert r.history[b] == st.history[b];
    assert r.totals[b] == st.totals[b];
  }

  lemma {:induction false} RunKeepsBest(step: Search -> StepResult, st: Search, fuel: nat)
    requires forall s :: BestKept(s) && !step(s).StepFailed? ==> BestKept(step(s).State())
    requires BestKept(st)
    ensures Run(step, st, fuel).Stopped? ==> BestKept(Run(step, st, fuel).search)
    decreases fuel
  {
    if fuel > 0 && step(st).Again? {
      RunKeepsBest(step, step(st).next, fuel - 1);
    }
  }

  /** The best vector and minimum reported are those of the first step with
      the smallest wall-clock total, and the plateau counter is the number
      of steps after it. */
  lemma SessionKeepsBest(env: Env, st: Search, fuel: nat)
    requires Measured(env) && BestKept(st)
    ensures Session(env, st, fuel).Stopped? ==> BestKept(Session(env, st, fuel).search)
  {
    forall s | BestKept(s) && !StepOf(env)(s).StepFailed?
      ensures BestKept(StepOf(env)(s).State())
    {
      StepKeepsBest(env, s);
    }
    RunKeepsBest(StepOf(env), st, fuel);
  }

  /** How often a positive worker count can be doubled before it reaches the
      cap. */
  function Doublings(x: int, cap: int): nat
    decreases cap - x
  {
    if x <= 0 || x >= cap then 0 else 1 + Doublings(2 * x, cap)
  }

  /** Worker counts in the range where doubling neither wraps nor stalls. */
  ghost predicate Positive(v: Vec) {
    forall s :: IntParse(v.Get(s)).Some? && 1 <= IntParse(v.Get(s)).value < 0x4000_0000
  }

  /** The doublings left in the count of stage `s`. */
  ghost function Left(v: Vec, cap: int, s: Stage): nat
    requires Positive(v)
  {
    Doublings(IntParse(v.Get(s)).value, cap)
  }

  /** The bound on the number of steps: one, plus the doublings left in
      each component (none when some count is out of range). */
  ghost function Budget(v: Vec, cap: int): nat {
    if !Positive(v) then 0
    else 1 + Left(v, cap, FileProcessor) + Left(v, cap, VolumeDownloader)
           + Left(v, cap, VolumeDecryptor) + Left(v, cap, VolumeDecompressor)
  }

  lemma LeftShrinks(v: Vec, w: Vec, s: Stage, cap: int)
    requires Positive(v) && Positive(w) && cap <= 0x4000_0000
    requires DoubleAt(v, s) == Ok(w)
    requires Below(w.Get(s), cap)
    ensures Left(w, cap, s) == Left(v, cap, s) - 1
    ensures forall t :: t != s ==> Left(w, cap, t) == Left(v, cap, t)
  {
    var x := IntParse(v.Get(s)).value;
    DoubleAtValue(v, s);
    assert Doublings(x, cap) == 1 + Doublings(2 * x, cap);
  }

  lemma BudgetShrinks(v: Vec, w: Vec, s: Stage, cap: int)
    requires Positive(v) && cap <= 0x4000_0000
    requires DoubleAt(v, s) == Ok(w)
    requires forall t :: Below(w.Get(t), cap)
    ensures Positive(w)
    ensures Budget(w, cap) == Budget(v, cap) - 1
  {
    DoubledStaysPositive(v, w, s, cap);
    LeftShrinks(v, w, s, cap);
  }

  /** Doubling a count below the cap keeps every count in range. */
  lemma DoubledStaysPositive(v: Vec, w: Vec, s: Stage, cap: int)
    requires Positive(v) && cap <= 0x4000_0000
    requires DoubleAt(v, s) == Ok(w)
    requires Below(w.Get(s), cap)
    ensures Positive(w)
  {
    DoubleAtValue(v, s);
    forall t ensures IntParse(w.Get(t)).Some? && 1 <= IntParse(w.Get(t)).value < 0x4000_0000 {
      if t != s {
        assert w.Get(t) == v.Get(t);
      }
    }
  }

  /** Why `Positive` stops below 2^30: doubling a count of 2^30 or more
      wraps it to a negative `int`, which passes the `< cap` test for any
      positive cap, so the cap no longer ends the loop; and a count of 0
      doubles to 0 for ever. */
  lemma DoublingOutOfRange(v: Vec, s: Stage, cap: int)
    requires DoubleAt(v, s).Ok? && IntParse(v.Get(s)).Some?
    ensures var x, y := IntParse(v.Get(s)).value, IntParse(DoubleAt(v, s).value.Get(s));
      && (x >= 0x4000_0000 ==> y.Some? && y.value < 0 && (cap > 0 ==> Below(DoubleAt(v, s).value.Get(s), cap)))
      && (x == 0 ==> y == Some(0))
  {
    DoubleAtValue(v, s);
    var x := IntParse(v.Get(s)).value;
    if x >= 0x4000_0000 {
      WrapDoubleHigh(x);
    }
  }

  /** A step that goes on again has used up one doubling. */
  lemma StepBudget(env: Env, st: Search)
    requires Positive(st.tuning) && env.cap <= 0x4000_0000
    requires Step(env, st).Again?
    ensures Positive(Step(env, st).next.tuning)
    ensures Budget(Step(env, st).next.tuning, env.cap) == Budget(st.tuning, env.cap) - 1
  {
    var next := Step(env, st).next;
    var stats := env.evaluate(st.tuning, |st.history|).value;
    var s := SelectRework(stats);
    assert DoubleAt(st.tuning, s) == Ok(next.tuning);
    assert AllBelow(next.tuning, env.cap) == Ok(true);
    AllBelowFromIff(Parts(next.tuning), env.cap);
    forall t ensures Below(next.tuning.Get(t), env.cap) {
      assert Parts(next.tuning)[Index(t)] == next.tuning.Get(t);
    }
    BudgetShrinks(st.tuning, next.tuning, s, env.cap);
  }

  /** A step that does not throw records exactly one more vector. */
  lemma StepRecords(env: Env, st: Search)
    requires !Step(env, st).StepFailed?
    ensures |Step(env, st).State().history| == |st.history| + 1
  {
  }

  lemma {:induction false} RunTerminates(step: Search -> StepResult, budget: Search -> nat, st: Search, fuel: nat)
    requires forall s :: budget(s) >= 1 && step(s).Again? ==> budget(step(s).next) >= 1 && budget(step(s).next) == budget(s) - 1
    requires forall s :: !step(s).StepFailed? ==> |step(s).State().history| == |s.history| + 1
    requires budget(st) >= 1 && fuel >= budget(st)
    ensures !Run(step, st, fuel).OutOfFuel?
    ensures Run(step, st, fuel).Stopped? ==> |Run(step, st, fuel).search.history| <= |st.history| + budget(st)
    decreases fuel
  {
    if step(st).Again? {
      RunTerminates(step, budget, step(st).next, fuel - 1);
    }
  }

  /** The search terminates: when every worker count starts in
      [1, 2^30) and twice the processor count is at most 2^30, the loop runs
      at most `Budget` steps, however the measurements come out. */
  lemma SessionTerminates(env: Env, st: Search, fuel: nat)
    requires Positive(st.tuning) && env.cap <= 0x4000_0000
    requires fuel >= Budget(st.tuning, env.cap)
    ensures !Session(env, st, fuel).OutOfFuel?
    ensures Session(env, st, fuel).Stopped? ==>
              |Session(env, st, fuel).search.history| <= |st.history| + Budget(st.tuning, env.cap)
  {
    var budget := (s: Search) => Budget(s.tuning, env.cap);
    forall s: Search | budget(s) >= 1 && StepOf(env)(s).Again?
      ensures budget(StepOf(env)(s).next) >= 1 && budget(StepOf(env)(s).next) == budget(s) - 1
    {
      StepBudget(env, s);
    }
    forall s | !StepOf(env)(s).StepFailed?
      ensures |StepOf(env)(s).State().history| == |s.history| + 1
    {
      StepRecords(env, s);
    }
    RunTerminates(StepOf(env), budget, st, fuel);
  }

  /** The loop's exit test holds of a state: tuning is off, the plateau
      limit is reached, or some worker count is not below the cap. */
  predicate Halts(env: Env, st: Search) {
    env.autoSteps <= 0 || st.steps >= env.autoSteps || AllBelow(st.tuning, env.cap) == Ok(false)
  }

  lemma StepHalts(env: Env, st: Search)
    requires Step(env, st).Done?
    ensures Halts(env, Step(env, st).last)
  {
  }

  lemma {:induction false} RunHalts(env: Env, step: Search -> StepResult, st: Search, fuel: nat)
    requires forall s :: step(s).Done? ==> Halts(env, step(s).last)
    requires Run(step, st, fuel).Stopped?
    ensures Halts(env, Run(step, st, fuel).search)
    decreases fuel
  {
    if step(st).Again? {
      RunHalts(env, step, step(st).next, fuel - 1);
    }
  }

  /** Why a session stopped: tuning is off, the plateau limit was reached,
      or some worker count is not below the cap. */
  lemma StopReason(env: Env, st: Search, fuel: nat)
    requires Session(env, st, fuel).Stopped?
    ensures Halts(env, Session(env, st, fuel).search)
  {
    forall s | StepOf(env)(s).Done? ensures Halts(env, StepOf(env)(s).last) {
      StepHalts(env, s);
    }
    RunHalts(env, StepOf(env), st, fuel);
  }
}
