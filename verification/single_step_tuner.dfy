/** The earlier tuner: it restores once with the given vector, reads that
    run's profiling log, prints the first two wall-clock samples and their
    sum, and doubles the worker count of one stage; there is no search
    loop, no default vector and no early return for the legacy engine. */
module SingleStepTuner {
  import opened Wrappers
  import opened Ints
  import opened Text
  import opened TunerTypes
  import opened TuningLog
  import opened TuningStats
  import opened TuningSearch

  /** The argument checks of the earlier tuner, in source order. The tuning
      string is split as given: an empty one is a single empty part. */
  function ValidateOnce(c: Config): (r: Result<Setup, TuneError>)
    ensures c.versionToTest.Both? ==> r == Err(MultipleVersions(2))
    ensures !c.versionToTest.Both? && c.size.All? ==> r == Err(AllSizes)
    ensures r.Ok? <==> !c.versionToTest.Both? && !c.size.All? && |Split(c.tuning, ',')| == 4
    ensures !c.versionToTest.Both? && !c.size.All? && r.Err? ==> r.error == BadTuningCount(|Split(c.tuning, ',')|)
    ensures r.Ok? ==> [r.value.legacy] == ParseLegaciesToRun(c.versionToTest)
    ensures r.Ok? ==> Joined(r.value.start) == c.tuning
  {
    var legacies := ParseLegaciesToRun(c.versionToTest);
    if |legacies| != 1 then Err(MultipleVersions(|legacies|))
    else if c.size.All? then Err(AllSizes)
    else
      var parts := Split(c.tuning, ',');
      if |parts| != 4 then Err(BadTuningCount(|parts|))
      else
        JoinSplit(c.tuning, ',');
        Ok(Setup(legacies[0], FromParts(parts)))
  }

  /** The two tuners check their arguments alike, except that only the
      later one reads an empty tuning string as "1,1,1,1". */
  lemma ValidatorsAgree(c: Config)
    ensures c.tuning != "" ==> ValidateOnce(c) == Validate(c)
    ensures c.tuning == "" && !c.versionToTest.Both? && !c.size.All? ==>
              ValidateOnce(c) == Err(BadTuningCount(1)) && Validate(c).Ok?
  {
    assert Split("", ',') == [""];
  }

  /** The command line's default for the tuning option of the earlier
      tuner. */
  const DEFAULT_TUNING: String := "1,1,1,1"

  /** The default splits into four parts "1", so the earlier tuner accepts
      it, and starts from the vector the later one uses for an empty
      string. */
  lemma DefaultTuningAccepted(c: Config)
    requires c.tuning == DEFAULT_TUNING && !c.versionToTest.Both? && !c.size.All?
    ensures ValidateOnce(c).Ok?
    ensures Parts(ValidateOnce(c).value.start) == InitialTuning("")
  {
    var ones: seq<String> := ["1", "1", "1", "1"];
    assert Join(ones, ',') == DEFAULT_TUNING by {
      assert ones[1..][1..][1..] == ["1"];
      assert ones[1..][1..] == ["1", "1"];
      assert ones[1..] == ["1", "1", "1"];
    }
    SplitJoin(ones, ',');
  }

  /** The wall-clock figures the tuner prints: the first sample (setup), the
      second (restore) and the checked sum of all of them. */
  datatype Clock = Clock(setup: int, restore: int, total: int)

  /** `wall_clock[0]`, `wall_clock[1]` and `wall_clock.Sum()`: fewer than
      two samples throw, and so does a sum outside the 64-bit range. */
  function ReadClock(wc: seq<int>): (r: Result<Clock, TuneError>)
    ensures r.Ok? <==> |wc| >= 2 && CheckedSum(wc, 0).Some?
    ensures |wc| < 2 ==> r == Err(NoWallClock(|wc|))
    ensures |wc| >= 2 && CheckedSum(wc, 0).None? ==> r == Err(WallClockOverflow)
    ensures r.Ok? ==> r.value.total == Sum(wc) && IsInt64(r.value.total)
  {
    if |wc| < 2 then Err(NoWallClock(|wc|))
    else match CheckedSum(wc, 0)
      case None => Err(WallClockOverflow)
      case Some(total) => Ok(Clock(wc[0], wc[1], total))
  }

  /** With exactly the two samples one restore logs (durations are never
      negative), the earlier tuner's setup and restore figures are the later
      one's means. */
  lemma ClockMatchesMeans(wc: seq<int>)
    requires |wc| == 2 && ReadClock(wc).Ok? && 0 <= wc[0] && 0 <= wc[1]
    ensures WallClockMeans(wc) == Ok((ReadClock(wc).value.setup as real, ReadClock(wc).value.restore as real))
    ensures ReadClock(wc).value.total == wc[0] + wc[1]
  {
    assert Evens(wc) == [wc[0]] && Odds(wc) == [wc[1]];
    assert wc[1..] == [wc[1]] && wc[1..][1..] == [];
    assert CheckedSum(wc, 0) == CheckedSum([wc[1]], wc[0]);
    assert CheckedSum([wc[1]], wc[0]) == CheckedSum([], wc[0] + wc[1]);
    assert IsInt64(wc[0]) && IsInt64(wc[1]);
    AverageSingle(wc[0], NoWallClock(2));
    AverageSingle(wc[1], NoWallClock(2));
  }

  lemma CheckedSumSingle(x: int)
    ensures CheckedSum([x], 0) == (if IsInt64(x) then Some(x) else None)
  {
    assert [x][1..] == [];
  }

  lemma AverageSingle(x: int, e: TuneError)
    requires IsInt64(x)
    ensures Average([x], e) == Ok(x as real)
  {
    CheckedSumSingle(x);
    assert Sum([x]) == x by {
      assert [x][1..] == [];
    }
  }

  /** What the earlier tuner measured from its one log. */
  datatype Measurement = Measurement(stats: Stats, clock: Clock)

  /** The per-stage means (in stage order), then the wall-clock figures. */
  function MeasureOnce(samples: Samples): (r: Result<Measurement, TuneError>)
    ensures AllMeans(samples.stages).Err? ==> r == Err(AllMeans(samples.stages).error)
    ensures r.Ok? <==> AllMeans(samples.stages).Ok? && ReadClock(samples.wallClock).Ok?
    ensures r.Ok? ==> var st := r.value.stats;
              && st.means == AllMeans(samples.stages).value
              && st.totalWork == Total(st.means.work)
              && st.totalRead * 4.0 == Total(st.means.read)
              && r.value.clock == ReadClock(samples.wallClock).value
  {
    var means :- AllMeans(samples.stages);
    var clock :- ReadClock(samples.wallClock);
    Ok(Measurement(Stats(means, Total(means.work), Total(means.read) / 4.0, clock.setup as real, clock.restore as real), clock))
  }

  /** The result of one run of the earlier tuner: the vector it ran, what it
      measured, the stage it chose and the vector with that stage doubled. */
  datatype Tuned = Tuned(start: Vec, measured: Measurement, choice: Stage, next: Vec)

  /** The earlier tuner, given the lines of the log its one restore wrote. */
  function TuneOnce(c: Config, log: seq<String>): (r: Result<Tuned, TuneError>)
    ensures ValidateOnce(c).Err? ==> r == Err(ValidateOnce(c).error)
    ensures ValidateOnce(c).Ok? && ParseLog(General, log, EmptySamples).Err? ==> r == Err(ParseLog(General, log, EmptySamples).error)
    ensures r.Ok? ==> Joined(r.value.start) == c.tuning
    ensures r.Ok? ==> forall t :: t != r.value.choice ==> r.value.next.Get(t) == r.value.start.Get(t)
    ensures r.Ok? ==> IntParse(r.value.start.Get(r.value.choice)).Some?
    ensures r.Ok? ==> IntParse(r.value.next.Get(r.value.choice)) == Some(Wrap32(2 * IntParse(r.value.start.Get(r.value.choice)).value))
    ensures r.Ok? && r.value.measured.stats.totalRead > r.value.measured.stats.totalWork ==> r.value.choice == FileProcessor
    ensures r.Ok? && r.value.measured.stats.totalRead <= r.value.measured.stats.totalWork ==>
              r.value.choice != FileProcessor && IsLastMax(r.value.measured.stats.means.work, Stages[1..], r.value.choice)
  {
    var setup :- ValidateOnce(c);
    var samples :- ParseLog(General, log, EmptySamples);
    var m :- MeasureOnce(samples);
    var choice := SelectWip(m.stats);
    var next :- DoubleAt(setup.start, choice);
    DoubleAtValue(setup.start, choice);
    Ok(Tuned(setup.start, m, choice, next))
  }

  /** Reading a log line by line with the general duration parser gives
      what the exact parser of the later tuner gives, whenever the latter
      succeeds. */
  lemma {:induction false} ParseLogFormats(lines: seq<String>, acc: Samples)
    requires ParseLog(Exact, lines, acc).Ok?
    ensures ParseLog(General, lines, acc) == ParseLog(Exact, lines, acc)
    decreases |lines|
  {
    if lines != [] {
      var l := lines[0];
      if Contains(l, "took") {
        ExactImpliesGeneral(LastToken(l));
      }
      assert ParseLine(General, l) == ParseLine(Exact, l);
      ParseLogFormats(lines[1..], Record(acc, ParseLine(Exact, l).value));
    }
  }
}
