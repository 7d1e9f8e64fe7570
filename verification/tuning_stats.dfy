/** Turning one step's samples into the figures the search acts on: the
    per-stage mean work and read times, their totals, the mean setup and
    restore wall-clock times, and the stage whose worker count is doubled
    next. */
module TuningStats {
  import opened Wrappers
  import opened Ints
  import opened Text
  import opened TunerTypes
  import opened TuningLog

  /** LINQ's `Sum` over `long`s: a checked running total that throws as soon
      as it leaves the 64-bit range. */
  function CheckedSum(xs: seq<int>, acc: int): (r: Option<int>)
    ensures r.Some? ==> r.value == acc + Sum(xs) && IsInt64(r.value)
  {
    if xs == [] then (if IsInt64(acc) then Some(acc) else None)
    else if !IsInt64(acc + xs[0]) then None
    else CheckedSum(xs[1..], acc + xs[0])
  }

  /** For non-negative values the running total only grows, so the checked
      sum fails exactly when the final total is out of range. */
  lemma {:induction false} CheckedSumNonNegative(xs: seq<int>, acc: int)
    requires 0 <= acc
    requires forall i :: 0 <= i < |xs| ==> xs[i] >= 0
    ensures CheckedSum(xs, acc).Some? <==> acc + Sum(xs) <= INT64_MAX
  {
    if xs != [] {
      assert forall i :: 0 <= i < |xs[1..]| ==> xs[1..][i] == xs[i + 1];
      SumNonNegative(xs[1..]);
      CheckedSumNonNegative(xs[1..], acc + xs[0]);
    }
  }

  /** `Enumerable.Average` over `long`s: throws on an empty sequence (the
      given error) or when the checked sum overflows. */
  function Average(xs: seq<int>, empty: TuneError): (r: Result<real, TuneError>)
    ensures xs == [] ==> r == Err(empty)
    ensures r.Ok? <==> xs != [] && CheckedSum(xs, 0).Some?
    ensures r.Ok? ==> r.value * (|xs| as real) == Sum(xs) as real
    ensures r.Ok? ==> INT64_MIN as real <= r.value <= INT64_MAX as real
  {
    if xs == [] then Err(empty)
    else match CheckedSum(xs, 0)
      case None => Err(AverageOverflow)
      case Some(total) =>
        var m := total as real / |xs| as real;
        MeanBounded(total, |xs|);
        Ok(m)
  }

  lemma MeanBounded(total: int, n: nat)
    requires n >= 1 && IsInt64(total)
    ensures INT64_MIN as real <= total as real / n as real <= INT64_MAX as real
  {
    var m := total as real / n as real;
    assert m * n as real == total as real;
    if total >= 0 {
      assert m >= 0.0;
      assert m <= m * n as real;
    } else {
      assert m < 0.0;
      assert m * n as real <= m;
    }
  }

  /** The mean lies between any lower and upper bound of the values. */
  lemma MeanWithin(xs: seq<int>, lo: int, hi: int, e: TuneError)
    requires Average(xs, e).Ok?
    requires forall i :: 0 <= i < |xs| ==> lo <= xs[i] <= hi
    ensures lo as real <= Average(xs, e).value <= hi as real
  {
    var m := Average(xs, e).value;
    var n := |xs| as real;
    var total := Sum(xs) as real;
    SumBetween(xs, lo, hi);
    ProductBoundsAsReal(|xs|, lo, Sum(xs), hi);
    ScaleBounds(lo as real, m, hi as real, n, total);
  }

  lemma ScaleBounds(lo: real, m: real, hi: real, n: real, total: real)
    requires n > 0.0 && m * n == total && n * lo <= total <= n * hi
    ensures lo <= m <= hi
  {
    assert (m - lo) * n >= 0.0;
    assert (hi - m) * n >= 0.0;
  }

  /** `Where((x, i) => i % 2 == 0)`: the samples at even positions. */
  function Evens(xs: seq<int>): (r: seq<int>)
    ensures |r| == (|xs| + 1) / 2
    ensures forall k :: 0 <= k < |r| ==> r[k] == xs[2 * k]
    decreases |xs|
  {
    if xs == [] then [] else [xs[0]] + Odds(xs[1..])
  }

  /** `Where((x, i) => i % 2 == 1)`: the samples at odd positions. */
  function Odds(xs: seq<int>): (r: seq<int>)
    ensures |r| == |xs| / 2
    ensures forall k :: 0 <= k < |r| ==> r[k] == xs[2 * k + 1]
    decreases |xs|
  {
    if xs == [] then [] else Evens(xs[1..])
  }

  /** The even and odd positions together hold every sample exactly once. */
  lemma {:induction false} EvensOddsSum(xs: seq<int>)
    ensures Sum(Evens(xs)) + Sum(Odds(xs)) == Sum(xs)
    decreases |xs|
  {
    if xs != [] {
      EvensOddsSum(xs[1..]);
      assert [xs[0]] + Odds(xs[1..]) == Evens(xs);
      SumConcat([xs[0]], Odds(xs[1..]));
    }
  }

  /** The per-stage means of one step. */
  datatype Means = Means(work: PerStage<real>, read: PerStage<real>)

  /** One stage's mean work and mean read time (`times.Average()` first,
      then `reads.Average()`). */
  function StageMeans(ss: StageSamples, s: Stage): (r: Result<(real, real), TuneError>)
    ensures (ss.work == [] || ss.read == []) ==> r.Err?
    ensures ss.work == [] ==> r == Err(NoSamples(s))
    ensures r.Ok? ==> r.value.0 * (|ss.work| as real) == Sum(ss.work) as real
    ensures r.Ok? ==> r.value.1 * (|ss.read| as real) == Sum(ss.read) as real
  {
    var w :- Average(ss.work, NoSamples(s));
    var rd :- Average(ss.read, NoSamples(s));
    Ok((w, rd))
  }

  /** The first failure among four per-stage results, in stage order; or
      all four values when none failed. */
  function FirstFailure<T>(rs: PerStage<Result<T, TuneError>>): (r: Result<PerStage<T>, TuneError>)
    ensures r.Ok? <==> forall s :: rs.Get(s).Ok?
    ensures r.Ok? ==> forall s :: r.value.Get(s) == rs.Get(s).value
    ensures forall s {:trigger rs.Get(s)} ::
              (rs.Get(s).Err? && forall t :: Index(t) < Index(s) ==> rs.Get(t).Ok?) ==> r == Err(rs.Get(s).error)
  {
    assert rs.Get(FileProcessor) == rs.fileProcessor && rs.Get(VolumeDownloader) == rs.volumeDownloader;
    assert rs.Get(VolumeDecryptor) == rs.volumeDecryptor && rs.Get(VolumeDecompressor) == rs.volumeDecompressor;
    if rs.fileProcessor.Err? then Err(rs.fileProcessor.error)
    else if rs.volumeDownloader.Err? then Err(rs.volumeDownloader.error)
    else if rs.volumeDecryptor.Err? then Err(rs.volumeDecryptor.error)
    else if rs.volumeDecompressor.Err? then Err(rs.volumeDecompressor.error)
    else Ok(PerStage(rs.fileProcessor.value, rs.volumeDownloader.value, rs.volumeDecryptor.value, rs.volumeDecompressor.value))
  }

  /** Every stage's mean work and read time, computed in stage order. */
  function StageResults(stages: PerStage<StageSamples>): (rs: PerStage<Result<(real, real), TuneError>>)
    ensures forall s :: rs.Get(s) == StageMeans(stages.Get(s), s)
  {
    PerStage(StageMeans(stages.fileProcessor, FileProcessor),
             StageMeans(stages.volumeDownloader, VolumeDownloader),
             StageMeans(stages.volumeDecryptor, VolumeDecryptor),
             StageMeans(stages.volumeDecompressor, VolumeDecompressor))
  }

  /** The loop over the four stages in dictionary order; the first stage
      whose lists cannot be averaged throws. */
  function AllMeans(stages: PerStage<StageSamples>): (r: Result<Means, TuneError>)
    ensures var rs := StageResults(stages);
            && (r.Ok? <==> FirstFailure(rs).Ok?)
            && (r.Err? ==> r.error == FirstFailure(rs).error)
            && (r.Ok? ==> forall s :: (r.value.work.Get(s), r.value.read.Get(s)) == rs.Get(s).value)
  {
    var p :- FirstFailure(StageResults(stages));
    Ok(Means(PerStage(p.fileProcessor.0, p.volumeDownloader.0, p.volumeDecryptor.0, p.volumeDecompressor.0),
             PerStage(p.fileProcessor.1, p.volumeDownloader.1, p.volumeDecryptor.1, p.volumeDecompressor.1)))
  }

  /** The sum of a per-stage figure over the four stages, in order. */
  function Total(x: PerStage<real>): real {
    x.fileProcessor + x.volumeDownloader + x.volumeDecryptor + x.volumeDecompressor
  }

  /** What one step of the search measured. */
  datatype Stats = Stats(means: Means, totalWork: real, totalRead: real, setup: real, restore: real) {
    /** `wall_clock_setup + wall_clock_restore`, the figure being minimised. */
    function WallClock(): real { setup + restore }
  }

  /** The even positions are empty only for an empty list, the odd ones for
      a list shorter than two. */
  lemma EvensOddsEmpty(xs: seq<int>)
    ensures Evens(xs) == [] <==> xs == []
    ensures Odds(xs) == [] <==> |xs| < 2
    ensures |Evens(xs)| == (|xs| + 1) / 2 && |Odds(xs)| == |xs| / 2
  {
  }

  /** Mean setup and mean restore wall-clock time: the samples at even
      positions are setup phases, those at odd positions restores. */
  function WallClockMeans(wc: seq<int>): (r: Result<(real, real), TuneError>)
    ensures r.Ok? <==> |wc| >= 2 && CheckedSum(Evens(wc), 0).Some? && CheckedSum(Odds(wc), 0).Some?
    ensures wc == [] ==> r == Err(NoWallClock(0))
    ensures |wc| == 1 && CheckedSum(wc, 0).Some? ==> r == Err(NoWallClock(1))
    ensures r.Ok? ==> r.value == (Average(Evens(wc), NoWallClock(|wc|)).value, Average(Odds(wc), NoWallClock(|wc|)).value)
  {
    EvensOddsEmpty(wc);
    var setup := Average(Evens(wc), NoWallClock(|wc|));
    if setup.Err? then
      assert |wc| == 1 ==> Evens(wc) == wc;
      Err(setup.error)
    else
      var restore := Average(Odds(wc), NoWallClock(|wc|));
      if restore.Err? then Err(restore.error)
      else Ok((setup.value, restore.value))
  }

  /** The statistics block of the later tuner: per-stage means, total work
      (sum of the stage work means), total read (mean of the stage read
      means), and mean setup and restore wall-clock times. The stage loop
      runs first, so a stage without samples is reported before a short
      wall-clock list. */
  function Aggregate(samples: Samples): (r: Result<Stats, TuneError>)
    ensures r.Ok? <==> AllMeans(samples.stages).Ok? && WallClockMeans(samples.wallClock).Ok?
    ensures AllMeans(samples.stages).Err? ==> r == Err(AllMeans(samples.stages).error)
    ensures AllMeans(samples.stages).Ok? && WallClockMeans(samples.wallClock).Err? ==> r == Err(WallClockMeans(samples.wallClock).error)
    ensures r.Ok? ==> r.value.means == AllMeans(samples.stages).value
                      && (r.value.setup, r.value.restore) == WallClockMeans(samples.wallClock).value
    ensures r.Ok? ==> r.value.totalWork == Total(r.value.means.work)
                      && r.value.totalRead * 4.0 == Total(r.value.means.read)
  {
    var m :- AllMeans(samples.stages);
    var wc :- WallClockMeans(samples.wallClock);
    Ok(Stats(m, Total(m.work), Total(m.read) / 4.0, wc.0, wc.1))
  }

  /** Whether `s` is the stage `Max()` over (mean, index) tuples picks
      among `cands`: its mean is the greatest, and every candidate after it
      has a strictly smaller one (ties go to the highest index). */
  ghost predicate IsLastMax(w: PerStage<real>, cands: seq<Stage>, s: Stage) {
    && s in cands
    && (forall t :: t in cands ==> w.Get(t) <= w.Get(s))
    && (forall t :: t in cands && Index(t) > Index(s) ==> w.Get(t) < w.Get(s))
  }

  predicate Ascending(cands: seq<Stage>) {
    forall i, j :: 0 <= i < j < |cands| ==> Index(cands[i]) < Index(cands[j])
  }

  /** The tuple `Max()` over candidates in index order. */
  function MaxLast(w: PerStage<real>, cands: seq<Stage>): (s: Stage)
    requires |cands| > 0 && Ascending(cands)
    ensures IsLastMax(w, cands, s)
  {
    if |cands| == 1 then cands[0]
    else
      var init := cands[..|cands| - 1];
      var last := cands[|cands| - 1];
      var best := MaxLast(w, init);
      assert forall t :: t in cands ==> t in init || t == last;
      assert forall t :: t in init ==> Index(t) < Index(last);
      if w.Get(last) >= w.Get(best) then last else best
  }

  /** At most one stage is the last maximum, so `MaxLast` is the only
      possible choice. */
  lemma LastMaxUnique(w: PerStage<real>, cands: seq<Stage>, s: Stage, t: Stage)
    requires IsLastMax(w, cands, s) && IsLastMax(w, cands, t)
    ensures s == t
  {
    if Index(s) == Index(t) {
      assert Stages[Index(s)] == s && Stages[Index(t)] == t;
    }
  }

  lemma AscendingStages()
    ensures Ascending(Stages) && Ascending(Stages[1..])
  {
    assert Index(Stages[0]) == 0 && Index(Stages[1]) == 1;
    assert Index(Stages[2]) == 2 && Index(Stages[3]) == 3;
    var tail := Stages[1..];
    assert |tail| == 3 && tail[0] == Stages[1] && tail[1] == Stages[2] && tail[2] == Stages[3];
  }

  /** Where the later tuner adds workers: to the file processors when the
      mean read time exceeds the total work, else to the stage with the
      largest mean work. */
  function SelectRework(st: Stats): (s: Stage)
    ensures st.totalRead > st.totalWork ==> s == FileProcessor
    ensures st.totalRead <= st.totalWork ==> IsLastMax(st.means.work, Stages, s)
  {
    AscendingStages();
    if st.totalRead > st.totalWork then FileProcessor else MaxLast(st.means.work, Stages)
  }

  /** The earlier tuner's choice: in the work branch the file processors are
      skipped (`Skip(1)`), so only the three volume stages compete. */
  function SelectWip(st: Stats): (s: Stage)
    ensures st.totalRead > st.totalWork ==> s == FileProcessor
    ensures st.totalRead <= st.totalWork ==> IsLastMax(st.means.work, Stages[1..], s) && s != FileProcessor
  {
    AscendingStages();
    if st.totalRead > st.totalWork then FileProcessor else MaxLast(st.means.work, Stages[1..])
  }

  /** The two tuners choose differently exactly when the later one doubles
      the file processors because they have the largest mean work. */
  lemma SelectorsDiffer(st: Stats)
    ensures SelectWip(st) != SelectRework(st) <==> st.totalRead <= st.totalWork && SelectRework(st) == FileProcessor
  {
    if st.totalRead <= st.totalWork && SelectRework(st) != FileProcessor {
      var s, t := SelectRework(st), SelectWip(st);
      var w := st.means.work;
      assert s in Stages[1..] by {
        assert Stages[1..] == [VolumeDownloader, VolumeDecryptor, VolumeDecompressor];
      }
      assert IsLastMax(w, Stages[1..], s);
      LastMaxUnique(w, Stages[1..], s, t);
    }
  }

  /** `tuning[i] = (int.Parse(tuning[i]) * 2).ToString()`, with the
      unchecked 32-bit multiplication of C#. */
  function DoubleAt(v: Vec, s: Stage): (r: Result<Vec, TuneError>)
    ensures r.Err? <==> IntParse(v.Get(s)).None?
    ensures r.Err? ==> r.error == BadTuningValue(v.Get(s))
    ensures r.Ok? ==> forall t :: t != s ==> r.value.Get(t) == v.Get(t)
  {
    match IntParse(v.Get(s))
    case None => Err(BadTuningValue(v.Get(s)))
    case Some(x) => Ok(v.Put(s, Decimal(Wrap32(2 * x))))
  }

  /** The doubled component reads back as twice the old count, wrapped to
      32 bits; below 2^30 in magnitude nothing wraps. */
  lemma DoubleAtValue(v: Vec, s: Stage)
    requires DoubleAt(v, s).Ok?
    ensures IntParse(DoubleAt(v, s).value.Get(s)) == Some(Wrap32(2 * IntParse(v.Get(s)).value))
    ensures -0x4000_0000 <= IntParse(v.Get(s)).value < 0x4000_0000 ==>
              IntParse(DoubleAt(v, s).value.Get(s)) == Some(2 * IntParse(v.Get(s)).value)
  {
    IntParseDecimal(Wrap32(2 * IntParse(v.Get(s)).value));
  }
}
