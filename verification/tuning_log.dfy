/** The profiling-log parser of the restore tuner. Each log line is either a
    wall-clock line (it contains "took" and ends in a duration) or a stage
    line (a fixed-width prefix, a stage name up to the first '-', then
    space-separated fields of which those containing "ms" are timings). A
    recognised stage line contributes one (work, read) sample to its stage. */
module TuningLog {
  import opened Wrappers
  import opened Ints
  import opened Text
  import opened TunerTypes

  /** Width of the timestamp and logger prefix every stage line starts with. */
  const PREFIX_LENGTH: nat := 78

  /** Limits of .NET's `TimeSpan` parser. */
  const MAX_DAYS: nat := 10675199
  const MAX_MILLISECONDS: nat := 922337203685477
  const TICKS_PER_MILLISECOND: nat := 10000

  /** The parser the wall-clock token goes through. */
  datatype DurationFormat =
    | Exact    // TimeSpan.ParseExact with the custom format d\:hh\:mm\:ss\.fff
    | General  // TimeSpan.Parse

  predicate Digits(s: String, minLen: nat, maxLen: nat) {
    minLen <= |s| <= maxLen && AllDigits(s)
  }

  /** `(long)TimeSpan.TotalMilliseconds` of a duration given by its fields,
      or the parser's overflow error when a field or the total is out of
      range. `fractionTicks` is the fraction of a second in 100 ns ticks. */
  function DurationMillis(token: String, days: nat, hours: nat, minutes: nat, seconds: nat, fractionTicks: nat): (r: Result<int, TuneError>)
    ensures r.Ok? ==> 0 <= r.value <= INT64_MAX / TICKS_PER_MILLISECOND
    ensures r.Ok? ==> r.value == (((days * 24 + hours) * 60 + minutes) * 60 + seconds) * 1000 + fractionTicks / TICKS_PER_MILLISECOND
    ensures r.Ok? <==> days <= MAX_DAYS && hours <= 23 && minutes <= 59 && seconds <= 59
                       && (((days * 24 + hours) * 60 + minutes) * 60 + seconds) * 1000 <= MAX_MILLISECONDS
                       && ((((days * 24 + hours) * 60 + minutes) * 60 + seconds) * 1000) * TICKS_PER_MILLISECOND + fractionTicks <= INT64_MAX
  {
    if days > MAX_DAYS || hours > 23 || minutes > 59 || seconds > 59 then Err(BadDuration(token))
    else
      var whole := (((days * 24 + hours) * 60 + minutes) * 60 + seconds) * 1000;
      if whole > MAX_MILLISECONDS || whole * TICKS_PER_MILLISECOND + fractionTicks > INT64_MAX then Err(BadDuration(token))
      else Ok(whole + fractionTicks / TICKS_PER_MILLISECOND)
  }

  /** `TimeSpan.ParseExact(t, @"d\:hh\:mm\:ss\.fff")`: one to eight day
      digits, exactly two digits each for hours, minutes and seconds, and
      exactly three for the milliseconds, with nothing before or after. */
  function ParseExactDuration(t: String): (r: Result<int, TuneError>)
    ensures r.Ok? ==> r.value >= 0
  {
    var parts := Split(t, ':');
    if |parts| != 4 then Err(BadDuration(t))
    else
      var sf := parts[3];
      if !(Digits(parts[0], 1, 8) && Digits(parts[1], 2, 2) && Digits(parts[2], 2, 2)
           && |sf| == 6 && Digits(sf[..2], 2, 2) && sf[2] == '.' && Digits(sf[3..], 3, 3))
      then Err(BadDuration(t))
      else DurationMillis(t, NatValue(parts[0]), NatValue(parts[1]), NatValue(parts[2]),
                          NatValue(sf[..2]), NatValue(sf[3..]) * TICKS_PER_MILLISECOND)
  }

  /** `TimeSpan.Parse(t)` for tokens of the shape d:h:m:s[.f]: one to eight
      day digits, one or two digits for hours, minutes and seconds, and one
      to seven fraction digits. */
  function ParseGeneralDuration(t: String): (r: Result<int, TuneError>)
    ensures r.Ok? ==> r.value >= 0
  {
    var parts := Split(t, ':');
    if |parts| != 4 then Err(BadDuration(t))
    else
      var sf := Split(parts[3], '.');
      if !(Digits(parts[0], 1, 8) && Digits(parts[1], 1, 2) && Digits(parts[2], 1, 2)
           && |sf| <= 2 && Digits(sf[0], 1, 2) && (|sf| == 2 ==> Digits(sf[1], 1, 7)))
      then Err(BadDuration(t))
      else
        var ticks := if |sf| == 2 then NatValue(sf[1]) * Pow10(7 - |sf[1]|) else 0;
        DurationMillis(t, NatValue(parts[0]), NatValue(parts[1]), NatValue(parts[2]), NatValue(sf[0]), ticks)
  }

  function ParseDuration(fmt: DurationFormat, t: String): (r: Result<int, TuneError>)
    ensures r.Ok? ==> r.value >= 0
  {
    match fmt
    case Exact => ParseExactDuration(t)
    case General => ParseGeneralDuration(t)
  }

  /** Every token the exact parser accepts, the general parser accepts with
      the same number of milliseconds: the earlier tuner read the log's
      wall-clock lines exactly as the later one does. */
  lemma ExactImpliesGeneral(t: String)
    requires ParseExactDuration(t).Ok?
    ensures ParseGeneralDuration(t) == ParseExactDuration(t)
  {
    var sf := Split(t, ':')[3];
    var ss, ff := sf[..2], sf[3..];
    assert sf == Join([ss, ff], '.');
    assert '.' !in ss && '.' !in ff by {
      assert AllDigits(ss) && AllDigits(ff);
    }
    SplitJoin([ss, ff], '.');
    assert Pow10(7 - 3) == TICKS_PER_MILLISECOND;
  }

  /** The token `d:hh:mm:ss.fff`, built from its fields. */
  function ExactToken(d: String, hh: String, mm: String, ss: String, fff: String): String {
    d + [':'] + hh + [':'] + mm + [':'] + (ss + ['.'] + fff)
  }

  predicate ExactFields(d: String, hh: String, mm: String, ss: String, fff: String) {
    Digits(d, 1, 8) && Digits(hh, 2, 2) && Digits(mm, 2, 2) && Digits(ss, 2, 2) && Digits(fff, 3, 3)
  }

  /** A token of the shape `d:hh:mm:ss.fff` is read field by field, the
      three fraction digits being milliseconds. */
  lemma ExactReadsFields(d: String, hh: String, mm: String, ss: String, fff: String)
    requires ExactFields(d, hh, mm, ss, fff)
    ensures var t := ExactToken(d, hh, mm, ss, fff);
      ParseExactDuration(t) == DurationMillis(t, NatValue(d), NatValue(hh), NatValue(mm), NatValue(ss), NatValue(fff) * TICKS_PER_MILLISECOND)
  {
    var sf := ss + ['.'] + fff;
    assert ':' !in d && ':' !in hh && ':' !in mm && ':' !in sf by {
      assert AllDigits(d) && AllDigits(hh) && AllDigits(mm) && AllDigits(ss) && AllDigits(fff);
    }
    SplitFields(d, hh, mm, sf);
    assert sf[..2] == ss && sf[2] == '.' && sf[3..] == fff;
  }

  /** Only tokens of that shape are accepted. */
  lemma ExactOnlyFields(t: String)
    requires ParseExactDuration(t).Ok?
    ensures exists d, hh, mm, ss, fff :: ExactFields(d, hh, mm, ss, fff) && t == ExactToken(d, hh, mm, ss, fff)
  {
    var parts := Split(t, ':');
    JoinSplit(t, ':');
    var sf := parts[3];
    assert sf == sf[..2] + ['.'] + sf[3..];
    assert Join(parts, ':') == parts[0] + [':'] + parts[1] + [':'] + parts[2] + [':'] + parts[3] by {
      assert Join(parts[3..], ':') == parts[3];
      assert Join(parts[2..], ':') == parts[2] + [':'] + parts[3];
      assert Join(parts[1..], ':') == parts[1] + [':'] + parts[2] + [':'] + parts[3];
    }
    assert ExactFields(parts[0], parts[1], parts[2], sf[..2], sf[3..]);
    assert t == ExactToken(parts[0], parts[1], parts[2], sf[..2], sf[3..]);
  }

  /** Four colon-free fields joined by colons split back into themselves. */
  lemma SplitFields(a: String, b: String, c: String, d: String)
    requires ':' !in a && ':' !in b && ':' !in c && ':' !in d
    ensures Split(a + [':'] + b + [':'] + c + [':'] + d, ':') == [a, b, c, d]
  {
    var parts := [a, b, c, d];
    assert Join(parts, ':') == a + [':'] + b + [':'] + c + [':'] + d by {
      assert Join(parts[3..], ':') == d;
      assert Join(parts[2..], ':') == c + [':'] + d;
      assert Join(parts[1..], ':') == b + [':'] + c + [':'] + d;
    }
    SplitJoin(parts, ':');
  }

  /** The space-separated tokens containing "ms", in order. */
  function MsTokens(tokens: seq<String>): (ms: seq<String>)
    ensures |ms| <= |tokens|
    ensures forall t :: t in ms <==> t in tokens && Contains(t, "ms")
  {
    if tokens == [] then []
    else (if Contains(tokens[0], "ms") then [tokens[0]] else []) + MsTokens(tokens[1..])
  }

  /** The filter keeps order and repeats: filtering a concatenation is
      filtering each part. */
  lemma {:induction false} MsTokensConcat(a: seq<String>, b: seq<String>)
    ensures MsTokens(a + b) == MsTokens(a) + MsTokens(b)
  {
    if a != [] {
      assert (a + b)[1..] == a[1..] + b;
      MsTokensConcat(a[1..], b);
    } else {
      assert a + b == b;
    }
  }

  /** Any function that keeps a lone token exactly when it contains "ms" and
      distributes over concatenation is `MsTokens`: the two facts determine
      the filter. */
  lemma {:induction false} MsTokensDetermined(f: seq<String> -> seq<String>, tokens: seq<String>)
    requires forall t :: f([t]) == if Contains(t, "ms") then [t] else []
    requires forall a, b :: f(a + b) == f(a) + f(b)
    ensures f(tokens) == MsTokens(tokens)
  {
    if tokens == [] {
      var e: seq<String> := [];
      assert e + e == e;
      assert f(e + e) == f(e) + f(e);
    } else {
      var t := tokens[0];
      assert tokens == [t] + tokens[1..];
      assert f([t] + tokens[1..]) == f([t]) + f(tokens[1..]);
      MsTokensDetermined(f, tokens[1..]);
    }
  }

  /** `int.Parse` of the digits of one "ms" token. `char.IsDigit` keeps the
      digits of every script but `int.Parse` reads only '0'..'9', so the
      token's digits parse when they are all ASCII, there is at least one,
      and their value is at most `int.MaxValue`. */
  function TimeValue(t: String): (r: Option<int>)
    ensures r.Some? ==> 0 <= r.value <= INT32_MAX
  {
    var d := DigitsOf(t);
    if d != [] && AllDigits(d) && NatValue(d) <= INT32_MAX then Some(NatValue(d)) else None
  }

  /** `TimeValue` is `int.Parse` applied to the token's digits. */
  lemma TimeValueIsIntParse(t: String)
    ensures TimeValue(t) == IntParse(DigitsOf(t))
  {
    var d := DigitsOf(t);
    forall i | 0 <= i < |d| ensures '0' <= d[i] {
      UnicodeDigitAboveZero(d[i]);
    }
    IntParseUnsigned(d);
  }

  /** A token holding a digit of another script (say U+0663, ARABIC-INDIC
      DIGIT THREE) never yields a timing: the filter keeps that digit and
      `int.Parse` throws on it. */
  lemma TimeValueRejectsOtherScripts(t: String, i: nat)
    requires i < |t| && IsUnicodeDigit(t[i]) && !IsDigit(t[i])
    ensures TimeValue(t) == None
  {
    DigitsOfMembers(t);
    assert t[i] in DigitsOf(t);
  }

  /** Position of the first `None`, or `|xs|`. */
  function FirstNone(xs: seq<Option<int>>): (k: nat)
    ensures k <= |xs|
    ensures forall j :: 0 <= j < k ==> xs[j].Some?
    ensures k < |xs| ==> xs[k].None?
  {
    if xs == [] || xs[0].None? then 0 else 1 + FirstNone(xs[1..])
  }

  /** `int.Parse` of each token's digits; the first token without digits, or
      whose digits exceed `int.MaxValue`, throws. */
  function ParseTimes(ms: seq<String>): (r: Result<seq<int>, TuneError>)
    ensures r.Ok? <==> forall i :: 0 <= i < |ms| ==> TimeValue(ms[i]).Some?
    ensures r.Ok? ==> |r.value| == |ms| && forall i :: 0 <= i < |ms| ==> Some(r.value[i]) == TimeValue(ms[i])
    ensures r.Err? ==> exists k :: 0 <= k < |ms| && r.error == BadNumber(ms[k]) && TimeValue(ms[k]).None?
                                   && forall j :: 0 <= j < k ==> TimeValue(ms[j]).Some?
  {
    var vals := seq(|ms|, i requires 0 <= i < |ms| => TimeValue(ms[i]));
    var k := FirstNone(vals);
    assert forall i :: 0 <= i < |ms| ==> vals[i] == TimeValue(ms[i]);
    if k < |ms| then
      assert TimeValue(ms[k]).None?;
      Err(BadNumber(ms[k]))
    else
      assert forall i :: 0 <= i < |ms| ==> vals[i].Some?;
      Ok(seq(|ms|, i requires 0 <= i < |ms| => vals[i].value))
  }

  /** The "ms" tokens of a stage line: the text after the 78-character
      prefix, from its first '-' on, split at spaces and filtered. */
  function StageTokens(line: String): (ms: seq<String>)
    requires |line| >= PREFIX_LENGTH && '-' in line[PREFIX_LENGTH..]
    ensures forall t :: t in ms ==> Contains(t, "ms")
  {
    var rest := line[PREFIX_LENGTH..];
    MsTokens(Split(rest[IndexOf(rest, '-')..], ' '))
  }

  /** The stage name and the `times[]` array of a stage line. */
  function TokenizeStageLine(line: String): (r: Result<(String, seq<int>), TuneError>)
    ensures |line| < PREFIX_LENGTH ==> r == Err(LineTooShort(|line|))
    ensures |line| >= PREFIX_LENGTH && '-' !in line[PREFIX_LENGTH..] ==> r == Err(MissingDash)
    ensures r.Ok? ==> '-' !in r.value.0 && r.value.0 + ['-'] <= line[PREFIX_LENGTH..]
    ensures r.Ok? ==> forall i :: 0 <= i < |r.value.1| ==> 0 <= r.value.1[i] <= INT32_MAX
    ensures |line| >= PREFIX_LENGTH && '-' in line[PREFIX_LENGTH..] ==>
      var times := ParseTimes(StageTokens(line));
      && (r.Ok? <==> times.Ok?)
      && (r.Ok? ==> r.value.1 == times.value)
      && (r.Err? ==> r.error == times.error)
  {
    if |line| < PREFIX_LENGTH then Err(LineTooShort(|line|))
    else
      var rest := line[PREFIX_LENGTH..];
      var idx := IndexOf(rest, '-');
      if idx < 0 then Err(MissingDash)
      else
        assert rest[..idx] + ['-'] == rest[..idx + 1];
        var times := ParseTimes(StageTokens(line));
        if times.Err? then Err(times.error) else Ok((rest[..idx], times.value))
  }
  /** `times[]` holds, in order, the value of every "ms" token after the
      dash; a line whose tokens do not all parse throws on the first token
      that does not. */
  lemma StageLineTimes(line: String)
    requires |line| >= PREFIX_LENGTH && '-' in line[PREFIX_LENGTH..]
    ensures var r, ms := TokenizeStageLine(line), StageTokens(line);
      && (r.Ok? <==> forall i :: 0 <= i < |ms| ==> TimeValue(ms[i]).Some?)
      && (r.Ok? ==> |r.value.1| == |ms| && forall i :: 0 <= i < |ms| ==> Some(r.value.1[i]) == TimeValue(ms[i]))
      && (r.Err? ==> exists k :: 0 <= k < |ms| && r.error == BadNumber(ms[k]) && TimeValue(ms[k]).None?
                                 && forall j :: 0 <= j < k ==> TimeValue(ms[j]).Some?)
  {
  }


  datatype Line =
    | WallClock(ms: int)
    | StageLine(stage: Stage, work: int, read: int)
    | Unrecognised

  /** How many entries of `times[]` the extraction for a stage reads. */
  function TimesNeeded(s: Stage): nat {
    match s
    case FileProcessor => 9
    case VolumeDownloader => 3
    case VolumeDecryptor => 2
    case VolumeDecompressor => 2
  }

  /** The position of a stage's read (wait) time in `times[]`. */
  function ReadIndex(s: Stage): nat {
    match s
    case FileProcessor => 4
    case _ => 0
  }

  /** The extraction table: a stage line's work and read samples. */
  function ExtractSample(name: String, times: seq<int>): (r: Result<Line, TuneError>)
    requires forall i :: 0 <= i < |times| ==> 0 <= times[i] <= INT32_MAX
    ensures StageNamed(name) == None ==> r == Ok(Unrecognised)
    ensures r.Ok? ==> !r.value.WallClock?
    ensures forall s :: StageNamed(name) == Some(s) && |times| < TimesNeeded(s) ==> r == Err(TooFewTimes(s, |times|))
    ensures r.Ok? && r.value.StageLine? ==>
              Name(r.value.stage) == name && |times| >= TimesNeeded(r.value.stage)
              && r.value.read == times[ReadIndex(r.value.stage)]
              && 0 <= r.value.work <= INT32_MAX
  {
    match StageNamed(name)
    case None => Ok(Unrecognised)
    case Some(s) =>
      if |times| < TimesNeeded(s) then Err(TooFewTimes(s, |times|))
      else match s
        case FileProcessor =>
          var parts := times[1..3] + times[5..8] + times[9..];
          SumNonNegative(parts);
          var work := Sum(parts);
          if work > INT32_MAX then Err(SumOverflow(s)) else Ok(StageLine(s, work, times[4]))
        case VolumeDownloader => Ok(StageLine(s, times[2], times[0]))
        case VolumeDecryptor => Ok(StageLine(s, times[1], times[0]))
        case VolumeDecompressor =>
          assert forall i :: 0 <= i < |times[2..]| ==> times[2..][i] == times[i + 2];
          SumNonNegative(times[2..]);
          var work := Sum(times[2..]);
          if work > INT32_MAX then Err(SumOverflow(s)) else Ok(StageLine(s, work, times[0]))
  }

  /** Whether `times[i]` counts towards a stage's work. */
  predicate IsWorkIndex(s: Stage, i: nat) {
    match s
    case FileProcessor => i != 0 && i != 3 && i != 4 && i != 8
    case VolumeDownloader => i == 2
    case VolumeDecryptor => i == 1
    case VolumeDecompressor => i >= 2
  }

  /** Sum of `times[i]` over the work positions `i >= from`. */
  function WorkSum(s: Stage, times: seq<int>, from: nat): int
    requires from <= |times|
    decreases |times| - from
  {
    if from == |times| then 0
    else (if IsWorkIndex(s, from) then times[from] else 0) + WorkSum(s, times, from + 1)
  }

  lemma {:induction false} WorkSumTail(s: Stage, times: seq<int>, from: nat)
    requires from <= |times|
    requires forall i :: from <= i ==> IsWorkIndex(s, i)
    ensures WorkSum(s, times, from) == Sum(times[from..])
    decreases |times| - from
  {
    if from < |times| {
      assert times[from..][1..] == times[from + 1..];
      WorkSumTail(s, times, from + 1);
    }
  }

  lemma {:induction false} WorkSumNone(s: Stage, times: seq<int>, from: nat)
    requires from <= |times|
    requires forall i :: from <= i ==> !IsWorkIndex(s, i)
    ensures WorkSum(s, times, from) == 0
    decreases |times| - from
  {
    if from < |times| {
      WorkSumNone(s, times, from + 1);
    }
  }

  lemma FileProcessorUnfold(times: seq<int>)
    requires |times| >= 9
    ensures WorkSum(FileProcessor, times, 0)
            == times[1] + times[2] + times[5] + times[6] + times[7] + WorkSum(FileProcessor, times, 9)
  {
    var fp := FileProcessor;
    assert WorkSum(fp, times, 0) == WorkSum(fp, times, 1);
    assert WorkSum(fp, times, 1) == times[1] + WorkSum(fp, times, 2);
    assert WorkSum(fp, times, 2) == times[2] + WorkSum(fp, times, 3);
    assert WorkSum(fp, times, 3) == WorkSum(fp, times, 4);
    assert WorkSum(fp, times, 4) == WorkSum(fp, times, 5);
    assert WorkSum(fp, times, 5) == times[5] + WorkSum(fp, times, 6);
    assert WorkSum(fp, times, 6) == times[6] + WorkSum(fp, times, 7);
    assert WorkSum(fp, times, 7) == times[7] + WorkSum(fp, times, 8);
    assert WorkSum(fp, times, 8) == WorkSum(fp, times, 9);
  }

  lemma FileProcessorParts(times: seq<int>)
    requires |times| >= 9
    ensures Sum(times[1..3] + times[5..8] + times[9..])
            == times[1] + times[2] + times[5] + times[6] + times[7] + Sum(times[9..])
  {
    SumConcat(times[1..3] + times[5..8], times[9..]);
    SumConcat(times[1..3], times[5..8]);
    assert Sum(times[1..3]) == times[1] + times[2] by {
      assert times[1..3] == [times[1], times[2]];
      assert [times[1], times[2]][1..] == [times[2]];
      assert [times[2]][1..] == [];
    }
    assert Sum(times[5..8]) == times[5] + times[6] + times[7] by {
      assert times[5..8] == [times[5], times[6], times[7]];
      assert [times[5], times[6], times[7]][1..] == [times[6], times[7]];
      assert [times[6], times[7]][1..] == [times[7]];
      assert [times[7]][1..] == [];
      assert Sum([times[7]]) == times[7];
      assert Sum([times[6], times[7]]) == times[6] + times[7];
    }
  }

  lemma FileProcessorWorkSum(times: seq<int>)
    requires |times| >= 9
    ensures WorkSum(FileProcessor, times, 0) == Sum(times[1..3] + times[5..8] + times[9..])
  {
    FileProcessorUnfold(times);
    WorkSumTail(FileProcessor, times, 9);
    FileProcessorParts(times);
  }

  /** The extraction table agrees with the position-wise reading of it: a
      stage's work sample is the sum of exactly the timings at that stage's
      work positions, and its read sample is the timing at its read
      position. For FileProcessor that leaves out times[0], times[3],
      times[4] and times[8]. */
  lemma ExtractMatchesPositions(name: String, times: seq<int>)
    requires forall i :: 0 <= i < |times| ==> 0 <= times[i] <= INT32_MAX
    requires ExtractSample(name, times).Ok? && ExtractSample(name, times).value.StageLine?
    ensures var l := ExtractSample(name, times).value;
            l.work == WorkSum(l.stage, times, 0) && l.read == times[ReadIndex(l.stage)]
  {
    var s := ExtractSample(name, times).value.stage;
    assert StageNamed(name) == Some(s);
    match s
    case FileProcessor =>
      FileProcessorWorkSum(times);
    case VolumeDownloader =>
      WorkSumNone(VolumeDownloader, times, 3);
      assert WorkSum(s, times, 0) == WorkSum(s, times, 1) == WorkSum(s, times, 2);
      assert WorkSum(s, times, 2) == times[2] + WorkSum(s, times, 3);
    case VolumeDecryptor =>
      WorkSumNone(VolumeDecryptor, times, 2);
      assert WorkSum(s, times, 0) == times[1] + WorkSum(s, times, 2);
    case VolumeDecompressor =>
      WorkSumTail(VolumeDecompressor, times, 2);
      assert WorkSum(s, times, 0) == WorkSum(s, times, 2);
  }

  /** A FileProcessor line with the timings 5,10,20,30,7,1,2,3,4,5,6 gives
      work 10+20+1+2+3+5+6 = 47 and read 7. */
  lemma FileProcessorExample()
    ensures ExtractSample("FileProcessor", [5, 10, 20, 30, 7, 1, 2, 3, 4, 5, 6]) == Ok(StageLine(FileProcessor, 47, 7))
  {
    var times := [5, 10, 20, 30, 7, 1, 2, 3, 4, 5, 6];
    assert StageNamed("FileProcessor") == Some(FileProcessor);
    var parts := times[1..3] + times[5..8] + times[9..];
    assert parts == [10, 20, 1, 2, 3, 5, 6];
    assert Sum([6]) == 6;
    assert Sum([5, 6]) == 11 by { assert [5, 6][1..] == [6]; }
    assert Sum([3, 5, 6]) == 14 by { assert [3, 5, 6][1..] == [5, 6]; }
    assert Sum([2, 3, 5, 6]) == 16 by { assert [2, 3, 5, 6][1..] == [3, 5, 6]; }
    assert Sum([1, 2, 3, 5, 6]) == 17 by { assert [1, 2, 3, 5, 6][1..] == [2, 3, 5, 6]; }
    assert Sum([20, 1, 2, 3, 5, 6]) == 37 by { assert [20, 1, 2, 3, 5, 6][1..] == [1, 2, 3, 5, 6]; }
    assert Sum(parts) == 47 by { assert parts[1..] == [20, 1, 2, 3, 5, 6]; }
  }

  /** The last space-separated token of a line (`Split(' ')[^1]`). */
  function LastToken(line: String): String {
    var parts := Split(line, ' ');
    parts[|parts| - 1]
  }

  /** Classifies and parses one log line. */
  function ParseLine(fmt: DurationFormat, line: String): (r: Result<Line, TuneError>)
    ensures Contains(line, "took") ==> (r.Ok? <==> ParseDuration(fmt, LastToken(line)).Ok?)
    ensures Contains(line, "took") && r.Ok? ==> r.value == WallClock(ParseDuration(fmt, LastToken(line)).value)
    ensures !Contains(line, "took") && r.Ok? ==> !r.value.WallClock?
    ensures !Contains(line, "took") && |line| < PREFIX_LENGTH ==> r.Err?
  {
    if Contains(line, "took") then
      var ms :- ParseDuration(fmt, LastToken(line));
      Ok(WallClock(ms))
    else
      var nameAndTimes :- TokenizeStageLine(line);
      ExtractSample(nameAndTimes.0, nameAndTimes.1)
  }

  datatype StageSamples = StageSamples(work: seq<int>, read: seq<int>)

  /** Everything the parser collects in one outer step: per-stage sample
      lists and the wall-clock list. */
  datatype Samples = Samples(stages: PerStage<StageSamples>, wallClock: seq<int>)

  /** The freshly created timing dictionary and wall-clock list. */
  const EmptySamples: Samples :=
    Samples(PerStage(StageSamples([], []), StageSamples([], []), StageSamples([], []), StageSamples([], [])), [])

  function Record(acc: Samples, l: Line): Samples {
    match l
    case WallClock(ms) => acc.(wallClock := acc.wallClock + [ms])
    case StageLine(s, w, r) =>
      var old_ := acc.stages.Get(s);
      acc.(stages := acc.stages.Put(s, StageSamples(old_.work + [w], old_.read + [r])))
    case Unrecognised => acc
  }

  /** Reads one log file line by line into the accumulated samples; the
      first line that throws ends the step. */
  function ParseLog(fmt: DurationFormat, lines: seq<String>, acc: Samples): Result<Samples, TuneError>
    decreases |lines|
  {
    if lines == [] then Ok(acc)
    else
      var l :- ParseLine(fmt, lines[0]);
      ParseLog(fmt, lines[1..], Record(acc, l))
  }

  /** The parsed lines of a log, or the first line's error. */
  function Events(fmt: DurationFormat, lines: seq<String>): (r: Result<seq<Line>, TuneError>)
    ensures r.Ok? ==> |r.value| == |lines|
  {
    if lines == [] then Ok([])
    else
      var l :- ParseLine(fmt, lines[0]);
      var rest :- Events(fmt, lines[1..]);
      Ok([l] + rest)
  }

  function WorkOf(evs: seq<Line>, s: Stage): seq<int> {
    if evs == [] then []
    else (if evs[0].StageLine? && evs[0].stage == s then [evs[0].work] else []) + WorkOf(evs[1..], s)
  }

  function ReadOf(evs: seq<Line>, s: Stage): seq<int> {
    if evs == [] then []
    else (if evs[0].StageLine? && evs[0].stage == s then [evs[0].read] else []) + ReadOf(evs[1..], s)
  }

  function WallOf(evs: seq<Line>): seq<int> {
    if evs == [] then []
    else (if evs[0].WallClock? then [evs[0].ms] else []) + WallOf(evs[1..])
  }

  /** The result of adding the samples of `evs`, in order, to `acc`. */
  ghost predicate Extends(out: Samples, acc: Samples, evs: seq<Line>) {
    && out.wallClock == acc.wallClock + WallOf(evs)
    && forall s :: out.stages.Get(s) == StageSamples(acc.stages.Get(s).work + WorkOf(evs, s), acc.stages.Get(s).read + ReadOf(evs, s))
  }

  lemma ExtendsStep(out: Samples, acc: Samples, e: Line, rest: seq<Line>)
    requires Extends(out, Record(acc, e), rest)
    ensures Extends(out, acc, [e] + rest)
  {
    var evs := [e] + rest;
    assert out.wallClock == acc.wallClock + WallOf(evs) by {
      RecordSamples(acc, e, FileProcessor);
      WallOfCons(e, rest);
      assert (acc.wallClock + WallOf([e])) + WallOf(rest) == acc.wallClock + (WallOf([e]) + WallOf(rest));
    }
    forall s
      ensures out.stages.Get(s) == StageSamples(acc.stages.Get(s).work + WorkOf(evs, s), acc.stages.Get(s).read + ReadOf(evs, s))
    {
      AppendStep(acc, e, rest, s);
    }
  }

  /** The samples recorded from `e` and then from `rest` are those of
      `[e] + rest`. */
  lemma AppendStep(acc: Samples, e: Line, rest: seq<Line>, s: Stage)
    ensures Record(acc, e).stages.Get(s).work + WorkOf(rest, s) == acc.stages.Get(s).work + WorkOf([e] + rest, s)
    ensures Record(acc, e).stages.Get(s).read + ReadOf(rest, s) == acc.stages.Get(s).read + ReadOf([e] + rest, s)
  {
    var b := acc.stages.Get(s);
    RecordSamples(acc, e, s);
    OfCons(e, rest, s);
    ConcatAssoc(b.work, WorkOf([e], s), WorkOf(rest, s));
    ConcatAssoc(b.read, ReadOf([e], s), ReadOf(rest, s));
  }

  /** Recording one line appends that line's samples. */
  lemma RecordSamples(acc: Samples, e: Line, s: Stage)
    ensures Record(acc, e).stages.Get(s).work == acc.stages.Get(s).work + WorkOf([e], s)
    ensures Record(acc, e).stages.Get(s).read == acc.stages.Get(s).read + ReadOf([e], s)
    ensures Record(acc, e).wallClock == acc.wallClock + WallOf([e])
  {
    assert [e][1..] == [];
  }

  /** The samples of a line followed by more lines. */
  lemma OfCons(e: Line, rest: seq<Line>, s: Stage)
    ensures WorkOf([e] + rest, s) == WorkOf([e], s) + WorkOf(rest, s)
    ensures ReadOf([e] + rest, s) == ReadOf([e], s) + ReadOf(rest, s)
  {
    assert ([e] + rest)[1..] == rest;
  }

  lemma WallOfCons(e: Line, rest: seq<Line>)
    ensures WallOf([e] + rest) == WallOf([e]) + WallOf(rest)
  {
    assert ([e] + rest)[1..] == rest;
  }

  /** Reading a log fails exactly when one of its lines fails, with the
      first such line's error; otherwise every recognised stage line appends
      exactly one (work, read) pair to its own stage, every wall-clock line
      one sample to the wall-clock list, in line order, and nothing else
      changes. */
  lemma {:induction false} ParseLogSpec(fmt: DurationFormat, lines: seq<String>, acc: Samples)
    ensures ParseLog(fmt, lines, acc).Err? <==> Events(fmt, lines).Err?
    ensures ParseLog(fmt, lines, acc).Err? ==> ParseLog(fmt, lines, acc).error == Events(fmt, lines).error
    ensures ParseLog(fmt, lines, acc).Ok? ==> Extends(ParseLog(fmt, lines, acc).value, acc, Events(fmt, lines).value)
    decreases |lines|
  {
    if lines == [] {
      assert forall s :: acc.stages.Get(s).work + [] == acc.stages.Get(s).work && acc.stages.Get(s).read + [] == acc.stages.Get(s).read;
      assert acc.wallClock + [] == acc.wallClock;
    } else {
      var r := ParseLine(fmt, lines[0]);
      if r.Ok? {
        var next := Record(acc, r.value);
        ParseLogSpec(fmt, lines[1..], next);
        assert ParseLog(fmt, lines, acc) == ParseLog(fmt, lines[1..], next);
        if ParseLog(fmt, lines, acc).Ok? {
          ExtendsStep(ParseLog(fmt, lines, acc).value, acc, r.value, Events(fmt, lines[1..]).value);
        }
      }
    }
  }

  /** Reading a log that is the concatenation of two logs is reading the
      first and then, from where it left off, the second. */
  lemma {:induction false} ParseLogConcat(fmt: DurationFormat, a: seq<String>, b: seq<String>, acc: Samples)
    ensures ParseLog(fmt, a + b, acc) ==
            match ParseLog(fmt, a, acc)
            case Ok(mid) => ParseLog(fmt, b, mid)
            case Err(e) => Err(e)
    decreases |a|
  {
    if a == [] {
      assert a + b == b;
    } else {
      assert (a + b)[0] == a[0];
      assert (a + b)[1..] == a[1..] + b;
      var r := ParseLine(fmt, a[0]);
      if r.Ok? {
        ParseLogConcat(fmt, a[1..], b, Record(acc, r.value));
      }
    }
  }

  function Flatten(logs: seq<seq<String>>): seq<String> {
    if logs == [] then [] else logs[0] + Flatten(logs[1..])
  }

  /** Reads the logs of the runs of one outer step, in run order, into one
      accumulation. */
  function StepSamples(fmt: DurationFormat, logs: seq<seq<String>>, acc: Samples): Result<Samples, TuneError>
    decreases |logs|
  {
    if logs == [] then Ok(acc)
    else
      var mid :- ParseLog(fmt, logs[0], acc);
      StepSamples(fmt, logs[1..], mid)
  }

  /** Accumulating over the runs of a step is reading all their lines as one
      log; with `EmptySamples` as the start, a step's samples come from its own
      runs and from nothing else. */
  lemma {:induction false} StepSamplesFlatten(fmt: DurationFormat, logs: seq<seq<String>>, acc: Samples)
    ensures StepSamples(fmt, logs, acc) == ParseLog(fmt, Flatten(logs), acc)
    decreases |logs|
  {
    if logs != [] {
      ParseLogConcat(fmt, logs[0], Flatten(logs[1..]), acc);
      match ParseLog(fmt, logs[0], acc)
      case Ok(mid) => StepSamplesFlatten(fmt, logs[1..], mid);
      case Err(e) =>
    }
  }

  /** What one outer step collects: from empty lists, the samples of every
      recognised line of every run's log, in order. */
  lemma StepSamplesSpec(fmt: DurationFormat, logs: seq<seq<String>>)
    requires StepSamples(fmt, logs, EmptySamples).Ok?
    ensures Events(fmt, Flatten(logs)).Ok?
    ensures var out := StepSamples(fmt, logs, EmptySamples).value;
            var evs := Events(fmt, Flatten(logs)).value;
            out.wallClock == WallOf(evs)
            && forall s :: out.stages.Get(s) == StageSamples(WorkOf(evs, s), ReadOf(evs, s))
  {
    StepSamplesFlatten(fmt, logs, EmptySamples);
    ParseLogSpec(fmt, Flatten(logs), EmptySamples);
    var evs := Events(fmt, Flatten(logs)).value;
    assert forall s :: EmptySamples.stages.Get(s) == StageSamples([], []);
    assert forall s :: [] + WorkOf(evs, s) == WorkOf(evs, s) && [] + ReadOf(evs, s) == ReadOf(evs, s);
    assert [] + WallOf(evs) == WallOf(evs);
  }
}
