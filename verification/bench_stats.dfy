/** The helpers the C++ index-and-schema benchmarks share
    (`index_and_schema/shared.hpp`): SQLite return-code and value checks,
    the command-line parser, random alphanumeric keys, and the
    order-statistic part of the report. */
module BenchStats {
  import opened Wrappers
  import opened Ints
  import opened Text
  import opened Sorting

  // ---------------------------------------------------------------------
  // Checks

  /** Result codes of `sqlite3.h`. */
  const SQLITE_OK: int := 0
  const SQLITE_ROW: int := 100
  const SQLITE_DONE: int := 101

  /** `assert_sqlite_return_code`: success, a row, or done. */
  function ReturnCodeOk(rc: int): (ok: bool)
    ensures ok <==> rc == SQLITE_OK || SQLITE_ROW <= rc <= SQLITE_DONE
  {
    rc == SQLITE_OK || rc == SQLITE_DONE || rc == SQLITE_ROW
  }

  /** Every primary error code of SQLite (`SQLITE_ERROR` = 1 up to
      `SQLITE_WARNING` = 28) is reported as a failure, and the three success
      codes are not. */
  lemma ReturnCodeClassification()
    ensures forall rc :: 1 <= rc <= 28 ==> !ReturnCodeOk(rc)
    ensures ReturnCodeOk(SQLITE_OK) && ReturnCodeOk(SQLITE_ROW) && ReturnCodeOk(SQLITE_DONE)
  {
  }

  /** `assert_value_matches`: the verdict, and the pair written to standard
      error (only on a mismatch, and only when `printError` is set). */
  datatype Verdict<T> = Verdict(ok: bool, report: Option<(T, T)>)

  function ValueMatches<T(==)>(expected: T, actual: T, printError: bool): (v: Verdict<T>)
    ensures v.ok <==> expected == actual
    ensures v.report.Some? <==> !v.ok && printError
    ensures v.report.Some? ==> v.report.value == (expected, actual)
  {
    if expected != actual then
      Verdict(false, if printError then Some((expected, actual)) else None)
    else Verdict(true, None)
  }

  /** The print flag changes what is written, never the verdict. */
  lemma PrintFlagOnlyReports<T>(expected: T, actual: T)
    ensures ValueMatches(expected, actual, true).ok == ValueMatches(expected, actual, false).ok
    ensures ValueMatches(expected, actual, false).report == None
  {
  }

  // ---------------------------------------------------------------------
  // Command line

  /** The exceptions `std::stoi` throws. */
  datatype ArgError = InvalidArgument | OutOfRange

  /** Length of the run of digits `s` starts with. */
  function DigitRun(s: String): (k: nat)
    ensures k <= |s| && AllDigits(s[..k])
    ensures k < |s| ==> !IsDigit(s[k])
  {
    if s == [] || !IsDigit(s[0]) then 0
    else
      var k := DigitRun(s[1..]);
      assert s[..k + 1] == [s[0]] + s[1..][..k];
      k + 1
  }

  /** `std::stoi(s)` in base 10: leading white space is skipped, then an
      optional sign and the longest run of digits are read; whatever follows
      is ignored. No digits throws `invalid_argument`, a value outside `int`
      throws `out_of_range`. */
  function Stoi(s: String): (r: Result<int, ArgError>)
    ensures r.Ok? ==> IsInt32(r.value)
  {
    var rest := s[LeadingWhite(s)..];
    var signed := rest != [] && (rest[0] == '-' || rest[0] == '+');
    var body := if signed then rest[1..] else rest;
    var k := DigitRun(body);
    if k == 0 then Err(InvalidArgument)
    else
      var v: int := if signed && rest[0] == '-' then 0 - NatValue(body[..k]) else NatValue(body[..k]);
      if IsInt32(v) then Ok(v) else Err(OutOfRange)
  }

  lemma {:induction false} DigitRunOf(d: String, tail: String)
    requires AllDigits(d)
    requires tail == [] || !IsDigit(tail[0])
    ensures DigitRun(d + tail) == |d|
  {
    if d != [] {
      assert (d + tail)[1..] == d[1..] + tail;
      DigitRunOf(d[1..], tail);
    } else {
      assert d + tail == tail;
    }
  }

  /** An unsigned digit string followed by non-digits reads as its value,
      or overflows. */
  lemma StoiUnsigned(d: String, tail: String)
    requires AllDigits(d) && d != []
    requires tail == [] || !IsDigit(tail[0])
    ensures Stoi(d + tail) == if NatValue(d) <= INT32_MAX then Ok(NatValue(d)) else Err(OutOfRange)
  {
    var s := d + tail;
    assert s[0] == d[0] && IsDigit(d[0]);
    assert LeadingWhite(s) == 0;
    assert s[0..] == s;
    DigitRunOf(d, tail);
    assert s[..|d|] == d;
  }

  /** A leading minus sign negates the value of the digits that follow it. */
  lemma StoiMinus(body: String, n: nat)
    requires DigitRun(body) > 0 && n == NatValue(body[..DigitRun(body)])
    ensures Stoi("-" + body) == if n <= -INT32_MIN then Ok(0 - n) else Err(OutOfRange)
  {
    var s := "-" + body;
    assert s[0] == '-';
    assert LeadingWhite(s) == 0;
    assert s[0..] == s;
    assert s[1..] == body;
  }

  /** `stoi` reads back what `std::to_string` printed, whatever non-digit
      text follows it. */
  lemma StoiDecimal(n: int, tail: String)
    requires IsInt32(n)
    requires tail == [] || !IsDigit(tail[0])
    ensures Stoi(Decimal(n) + tail) == Ok(n)
  {
    if n < 0 {
      var d := NatDigits(-n);
      var body := d + tail;
      assert Decimal(n) + tail == "-" + body by {
        assert Decimal(n) == "-" + d;
      }
      assert DigitRun(body) > 0 && body[..DigitRun(body)] == d by {
        DigitRunOf(d, tail);
      }
      StoiMinus(body, -n);
    } else {
      StoiUnsigned(NatDigits(n), tail);
    }
  }

  lemma {:induction false} LeadingWhiteConcat(w: String, s: String)
    requires forall i :: 0 <= i < |w| ==> w[i] in Whitespace
    ensures LeadingWhite(w + s) == |w| + LeadingWhite(s)
  {
    if w != [] {
      assert (w + s)[1..] == w[1..] + s;
      LeadingWhiteConcat(w[1..], s);
    } else {
      assert w + s == s;
    }
  }

  /** Leading white space never changes what `stoi` reads. */
  lemma StoiSkipsWhite(w: String, s: String)
    requires forall i :: 0 <= i < |w| ==> w[i] in Whitespace
    ensures Stoi(w + s) == Stoi(s)
  {
    LeadingWhiteConcat(w, s);
    assert (w + s)[LeadingWhite(w + s)..] == s[LeadingWhite(s)..];
  }

  /** `Config`: the three counts, `uint64_t` each. */
  datatype Config = Config(numEntries: nat, numWarmup: nat, numRepetitions: nat)

  const DEFAULT_CONFIG: Config := Config(100_000, 1_000, 10_000)

  const ENTRIES_FLAG: String := "--num-entries"
  const WARMUP_FLAG: String := "--num-warmup"
  /** Spelled as the program spells it. */
  const REPETITIONS_FLAG: String := "--num-repitions"

  predicate IsFlag(a: String) {
    a == ENTRIES_FLAG || a == WARMUP_FLAG || a == REPETITIONS_FLAG
  }

  /** Assigning an `int` to a `uint64_t`: reduction modulo 2^64. */
  function ToUint64(v: int): (u: nat)
    ensures u < TWO_64
    ensures 0 <= v < TWO_64 ==> u == v
    ensures -TWO_64 <= v < 0 ==> u == v + TWO_64
  {
    v % TWO_64
  }

  /** The field a flag sets. */
  function SetField(c: Config, flag: String, u: nat): Config
    requires IsFlag(flag)
  {
    if flag == ENTRIES_FLAG then c.(numEntries := u)
    else if flag == WARMUP_FLAG then c.(numWarmup := u)
    else c.(numRepetitions := u)
  }

  /** The parsed configuration and the arguments reported as unknown. */
  datatype Parsed = Parsed(config: Config, unknown: seq<String>)

  /** The loop of `parse_args` from position `i`: a flag followed by another
      argument consumes it as its value; every other argument, a trailing
      flag included, is reported and skipped. A value `stoi` rejects throws
      out of the parser. */
  function ParseArgsFrom(argv: seq<String>, i: nat, acc: Parsed): Result<Parsed, ArgError>
    decreases |argv| - i
  {
    if i >= |argv| then Ok(acc)
    else if IsFlag(argv[i]) && i + 1 < |argv| then
      var v :- Stoi(argv[i + 1]);
      ParseArgsFrom(argv, i + 2, acc.(config := SetField(acc.config, argv[i], ToUint64(v))))
    else ParseArgsFrom(argv, i + 1, acc.(unknown := acc.unknown + [argv[i]]))
  }

  /** `parse_args(argc, argv)`: the program name `argv[0]` is skipped. */
  function ParseArgs(argv: seq<String>): Result<Parsed, ArgError> {
    ParseArgsFrom(argv, 1, Parsed(DEFAULT_CONFIG, []))
  }

  /** Without flags every argument is reported, in order, and the
      configuration is left alone. */
  lemma {:induction false} ParseArgsNoFlags(argv: seq<String>, i: nat, acc: Parsed)
    requires i <= |argv|
    requires forall j :: i <= j < |argv| ==> !IsFlag(argv[j])
    ensures ParseArgsFrom(argv, i, acc) == Ok(acc.(unknown := acc.unknown + argv[i..]))
    decreases |argv| - i
  {
    if i < |argv| {
      assert !IsFlag(argv[i]);
      assert argv[i..] == [argv[i]] + argv[i + 1..];
      assert acc.unknown + [argv[i]] + argv[i + 1..] == acc.unknown + argv[i..];
      ParseArgsNoFlags(argv, i + 1, acc.(unknown := acc.unknown + [argv[i]]));
    } else {
      assert acc.unknown + argv[i..] == acc.unknown;
    }
  }

  /** A command line without flags yields the defaults. */
  lemma ParseArgsDefaults(argv: seq<String>)
    requires |argv| >= 1
    requires forall j :: 1 <= j < |argv| ==> !IsFlag(argv[j])
    ensures ParseArgs(argv) == Ok(Parsed(DEFAULT_CONFIG, argv[1..]))
  {
    ParseArgsNoFlags(argv, 1, Parsed(DEFAULT_CONFIG, []));
    assert [] + argv[1..] == argv[1..];
  }

  /** A flag with its value sets exactly its own field. */
  lemma ParseArgsOneFlag(prog: String, flag: String, n: int)
    requires IsFlag(flag) && IsInt32(n)
    ensures ParseArgs([prog, flag, Decimal(n)]) == Ok(Parsed(SetField(DEFAULT_CONFIG, flag, ToUint64(n)), []))
  {
    var argv := [prog, flag, Decimal(n)];
    StoiDecimal(n, []);
    assert Decimal(n) + [] == Decimal(n);
    assert IsFlag(argv[1]) && Stoi(argv[2]) == Ok(n);
    var next := Parsed(SetField(DEFAULT_CONFIG, flag, ToUint64(n)), []);
    assert ParseArgsFrom(argv, 3, next) == Ok(next);
  }

  /** A flag in last position has no value: it is reported, not applied. */
  lemma ParseArgsTrailingFlag(prog: String, flag: String)
    requires IsFlag(flag)
    ensures ParseArgs([prog, flag]) == Ok(Parsed(DEFAULT_CONFIG, [flag]))
  {
    var argv := [prog, flag];
    assert argv[1] == flag && !(1 + 1 < |argv|);
    assert [] + [argv[1]] == [flag];
    assert ParseArgsFrom(argv, 2, Parsed(DEFAULT_CONFIG, [flag])) == Ok(Parsed(DEFAULT_CONFIG, [flag]));
  }

  /** A configured entry count is either the starting one or the value
      following some `--num-entries` flag. */
  lemma {:induction false} EntriesProvenance(argv: seq<String>, i: nat, acc: Parsed)
    ensures var r := ParseArgsFrom(argv, i, acc);
      r.Ok? && r.value.config.numEntries != acc.config.numEntries ==>
        exists j :: i <= j && j + 1 < |argv| && argv[j] == ENTRIES_FLAG
          && Stoi(argv[j + 1]).Ok? && ToUint64(Stoi(argv[j + 1]).value) == r.value.config.numEntries
    decreases |argv| - i
  {
    if i < |argv| {
      if IsFlag(argv[i]) && i + 1 < |argv| {
        var s := Stoi(argv[i + 1]);
        if s.Ok? {
          var next := acc.(config := SetField(acc.config, argv[i], ToUint64(s.value)));
          EntriesProvenance(argv, i + 2, next);
        }
      } else {
        EntriesProvenance(argv, i + 1, acc.(unknown := acc.unknown + [argv[i]]));
      }
    }
  }

  // ---------------------------------------------------------------------
  // Random keys

  /** The 62 characters random keys are drawn from, in the program's order:
      lower-case letters, upper-case letters, digits. */
  const ALPHABET: String := LOWER + UPPER + DIGITS
  const LOWER: String := "abcdefghijklmnopqrstuvwxyz"
  const UPPER: String := "ABCDEFGHIJKLMNOPQRSTUVWXYZ"
  const DIGITS: String := "0123456789"

  function AlphabetChar(i: nat): (c: char)
    requires i < 62
  {
    if i < 26 then (('a' as int) + i) as char
    else if i < 52 then (('A' as int) + i - 26) as char
    else (('0' as int) + i - 52) as char
  }

  /** Position of an alphabet character. */
  function AlphabetIndex(c: char): (i: nat)
    requires IsLetterOrDigit(c)
    ensures i < 62 && AlphabetChar(i) == c
  {
    if 'a' <= c <= 'z' then (c as int) - ('a' as int)
    else if 'A' <= c <= 'Z' then 26 + (c as int) - ('A' as int)
    else 52 + (c as int) - ('0' as int)
  }

  function Run(first: char, len: nat): seq<char>
    requires (first as int) + len <= 128
  {
    seq(len, i requires 0 <= i < len => ((first as int) + i) as char)
  }

  lemma LowerRun()
    ensures LOWER == Run('a', 26)
  {
  }

  lemma UpperRun()
    ensures UPPER == Run('A', 26)
  {
  }

  lemma DigitRun10()
    ensures DIGITS == Run('0', 10)
  {
  }

  /** `ALPHABET` is `AlphabetChar` written out. */
  lemma AlphabetLayout()
    ensures |ALPHABET| == 62
    ensures forall i :: 0 <= i < 62 ==> ALPHABET[i] == AlphabetChar(i)
  {
    LowerRun();
    UpperRun();
    DigitRun10();
    forall i | 0 <= i < 62
      ensures ALPHABET[i] == AlphabetChar(i)
    {
      if i < 26 {
        assert ALPHABET[i] == LOWER[i];
      } else if i < 52 {
        assert ALPHABET[i] == UPPER[i - 26];
      } else {
        assert ALPHABET[i] == DIGITS[i - 52];
      }
    }
  }

  /** The alphabet holds exactly the ASCII letters and digits. */
  lemma AlphabetMembers()
    ensures forall c :: c in ALPHABET <==> IsLetterOrDigit(c)
  {
    AlphabetLayout();
    forall c | IsLetterOrDigit(c)
      ensures c in ALPHABET
    {
      assert ALPHABET[AlphabetIndex(c)] == c;
    }
    forall c | c in ALPHABET
      ensures IsLetterOrDigit(c)
    {
      var i :| 0 <= i < 62 && ALPHABET[i] == c;
      assert c == AlphabetChar(i);
    }
  }

  /** `random_hash_string(rng, length)` with the generator's successive
      outputs given as `draws`: character `i` is `chars[draws[i] % 62]`. */
  function RandomHashString(draws: seq<nat>, length: nat): (s: String)
    requires |draws| >= length
    ensures |s| == length
    ensures forall i :: 0 <= i < |s| ==> IsLetterOrDigit(s[i]) && AlphabetIndex(s[i]) == draws[i] % 62
  {
    seq(length, i requires 0 <= i < length => AlphabetChar(draws[i] % 62))
  }

  /** Every alphanumeric string is a possible key: the draws that are the
      characters' own positions produce it. */
  lemma RandomHashStringOnto(s: String)
    requires forall i :: 0 <= i < |s| ==> IsLetterOrDigit(s[i])
    ensures RandomHashString(seq(|s|, i requires 0 <= i < |s| => AlphabetIndex(s[i])), |s|) == s
  {
  }

  // ---------------------------------------------------------------------
  // Report

  /** `<` on `uint64_t` samples, the order `std::sort` uses. */
  function IntLe(a: int, b: int): bool {
    a <= b
  }

  lemma IntLeTotal()
    ensures TotalOrder(IntLe)
  {
  }

  /** The order statistics `report_stats` writes. */
  datatype Percentiles = Percentiles(
    min: int, first: int, tenth: int, q1: int, median: int,
    q3: int, ninetieth: int, ninetyNinth: int, max: int)

  /** The pick positions are in bounds and ascending. */
  lemma PickIndices(n: nat)
    requires n >= 1
    ensures 0 <= n / 100 <= n / 10 <= n / 4 <= n / 2
    ensures n / 2 <= n * 3 / 4 <= n * 9 / 10 <= n * 99 / 100 < n
  {
  }

  /** The picks of a sorted, non-empty sample list. */
  function PicksOf(sorted: seq<int>): (p: Percentiles)
    requires |sorted| >= 1
  {
    var n := |sorted|;
    PickIndices(n);
    Percentiles(sorted[0], sorted[n / 100], sorted[n / 10], sorted[n / 4], sorted[n / 2],
                sorted[n * 3 / 4], sorted[n * 9 / 10], sorted[n * 99 / 100], sorted[n - 1])
  }

  /** On sorted samples the picks ascend from the first sample to the last,
      and those two bound every sample. */
  lemma PicksOrdered(sorted: seq<int>)
    requires |sorted| >= 1 && SortedBy(sorted, IntLe)
    ensures var p := PicksOf(sorted);
      && p.min <= p.first <= p.tenth <= p.q1 <= p.median
      && p.median <= p.q3 <= p.ninetieth <= p.ninetyNinth <= p.max
    ensures forall i :: 0 <= i < |sorted| ==> sorted[0] <= sorted[i] <= sorted[|sorted| - 1]
  {
    var n := |sorted|;
    PickIndices(n);
    var k1, k2, k3, k4 := n / 100, n / 10, n / 4, n / 2;
    var k5, k6, k7 := n * 3 / 4, n * 9 / 10, n * 99 / 100;
    SortedPair(sorted, 0, k1);
    SortedPair(sorted, k1, k2);
    SortedPair(sorted, k2, k3);
    SortedPair(sorted, k3, k4);
    SortedPair(sorted, k4, k5);
    SortedPair(sorted, k5, k6);
    SortedPair(sorted, k6, k7);
    SortedPair(sorted, k7, n - 1);
    forall i | 0 <= i < n
      ensures sorted[0] <= sorted[i] <= sorted[n - 1]
    {
      SortedPair(sorted, 0, i);
      SortedPair(sorted, i, n - 1);
    }
  }

  lemma SortedPair(sorted: seq<int>, i: int, j: int)
    requires SortedBy(sorted, IntLe) && 0 <= i <= j < |sorted|
    ensures sorted[i] <= sorted[j]
  {
    if i < j {
      assert IntLe(sorted[i], sorted[j]);
    }
  }

  /** `report_stats` up to its floating-point averages: the samples are
      sorted, then the order statistics are read off. An empty sample list
      is undefined behaviour in the program (`front()` of an empty
      vector). */
  function ReportStats(times: seq<int>): (p: Percentiles)
    requires |times| >= 1
    ensures p.min <= p.first <= p.tenth <= p.q1 <= p.median
    ensures p.median <= p.q3 <= p.ninetieth <= p.ninetyNinth <= p.max
    ensures forall i :: 0 <= i < |times| ==> p.min <= times[i] <= p.max
    ensures p.min in times && p.max in times
  {
    IntLeTotal();
    var sorted := InsertionSort(times, IntLe);
    SameElements(times, sorted);
    PicksOrdered(sorted);
    PicksOf(sorted)
  }

  /** A permutation has the same length and the same members. */
  lemma SameElements(xs: seq<int>, ys: seq<int>)
    requires multiset(xs) == multiset(ys)
    ensures |xs| == |ys|
    ensures forall i :: 0 <= i < |xs| ==> xs[i] in ys
    ensures forall j :: 0 <= j < |ys| ==> ys[j] in xs
  {
    assert |xs| == |multiset(xs)| == |multiset(ys)| == |ys|;
    forall i | 0 <= i < |xs|
      ensures xs[i] in ys
    {
      assert xs[i] in multiset(ys);
    }
    forall j | 0 <= j < |ys|
      ensures ys[j] in xs
    {
      assert ys[j] in multiset(xs);
    }
  }

  /** The report does not depend on the order the samples were taken in. */
  lemma ReportStatsOrderFree(xs: seq<int>, ys: seq<int>)
    requires |xs| >= 1
    requires multiset(xs) == multiset(ys)
    ensures |ys| >= 1 && ReportStats(xs) == ReportStats(ys)
  {
    assert |ys| == |multiset(ys)| == |xs|;
    IntLeTotal();
    SortPermutationInvariant(xs, ys, IntLe);
  }

  // ---------------------------------------------------------------------
  // Trimmed averages

  /** The trimmed range `[n/d, n - n/d)`: `n/d` samples dropped at each
      end. */
  function TrimLow(n: nat, d: nat): nat
    requires d >= 2
  {
    n / d
  }

  function TrimHigh(n: nat, d: nat): (hi: nat)
    requires d >= 2
    ensures TrimLow(n, d) <= hi <= n
  {
    n - n / d
  }

  /** The divisor the program uses for the trimmed average,
      `n - 2 * n / d`, which C++ reads as `n - (2 * n) / d`. */
  function AsWrittenDivisor(n: nat, d: nat): (r: int)
    requires d == 10 || d == 100
    ensures n >= 1 ==> r >= 1
  {
    n - 2 * n / d
  }

  /** The divisor equals the length of the trimmed range exactly when fewer
      than half a bucket's worth of samples is left over: for `n` = 50 and
      `d` = 100 it is 49 while 50 samples are summed. */
  lemma AsWrittenDivisorMatches(n: nat, d: nat)
    requires d == 10 || d == 100
    ensures AsWrittenDivisor(n, d) == TrimHigh(n, d) - TrimLow(n, d) <==> n % d < d / 2
  {
    if d == 10 {
      DoubledQuotient(n, 10);
    } else {
      DoubledQuotient(n, 100);
    }
  }

  /** Doubling adds one to twice the quotient exactly when the remainder
      is at least half the divisor. */
  lemma DoubledQuotient(n: nat, d: nat)
    requires d == 10 || d == 100
    ensures (2 * n) / d == 2 * (n / d) + (if n % d < d / 2 then 0 else 1)
  {
    var q, r := n / d, n % d;
    if 2 * r < d {
      DivUnique(2 * n, d, 2 * q, 2 * r);
    } else {
      DivUnique(2 * n, d, 2 * q + 1, 2 * r - d);
    }
  }

  function RealSum(xs: seq<int>): real {
    Sum(xs) as real
  }

  /** The 1-99 (`d` = 100) or 10-90 (`d` = 10) average as the program
      computes it. */
  function TrimmedMeanAsWritten(sorted: seq<int>, d: nat): real
    requires |sorted| >= 1 && (d == 10 || d == 100)
  {
    var n := |sorted|;
    RealSum(sorted[TrimLow(n, d)..TrimHigh(n, d)]) / (AsWrittenDivisor(n, d) as real)
  }

  /** The trimmed average over the range it sums: its sum divided by its
      length. */
  function TrimmedMean(sorted: seq<int>, d: nat): real
    requires |sorted| >= 1 && (d == 10 || d == 100)
  {
    var n := |sorted|;
    var lo, hi := TrimLow(n, d), TrimHigh(n, d);
    RealSum(sorted[lo..hi]) / ((hi - lo) as real)
  }

  /** The corrected average lies between the smallest and the largest sample
      it averages. */
  lemma TrimmedMeanBounded(sorted: seq<int>, d: nat)
    requires |sorted| >= 1 && (d == 10 || d == 100)
    requires SortedBy(sorted, IntLe)
    ensures var n := |sorted|;
      TrimLow(n, d) < TrimHigh(n, d)
      && sorted[TrimLow(n, d)] as real <= TrimmedMean(sorted, d) <= sorted[TrimHigh(n, d) - 1] as real
  {
    var n := |sorted|;
    var lo, hi := TrimLow(n, d), TrimHigh(n, d);
    TrimNonEmpty(n, d);
    var part := sorted[lo..hi];
    SortedRangeBetween(sorted, lo, hi);
    MeanOfBounded(part, sorted[lo], sorted[hi - 1]);
    assert TrimmedMean(sorted, d) == RealSum(part) / (|part| as real);
  }

  /** Trimming leaves at least one sample. */
  lemma TrimNonEmpty(n: nat, d: nat)
    requires n >= 1 && (d == 10 || d == 100)
    ensures TrimLow(n, d) < TrimHigh(n, d)
  {
    assert n / d <= n / 2 by {
      assert d * (n / d) <= n;
    }
  }

  /** Every sample of a sorted range lies between its ends. */
  lemma SortedRangeBetween(sorted: seq<int>, lo: nat, hi: nat)
    requires lo < hi <= |sorted| && SortedBy(sorted, IntLe)
    ensures forall i :: 0 <= i < hi - lo ==> sorted[lo] <= sorted[lo..hi][i] <= sorted[hi - 1]
  {
    forall i | 0 <= i < hi - lo
      ensures sorted[lo] <= sorted[lo..hi][i] <= sorted[hi - 1]
    {
      assert sorted[lo..hi][i] == sorted[lo + i];
      if 0 < i {
        assert IntLe(sorted[lo], sorted[lo + i]);
      }
      if lo + i < hi - 1 {
        assert IntLe(sorted[lo + i], sorted[hi - 1]);
      }
    }
  }

  /** The mean of samples between `a` and `b` lies between them. */
  lemma MeanOfBounded(xs: seq<int>, a: int, b: int)
    requires |xs| >= 1
    requires forall i :: 0 <= i < |xs| ==> a <= xs[i] <= b
    ensures a as real <= RealSum(xs) / (|xs| as real) <= b as real
  {
    SumBetween(xs, a, b);
    ProductBoundsAsReal(|xs|, a, Sum(xs), b);
    MeanBetween(RealSum(xs), |xs| as real, a as real, b as real);
  }

  lemma MeanBetween(s: real, len: real, a: real, b: real)
    requires len > 0.0 && len * a <= s <= len * b
    ensures a <= s / len <= b
  {
  }

  lemma {:induction false} SumOnes(k: nat)
    ensures Sum(seq(k, _ => 1)) == k
  {
    if k > 0 {
      assert seq(k, _ => 1)[1..] == seq(k - 1, _ => 1);
      SumOnes(k - 1);
    }
  }

  /** Fifty equal samples: the 1-99 average as written is 50/49, above
      every sample, while the corrected one is the sample value. */
  lemma TrimmedMeanAsWrittenExceedsMax()
    ensures var xs := seq(50, _ => 1);
      TrimmedMeanAsWritten(xs, 100) == 50.0 / 49.0 && TrimmedMean(xs, 100) == 1.0
  {
    var xs := seq(50, _ => 1);
    assert xs[0..50] == xs;
    SumOnes(50);
    assert AsWrittenDivisor(50, 100) == 49;
  }
}
