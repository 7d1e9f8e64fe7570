/** The C# SQLite benchmark driver (`WIP-sqlite/benchmark/Program.cs`): the
    benchmark parameters and their rendering, the parameter names a command
    declares from its query text, when a transaction is renewed and when the
    index is built late, the `(long, string)` row order, and the parameter
    grids. */
module SqliteBench {
  import opened Wrappers
  import opened Ints
  import opened Text
  import opened Sorting

  // ---------------------------------------------------------------------
  // Parameters

  /** `BenchmarkParams`; `count` and `commitEveryN` are C# `int`s. */
  datatype BenchmarkParams = BenchmarkParams(
    count: int, commitEveryN: int, useIndex: bool, indexAfter: bool, useTransaction: bool)

  /** The property initialisers. */
  const DEFAULT_PARAMS: BenchmarkParams := BenchmarkParams(1000, 1, true, false, true)

  /** A parameter set built with only the shown properties given, the others
      keeping their initialisers. */
  function Params(count: int, commitEveryN: int, useIndex: bool, indexAfter: bool): BenchmarkParams {
    DEFAULT_PARAMS.(count := count, commitEveryN := commitEveryN, useIndex := useIndex, indexAfter := indexAfter)
  }

  /** `bool.ToString()`. */
  function BoolString(b: bool): String {
    if b then "True" else "False"
  }

  /** The comma-separated fields of `ToString()`. */
  function RenderParts(p: BenchmarkParams): seq<String> {
    ["Count=" + Decimal(p.count), " CommitEveryN=" + Decimal(p.commitEveryN),
     " UseIndex=" + BoolString(p.useIndex), " IndexAfter=" + BoolString(p.indexAfter)]
  }

  /** `BenchmarkParams.ToString()`. */
  function Render(p: BenchmarkParams): String {
    "Count=" + Decimal(p.count) + ", CommitEveryN=" + Decimal(p.commitEveryN)
      + ", UseIndex=" + BoolString(p.useIndex) + ", IndexAfter=" + BoolString(p.indexAfter)
  }

  /** The rendering is its four fields joined with commas. */
  lemma RenderShape(c: String, n: String, u: String, a: String)
    ensures "Count=" + c + ", CommitEveryN=" + n + ", UseIndex=" + u + ", IndexAfter=" + a
      == Join(["Count=" + c, " CommitEveryN=" + n, " UseIndex=" + u, " IndexAfter=" + a], ',')
  {
    var p0, p1, p2, p3 := "Count=" + c, " CommitEveryN=" + n, " UseIndex=" + u, " IndexAfter=" + a;
    var x1 := "Count=" + c + ", CommitEveryN=" + n;
    var x2 := x1 + ", UseIndex=" + u;
    var x3 := x2 + ", IndexAfter=" + a;
    assert x1 == p0 + [','] + p1;
    assert x2 == x1 + [','] + p2;
    assert x3 == x2 + [','] + p3;
    assert [p0, p1] == [p0] + [p1];
    JoinSnoc([p0], p1, ',');
    JoinSnoc([p0, p1], p2, ',');
    assert [p0, p1] + [p2] == [p0, p1, p2];
    JoinSnoc([p0, p1, p2], p3, ',');
    assert [p0, p1, p2] + [p3] == [p0, p1, p2, p3];
  }

  /** What the rendering shows: everything but `useTransaction`. */
  datatype Shown = Shown(count: int, commitEveryN: int, useIndex: bool, indexAfter: bool)

  function ShownOf(p: BenchmarkParams): Shown {
    Shown(p.count, p.commitEveryN, p.useIndex, p.indexAfter)
  }

  /** `s` without `prefix`, if it starts with it. */
  function StripPrefix(prefix: String, s: String): Option<String> {
    if |prefix| <= |s| && s[..|prefix|] == prefix then Some(s[|prefix|..]) else None
  }

  function ParseBool(s: String): Option<bool> {
    if s == "True" then Some(true) else if s == "False" then Some(false) else None
  }

  /** Reads a rendering back. */
  function ParseRendered(s: String): Option<Shown> {
    var parts := Split(s, ',');
    if |parts| != 4 then None
    else
      var c :- StripPrefix("Count=", parts[0]);
      var n :- StripPrefix(" CommitEveryN=", parts[1]);
      var u :- StripPrefix(" UseIndex=", parts[2]);
      var a :- StripPrefix(" IndexAfter=", parts[3]);
      var count :- ParseInt32(c);
      var every :- ParseInt32(n);
      var useIndex :- ParseBool(u);
      var indexAfter :- ParseBool(a);
      Some(Shown(count, every, useIndex, indexAfter))
  }

  lemma StripPrefixOf(prefix: String, s: String)
    ensures StripPrefix(prefix, prefix + s) == Some(s)
  {
    assert (prefix + s)[..|prefix|] == prefix;
    assert (prefix + s)[|prefix|..] == s;
  }

  /** The rendering loses exactly `useTransaction`: it reads back as the
      four shown properties. */
  lemma RenderRoundTrip(p: BenchmarkParams)
    requires IsInt32(p.count) && IsInt32(p.commitEveryN)
    ensures ParseRendered(Render(p)) == Some(ShownOf(p))
  {
    RenderSplits(p);
    ParseDecimal(p.count);
    ParseDecimal(p.commitEveryN);
    ParseFields(Render(p), Decimal(p.count), Decimal(p.commitEveryN),
      BoolString(p.useIndex), BoolString(p.indexAfter), ShownOf(p));
  }

  /** A text whose comma-separated fields carry the four labels and
      readable values reads back as those values. */
  lemma ParseFields(s: String, c: String, n: String, u: String, a: String, sh: Shown)
    requires Split(s, ',') == ["Count=" + c, " CommitEveryN=" + n, " UseIndex=" + u, " IndexAfter=" + a]
    requires ParseInt32(c) == Some(sh.count) && ParseInt32(n) == Some(sh.commitEveryN)
    requires ParseBool(u) == Some(sh.useIndex) && ParseBool(a) == Some(sh.indexAfter)
    ensures ParseRendered(s) == Some(sh)
  {
    StripPrefixOf("Count=", c);
    StripPrefixOf(" CommitEveryN=", n);
    StripPrefixOf(" UseIndex=", u);
    StripPrefixOf(" IndexAfter=", a);
  }

  /** The rendering splits at its commas into its four fields. */
  lemma RenderSplits(p: BenchmarkParams)
    ensures Split(Render(p), ',') == RenderParts(p)
  {
    var ps := RenderParts(p);
    RenderShape(Decimal(p.count), Decimal(p.commitEveryN), BoolString(p.useIndex), BoolString(p.indexAfter));
    NoSepIn("Count=", Decimal(p.count), ',');
    NoSepIn(" CommitEveryN=", Decimal(p.commitEveryN), ',');
    NoSepIn(" UseIndex=", BoolString(p.useIndex), ',');
    NoSepIn(" IndexAfter=", BoolString(p.indexAfter), ',');
    SplitJoin(ps, ',');
  }

  lemma NoSepIn(a: String, b: String, sep: char)
    requires sep !in a && sep !in b
    ensures sep !in a + b
  {
  }

  /** Two parameter sets render alike exactly when they agree on everything
      but `useTransaction`. */
  lemma RenderInjective(p: BenchmarkParams, q: BenchmarkParams)
    requires IsInt32(p.count) && IsInt32(p.commitEveryN)
    requires IsInt32(q.count) && IsInt32(q.commitEveryN)
    ensures Render(p) == Render(q) <==> ShownOf(p) == ShownOf(q)
  {
    RenderRoundTrip(p);
    RenderRoundTrip(q);
  }

  // ---------------------------------------------------------------------
  // Command parameters

  /** The names declared for the tokens of a query: each token holding an
      `@` contributes its letters and digits. */
  function NamesOf(tokens: seq<String>): (names: seq<String>)
    ensures |names| <= |tokens|
    ensures forall i :: 0 <= i < |names| ==> forall c :: c in names[i] ==> IsLetterOrDigit(c)
  {
    if tokens == [] then []
    else (if '@' in tokens[0] then [LettersAndDigitsOf(tokens[0])] else []) + NamesOf(tokens[1..])
  }

  /** The parameters `CreateCommand` adds, in order: `query.Split()` cuts the
      query at every white-space character, and every piece holding an `@`
      names a parameter after its letters and digits (`(@id,` gives `id`). */
  function ParameterNames(query: String): seq<String> {
    NamesOf(SplitOn(query, SplitWhitespace))
  }

  lemma {:induction false} NamesOfConcat(a: seq<String>, b: seq<String>)
    ensures NamesOf(a + b) == NamesOf(a) + NamesOf(b)
  {
    if a != [] {
      assert (a + b)[1..] == a[1..] + b;
      NamesOfConcat(a[1..], b);
    } else {
      assert a + b == b;
    }
  }

  /** `FirstSep` is the first separator position. */
  lemma FirstSepIs(s: String, seps: set<char>, k: nat)
    requires k <= |s|
    requires k < |s| ==> s[k] in seps
    requires forall c :: c in s[..k] ==> c !in seps
    ensures FirstSep(s, seps) == k
  {
  }

  /** One step of `SplitOn` at the first separator. */
  lemma SplitOnAt(s: String, seps: set<char>, k: nat, head: String, tail: String)
    requires k == FirstSep(s, seps) && k < |s|
    requires head == s[..k] && tail == s[k + 1..]
    ensures SplitOn(s, seps) == [head] + SplitOn(tail, seps)
  {
  }

  lemma SplitOnNone(s: String, seps: set<char>)
    requires FirstSep(s, seps) == |s|
    ensures SplitOn(s, seps) == [s]
  {
  }

  /** The first separator of `a + [c] + b` is `a`'s, or `c` when `a` has
      none. */
  lemma FirstSepOfConcat(a: String, c: char, b: String, seps: set<char>)
    requires c in seps
    ensures FirstSep(a + [c] + b, seps) == FirstSep(a, seps)
  {
    var s := a + [c] + b;
    var k := FirstSep(a, seps);
    assert s[..k] == a[..k];
    assert s[k] in seps by {
      if k < |a| {
        assert s[k] == a[k];
      } else {
        assert s[k] == c;
      }
    }
    FirstSepIs(s, seps, k);
  }

  /** Splitting at a separator splits the two sides independently. */
  lemma {:induction false} SplitOnConcat(a: String, c: char, b: String, seps: set<char>)
    requires c in seps
    ensures SplitOn(a + [c] + b, seps) == SplitOn(a, seps) + SplitOn(b, seps)
    decreases |a|
  {
    var k := FirstSep(a, seps);
    FirstSepOfConcat(a, c, b, seps);
    if k == |a| {
      SplitOnNoSep(a, c, b, seps);
    } else {
      var rest := a[k + 1..];
      SplitOnConcat(rest, c, b, seps);
      SliceAround(a, c, b, k);
      SplitOnConcatStep(a + [c] + b, a, b, seps, k);
    }
  }

  /** When `a` holds no separator, `c` is where the split happens. */
  lemma SplitOnNoSep(a: String, c: char, b: String, seps: set<char>)
    requires c in seps && FirstSep(a, seps) == |a|
    requires FirstSep(a + [c] + b, seps) == |a|
    ensures SplitOn(a + [c] + b, seps) == SplitOn(a, seps) + SplitOn(b, seps)
  {
    var s := a + [c] + b;
    assert s[..|a|] == a && s[|a| + 1..] == b;
    SplitOnAt(s, seps, |a|, a, b);
    SplitOnNone(a, seps);
  }

  /** When `a` has a separator at `k` and `s` agrees with it up to there,
      both splits take the same first part and continue on what follows
      it. */
  lemma SplitOnConcatStep(s: String, a: String, b: String, seps: set<char>, k: nat)
    requires k == FirstSep(a, seps) && k < |a| && k == FirstSep(s, seps) && k < |s|
    requires s[..k] == a[..k]
    requires SplitOn(s[k + 1..], seps) == SplitOn(a[k + 1..], seps) + SplitOn(b, seps)
    ensures SplitOn(s, seps) == SplitOn(a, seps) + SplitOn(b, seps)
  {
    var head, p, q := a[..k], SplitOn(a[k + 1..], seps), SplitOn(b, seps);
    SplitOnAt(s, seps, k, head, s[k + 1..]);
    SplitOnAt(a, seps, k, head, a[k + 1..]);
    ConcatAssoc([head], p, q);
  }

  lemma SliceAround(a: String, c: char, b: String, k: nat)
    requires k < |a|
    ensures (a + [c] + b)[..k] == a[..k]
    ensures (a + [c] + b)[k + 1..] == a[k + 1..] + [c] + b
  {
  }

  /** A query built from white-space-free words declares, word by word, the
      names of the words that hold an `@`. */
  lemma ParameterNamesOfWords(words: seq<String>)
    requires |words| >= 1
    requires forall i :: 0 <= i < |words| ==> forall c :: c in words[i] ==> c !in SplitWhitespace
    ensures ParameterNames(Join(words, ' ')) == NamesOf(words)
  {
    assert ' ' in SplitWhitespace;
    SplitOnJoin(words, ' ', SplitWhitespace);
  }

  /** Splitting words joined by a separator gives the words back, provided
      no word holds a separator. */
  lemma {:induction false} SplitOnJoin(words: seq<String>, sep: char, seps: set<char>)
    requires |words| >= 1 && sep in seps
    requires forall i :: 0 <= i < |words| ==> forall c :: c in words[i] ==> c !in seps
    ensures SplitOn(Join(words, sep), seps) == words
  {
    var w := words[0];
    assert w[..|w|] == w;
    FirstSepIs(w, seps, |w|);
    if |words| > 1 {
      SplitOnConcat(w, sep, Join(words[1..], sep), seps);
      SplitOnJoin(words[1..], sep, seps);
      assert words == [w] + words[1..];
    }
  }

  /** Joining two queries with white space joins their parameter lists. */
  lemma ParameterNamesConcat(q1: String, w: char, q2: String)
    requires w in SplitWhitespace
    ensures ParameterNames(q1 + [w] + q2) == ParameterNames(q1) + ParameterNames(q2)
  {
    SplitOnConcat(q1, w, q2, SplitWhitespace);
    NamesOfConcat(SplitOn(q1, SplitWhitespace), SplitOn(q2, SplitWhitespace));
  }

  // ---------------------------------------------------------------------
  // Transactions and the late index

  /** `CheckIfCommit(iteration)`: whether the open transaction is committed
      and a new one begun. The remainder is C#'s, which is negative for a
      negative iteration. */
  function CheckIfCommit(p: BenchmarkParams, iteration: int): (commit: bool)
    ensures commit ==> p.useTransaction && p.commitEveryN > 0
    ensures iteration >= 0 ==>
      (commit <==> p.useTransaction && p.commitEveryN > 0 && iteration % p.commitEveryN == p.commitEveryN - 1)
    ensures iteration < 0 ==> (commit <==> p.useTransaction && p.commitEveryN == 1)
  {
    p.useTransaction && p.commitEveryN > 0 && TruncRem(iteration, p.commitEveryN) + 1 == p.commitEveryN
  }

  /** Number of commits over the iterations `0 .. k-1`. */
  function Commits(p: BenchmarkParams, k: nat): nat {
    if k == 0 then 0 else Commits(p, k - 1) + (if CheckIfCommit(p, k - 1) then 1 else 0)
  }

  lemma DivStep(k: nat, n: nat)
    requires n > 0
    ensures (k + 1) / n == k / n + (if k % n == n - 1 then 1 else 0)
  {
    var q, r := k / n, k % n;
    if r == n - 1 {
      DivUnique(k + 1, n, q + 1, 0);
    } else {
      DivUnique(k + 1, n, q, r + 1);
    }
  }

  /** Over `k` iterations one commit happens per full batch of
      `commitEveryN`, at the batch's last iteration. */
  lemma {:induction false} CommitsPerBatch(p: BenchmarkParams, k: nat)
    requires p.useTransaction && p.commitEveryN > 0
    ensures Commits(p, k) == k / p.commitEveryN
  {
    if k > 0 {
      CommitsPerBatch(p, k - 1);
      DivStep(k - 1, p.commitEveryN);
    }
  }

  /** `CheckIfCreateIndex`: the index is built after filling exactly when it
      was not created up front and the late build is asked for. */
  function CheckIfCreateIndex(p: BenchmarkParams): (create: bool)
    ensures create ==> !p.useIndex
    ensures create <==> !p.useIndex && p.indexAfter
  {
    !p.useIndex && p.indexAfter
  }

  /** Whether the table ends up indexed: up front or late. */
  predicate Indexed(p: BenchmarkParams) {
    p.useIndex || CheckIfCreateIndex(p)
  }

  // ---------------------------------------------------------------------
  // Row order

  /** `long.CompareTo`: -1, 0 or 1. */
  function CompareLong(a: int, b: int): int {
    if a < b then -1 else if a > b then 1 else 0
  }

  /** `string.Compare(a, b, StringComparison.Ordinal)`: the difference of
      the first differing characters, or of the lengths when one string is a
      prefix of the other. */
  function CompareOrdinal(a: String, b: String): int {
    if a == [] || b == [] then |a| - |b|
    else if a[0] != b[0] then (a[0] as int) - (b[0] as int)
    else CompareOrdinal(a[1..], b[1..])
  }

  /** `TupleComparer.Compare`: the numbers first, then the strings. */
  function TupleCompare(x: (int, String), y: (int, String)): int {
    var r := CompareLong(x.0, y.0);
    if r != 0 then r else CompareOrdinal(x.1, y.1)
  }

  lemma {:induction false} OrdinalZero(a: String, b: String)
    ensures CompareOrdinal(a, b) == 0 <==> a == b
  {
    if a != [] && b != [] && a[0] == b[0] {
      OrdinalZero(a[1..], b[1..]);
      assert a == [a[0]] + a[1..] && b == [b[0]] + b[1..];
    }
  }

  lemma {:induction false} OrdinalAntisymmetric(a: String, b: String)
    ensures CompareOrdinal(a, b) == -CompareOrdinal(b, a)
  {
    if a != [] && b != [] && a[0] == b[0] {
      OrdinalAntisymmetric(a[1..], b[1..]);
    }
  }

  lemma {:induction false} OrdinalTransitive(a: String, b: String, c: String)
    requires CompareOrdinal(a, b) <= 0 && CompareOrdinal(b, c) <= 0
    ensures CompareOrdinal(a, c) <= 0
  {
    if a != [] && b != [] && c != [] && a[0] == b[0] && b[0] == c[0] {
      OrdinalTransitive(a[1..], b[1..], c[1..]);
    }
  }

  /** "Sorts no later than" under `TupleComparer`. */
  function TupleLe(x: (int, String), y: (int, String)): bool {
    TupleCompare(x, y) <= 0
  }

  /** The comparer returns 0 for equal rows only and is antisymmetric. */
  lemma TupleCompareSpec(x: (int, String), y: (int, String))
    ensures TupleCompare(x, y) == 0 <==> x == y
    ensures TupleCompare(x, y) == -TupleCompare(y, x)
  {
    OrdinalZero(x.1, y.1);
    OrdinalAntisymmetric(x.1, y.1);
  }

  /** The comparer is a total order, so `List.Sort` has one possible
      result. */
  lemma TupleLeTotal()
    ensures TotalOrder(TupleLe)
  {
    forall x: (int, String), y: (int, String)
      ensures TupleLe(x, y) || TupleLe(y, x)
    {
      TupleCompareSpec(x, y);
    }
    forall x: (int, String), y: (int, String), z: (int, String) | TupleLe(x, y) && TupleLe(y, z)
      ensures TupleLe(x, z)
    {
      if x.0 == y.0 && y.0 == z.0 {
        OrdinalTransitive(x.1, y.1, z.1);
      }
    }
    forall x: (int, String), y: (int, String) | TupleLe(x, y) && TupleLe(y, x)
      ensures x == y
    {
      TupleCompareSpec(x, y);
    }
  }

  /** `entries.Sort(new TupleComparer())`. */
  function SortEntries(entries: seq<(int, String)>): (r: seq<(int, String)>)
    ensures multiset(r) == multiset(entries)
    ensures forall i, j :: 0 <= i < j < |r| ==> TupleCompare(r[i], r[j]) <= 0
    ensures forall i, j :: 0 <= i < j < |r| ==> r[i].0 <= r[j].0
  {
    TupleLeTotal();
    var r := InsertionSort(entries, TupleLe);
    assert forall i, j :: 0 <= i < j < |r| ==> TupleLe(r[i], r[j]);
    r
  }

  /** Whatever order the unstable sort leaves rows in, it is a sorted
      permutation and hence this one. */
  lemma SortEntriesUnique(entries: seq<(int, String)>, sorted: seq<(int, String)>)
    requires multiset(sorted) == multiset(entries)
    requires forall i, j :: 0 <= i < j < |sorted| ==> TupleCompare(sorted[i], sorted[j]) <= 0
    ensures sorted == SortEntries(entries)
  {
    TupleLeTotal();
    SortedUnique(sorted, SortEntries(entries), TupleLe);
  }

  // ---------------------------------------------------------------------
  // Parameter grids

  /** The three index variants of the insert benchmark, in yield order:
      no index, index built late, index built up front. */
  function IndexVariants(count: int, every: int): seq<BenchmarkParams> {
    [Params(count, every, false, false), Params(count, every, false, true), Params(count, every, true, false)]
  }

  /** The inner loop over `commitEveryNs`, with its skip rule. */
  function GridRow(count: int, everies: seq<int>): seq<BenchmarkParams> {
    if everies == [] then []
    else
      var e := everies[0];
      (if e > 0 && count <= e then [] else IndexVariants(count, e)) + GridRow(count, everies[1..])
  }

  /** The outer loop over `counts`. */
  function Grid(counts: seq<int>, everies: seq<int>): seq<BenchmarkParams> {
    if counts == [] then [] else GridRow(counts[0], everies) + Grid(counts[1..], everies)
  }

  /** `SQLiteInsertBenchmark.ValidParams()`. */
  function InsertValidParams(): seq<BenchmarkParams> {
    Grid([10000, 100000, 1000000], [0])
  }

  /** With the single commit interval 0 the skip rule never fires: the grid
      is each count's three index variants, counts in order. */
  lemma GridOfZero(counts: seq<int>)
    ensures |Grid(counts, [0])| == 3 * |counts|
    ensures forall i, j :: 0 <= i < |counts| && 0 <= j < 3 ==>
      Grid(counts, [0])[3 * i + j] == IndexVariants(counts[i], 0)[j]
  {
    GridZeroLength(counts);
    forall i, j | 0 <= i < |counts| && 0 <= j < 3
      ensures Grid(counts, [0])[3 * i + j] == IndexVariants(counts[i], 0)[j]
    {
      GridZeroAt(counts, i, j);
    }
  }

  lemma GridZeroCons(counts: seq<int>)
    requires counts != []
    ensures Grid(counts, [0]) == IndexVariants(counts[0], 0) + Grid(counts[1..], [0])
  {
    GridRowSkip(counts[0], 0);
  }

  lemma {:induction false} GridZeroLength(counts: seq<int>)
    ensures |Grid(counts, [0])| == 3 * |counts|
  {
    if counts != [] {
      GridZeroCons(counts);
      GridZeroLength(counts[1..]);
    }
  }

  lemma {:induction false} GridZeroAt(counts: seq<int>, i: int, j: int)
    requires 0 <= i < |counts| && 0 <= j < 3
    requires 3 * i + j < |Grid(counts, [0])|
    ensures Grid(counts, [0])[3 * i + j] == IndexVariants(counts[i], 0)[j]
  {
    GridZeroCons(counts);
    GridZeroLength(counts[1..]);
    var row, rest := IndexVariants(counts[0], 0), Grid(counts[1..], [0]);
    assert |row| == 3;
    ConcatIndex(row, rest, 3 * i + j);
    if i > 0 {
      GridZeroAt(counts[1..], i - 1, j);
      assert counts[i] == counts[1..][i - 1];
    }
  }

  /** A positive interval not below the count is skipped; any other
      interval yields the three variants. */
  lemma GridRowSkip(count: int, e: int)
    ensures GridRow(count, [e]) == if e > 0 && count <= e then [] else IndexVariants(count, e)
  {
    assert GridRow(count, [e][1..]) == [];
  }

  /** The insert grid: nine parameter sets, three per count, with the table
      indexed by every variant except the first; none of them ever
      commits, since the interval is 0. */
  lemma InsertValidParamsSpec()
    ensures |InsertValidParams()| == 9
    ensures forall i :: 0 <= i < 9 ==>
      var p := InsertValidParams()[i];
      && p.count == [10000, 100000, 1000000][i / 3]
      && p.useTransaction
      && (Indexed(p) <==> i % 3 != 0)
      && (CheckIfCreateIndex(p) <==> i % 3 == 1)
      && forall k :: !CheckIfCommit(p, k)
  {
    var counts := [10000, 100000, 1000000];
    var v0, v1, v2 := IndexVariants(10000, 0), IndexVariants(100000, 0), IndexVariants(1000000, 0);
    assert InsertValidParams() == v0 + v1 + v2 by {
      GridRowSkip(10000, 0);
      GridRowSkip(100000, 0);
      GridRowSkip(1000000, 0);
      assert Grid(counts[1..][1..][1..], [0]) == [];
      assert Grid(counts[1..][1..], [0]) == v2;
      assert Grid(counts[1..], [0]) == v1 + v2;
    }
    forall i | 0 <= i < 9
      ensures var p := InsertValidParams()[i];
        && p.count == counts[i / 3]
        && p.useTransaction
        && (Indexed(p) <==> i % 3 != 0)
        && (CheckIfCreateIndex(p) <==> i % 3 == 1)
        && forall k :: !CheckIfCommit(p, k)
    {
      var q := if i < 3 then 0 else if i < 6 then 1 else 2;
      DivUnique(i, 3, q, i - 3 * q);
      assert InsertValidParams()[i] == IndexVariants(counts[q], 0)[i - 3 * q];
      IndexVariantZero(counts[q], i - 3 * q);
    }
  }

  /** Each variant at interval 0: indexed unless it is the first, built late
      only for the second, never committing. */
  lemma IndexVariantZero(count: int, j: int)
    requires 0 <= j < 3
    ensures var p := IndexVariants(count, 0)[j];
      && p.count == count
      && p.useTransaction
      && (Indexed(p) <==> j != 0)
      && (CheckIfCreateIndex(p) <==> j == 1)
      && forall k :: !CheckIfCommit(p, k)
  {
  }

  /** `SQLiteSelectBenchmark.ValidParams()`. */
  function SelectValidParams(): seq<BenchmarkParams> {
    [Params(10000, 0, true, false)]
  }

  /** The select benchmark runs once, on an indexed table inside one
      transaction that is never renewed. */
  lemma SelectValidParamsSpec()
    ensures |SelectValidParams()| == 1
    ensures var p := SelectValidParams()[0];
      p.count == 10000 && Indexed(p) && !CheckIfCreateIndex(p) && p.useTransaction
      && forall k :: !CheckIfCommit(p, k)
  {
  }
}
