/** Strings as the benchmark code handles them: decimal parsing and printing
    of integers (`int.Parse`, `ToString()`), `String.Split`, `IndexOf`,
    `Contains`, and two-digit upper-case hex (`ToString("X2")`). Numbers are
    written with the ASCII digits; `char.IsDigit` and `char.IsWhiteSpace`
    are modelled over the whole 16-bit range, letters are the ASCII ones. */
module Text {
  import opened Wrappers
  import opened Ints

  type String = seq<char>

  predicate IsDigit(c: char) {
    '0' <= c <= '9'
  }

  predicate IsLetterOrDigit(c: char) {
    IsDigit(c) || 'a' <= c <= 'z' || 'A' <= c <= 'Z'
  }

  /** The white space `int.Parse` skips around a number (its
      `AllowLeadingWhite`/`AllowTrailingWhite` set), which is also C's
      `isspace` in the "C" locale. */
  const Whitespace: set<char> := {' ', '\t', '\n', '\r', '\U{0B}', '\U{0C}'}

  /** `char.IsWhiteSpace`, the separators of the argument-less
      `String.Split()`: the Unicode space, line and paragraph separators,
      the controls U+0009 to U+000D, and U+0085. */
  const SplitWhitespace: set<char> :=
    Whitespace + {'\U{85}', '\U{A0}', '\U{1680}',
                  '\U{2000}', '\U{2001}', '\U{2002}', '\U{2003}', '\U{2004}', '\U{2005}',
                  '\U{2006}', '\U{2007}', '\U{2008}', '\U{2009}', '\U{200A}',
                  '\U{2028}', '\U{2029}', '\U{202F}', '\U{205F}', '\U{3000}'}

  /** `c` is one of the ten digits starting at code point `zero`. */
  predicate InDigitRun(c: char, zero: int) {
    zero <= c as int < zero + 10
  }

  /** `char.IsDigit`: a decimal digit (Unicode category Nd) of any script.
      A .NET `char` is a UTF-16 code unit, so only the runs below U+10000
      count. */
  predicate IsUnicodeDigit(c: char) {
    || InDigitRun(c, 0x0030) || InDigitRun(c, 0x0660) || InDigitRun(c, 0x06F0) || InDigitRun(c, 0x07C0)
    || InDigitRun(c, 0x0966) || InDigitRun(c, 0x09E6) || InDigitRun(c, 0x0A66) || InDigitRun(c, 0x0AE6)
    || InDigitRun(c, 0x0B66) || InDigitRun(c, 0x0BE6) || InDigitRun(c, 0x0C66) || InDigitRun(c, 0x0CE6)
    || InDigitRun(c, 0x0D66) || InDigitRun(c, 0x0DE6) || InDigitRun(c, 0x0E50) || InDigitRun(c, 0x0ED0)
    || InDigitRun(c, 0x0F20) || InDigitRun(c, 0x1040) || InDigitRun(c, 0x1090) || InDigitRun(c, 0x17E0)
    || InDigitRun(c, 0x1810) || InDigitRun(c, 0x1946) || InDigitRun(c, 0x19D0) || InDigitRun(c, 0x1A80)
    || InDigitRun(c, 0x1A90) || InDigitRun(c, 0x1B50) || InDigitRun(c, 0x1BB0) || InDigitRun(c, 0x1C40)
    || InDigitRun(c, 0x1C50) || InDigitRun(c, 0xA620) || InDigitRun(c, 0xA8D0) || InDigitRun(c, 0xA900)
    || InDigitRun(c, 0xA9D0) || InDigitRun(c, 0xA9F0) || InDigitRun(c, 0xAA50) || InDigitRun(c, 0xABF0)
    || InDigitRun(c, 0xFF10)
  }

  /** Every digit run starts at '0' or above, clear of white space and
      signs. */
  lemma UnicodeDigitAboveZero(c: char)
    requires IsUnicodeDigit(c)
    ensures '0' <= c
  {
  }

  predicate AllDigits(s: String) {
    forall i :: 0 <= i < |s| ==> IsDigit(s[i])
  }

  function DigitValue(c: char): nat
    requires IsDigit(c)
  {
    (c as int) - ('0' as int)
  }

  function DigitChar(d: nat): (c: char)
    requires d < 10
    ensures IsDigit(c) && DigitValue(c) == d
  {
    (('0' as int) + d) as char
  }

  /** Value of a digit string, most significant digit first. */
  function NatValue(s: String): nat
    requires AllDigits(s)
  {
    if s == [] then 0 else 10 * NatValue(s[..|s| - 1]) + DigitValue(s[|s| - 1])
  }

  /** The decimal digits `ToString()` prints for a non-negative integer. */
  function NatDigits(n: nat): (s: String)
    ensures |s| >= 1 && AllDigits(s)
    ensures NatValue(s) == n
    ensures ',' !in s && ' ' !in s && '-' !in s
  {
    if n < 10 then [DigitChar(n)]
    else
      var init := NatDigits(n / 10);
      var s := init + [DigitChar(n % 10)];
      assert s[..|s| - 1] == init;
      s
  }

  /** `ToString()` of a C# integer under the invariant culture. */
  function Decimal(n: int): (s: String)
    ensures |s| >= 1 && ',' !in s && ' ' !in s
    ensures (s[0] == '-' || IsDigit(s[0])) && IsDigit(s[|s| - 1])
  {
    if n < 0 then "-" + NatDigits(-n) else NatDigits(n)
  }

  /** `int.Parse` on a string without surrounding white space: an optional
      sign, then at least one digit, and a value that fits in 32 bits;
      anything else throws (`None`). */
  function ParseInt32(s: String): (r: Option<int>)
    ensures r.Some? ==> IsInt32(r.value)
  {
    var signed := |s| > 0 && (s[0] == '-' || s[0] == '+');
    var body := if signed then s[1..] else s;
    if body == [] || !AllDigits(body) then None
    else
      assert IsDigit(s[|s| - 1]);
      var v: int := if |s| > 0 && s[0] == '-' then 0 - NatValue(body) else NatValue(body);
      if IsInt32(v) then Some(v) else None
  }

  /** Printing a 32-bit integer and parsing it back gives the integer. */
  lemma ParseDecimal(n: int)
    requires IsInt32(n)
    ensures ParseInt32(Decimal(n)) == Some(n)
  {
    if n < 0 {
      assert Decimal(n)[1..] == NatDigits(-n);
    } else {
      assert IsDigit(Decimal(n)[0]);
    }
  }

  /** On a string of plain digits, parsing succeeds exactly when the string
      is non-empty and its value fits in 32 bits, and yields that value. */
  lemma ParseInt32Digits(s: String)
    requires AllDigits(s)
    ensures ParseInt32(s).Some? <==> s != [] && NatValue(s) <= INT32_MAX
    ensures ParseInt32(s).Some? ==> ParseInt32(s).value == NatValue(s)
  {
    if s != [] {
      assert IsDigit(s[0]);
    }
  }

  /** A string without any digit never parses. */
  lemma ParseInt32NeedsDigit(s: String)
    requires ParseInt32(s).Some?
    ensures exists i :: 0 <= i < |s| && IsDigit(s[i])
  {
    assert IsDigit(s[|s| - 1]);
  }

  lemma ParseDecimalAll()
    ensures forall n :: IsInt32(n) ==> ParseInt32(Decimal(n)) == Some(n)
  {
    forall n | IsInt32(n) {
      ParseDecimal(n);
    }
  }

  /** Number of white-space characters `s` starts with. */
  function LeadingWhite(s: String): (k: nat)
    ensures k <= |s|
    ensures forall i :: 0 <= i < k ==> s[i] in Whitespace
    ensures k < |s| ==> s[k] !in Whitespace
  {
    if s == [] || s[0] !in Whitespace then 0 else 1 + LeadingWhite(s[1..])
  }

  /** Number of white-space characters `s` ends with. */
  function TrailingWhite(s: String): (k: nat)
    ensures k <= |s|
    ensures forall i :: |s| - k <= i < |s| ==> s[i] in Whitespace
    ensures k < |s| ==> s[|s| - 1 - k] !in Whitespace
  {
    if s == [] || s[|s| - 1] !in Whitespace then 0 else 1 + TrailingWhite(s[..|s| - 1])
  }

  /** `s` without the leading and trailing white space `int.Parse` allows
      (`Whitespace`, not every `char.IsWhiteSpace` character). */
  function Trim(s: String): (t: String)
    ensures |t| <= |s|
    ensures t == [] || (t[0] !in Whitespace && t[|t| - 1] !in Whitespace)
  {
    var rest := s[LeadingWhite(s)..];
    rest[..|rest| - TrailingWhite(rest)]
  }

  /** Trimming leaves a string alone when it neither starts nor ends with
      white space. */
  lemma TrimUnchanged(s: String)
    requires s == [] || (s[0] !in Whitespace && s[|s| - 1] !in Whitespace)
    ensures Trim(s) == s
  {
    if s != [] {
      assert LeadingWhite(s) == 0;
      assert TrailingWhite(s) == 0;
    }
  }

  /** `int.Parse(s)`: surrounding white space is allowed, the rest must be
      what `ParseInt32` accepts. */
  function IntParse(s: String): (r: Option<int>)
    ensures r.Some? ==> IsInt32(r.value)
  {
    ParseInt32(Trim(s))
  }

  /** `int.Parse` of characters from '0' upwards (no white space, no sign)
      succeeds exactly on a non-empty run of ASCII digits within `int`. */
  lemma IntParseUnsigned(d: String)
    requires forall i :: 0 <= i < |d| ==> '0' <= d[i]
    ensures IntParse(d) == if d != [] && AllDigits(d) && NatValue(d) <= INT32_MAX then Some(NatValue(d)) else None
  {
    if d != [] {
      assert '0' <= d[0] && '0' <= d[|d| - 1];
    }
    TrimUnchanged(d);
    ParseInt32Unsigned(d);
  }

  /** Without a leading sign, `ParseInt32` reads the whole string as digits. */
  lemma ParseInt32Unsigned(d: String)
    requires d == [] || '0' <= d[0]
    ensures ParseInt32(d) == if d != [] && AllDigits(d) && NatValue(d) <= INT32_MAX then Some(NatValue(d)) else None
  {
    if AllDigits(d) {
      ParseInt32Digits(d);
    }
  }

  /** `int.Parse(n.ToString()) == n` for every 32-bit `n`. */
  lemma IntParseDecimal(n: int)
    requires IsInt32(n)
    ensures IntParse(Decimal(n)) == Some(n)
  {
    var s := Decimal(n);
    assert s[0] !in Whitespace && s[|s| - 1] !in Whitespace;
    TrimUnchanged(s);
    ParseDecimal(n);
  }

  /** `new string(s.Where(char.IsDigit))`: digits of every script pass. */
  function DigitsOf(s: String): (d: String)
    ensures forall i :: 0 <= i < |d| ==> IsUnicodeDigit(d[i])
    ensures |d| <= |s|
  {
    if s == [] then []
    else (if IsUnicodeDigit(s[0]) then [s[0]] else []) + DigitsOf(s[1..])
  }

  /** A digit string passes the filter unchanged. */
  lemma {:induction false} DigitsOfDigits(s: String)
    requires AllDigits(s)
    ensures DigitsOf(s) == s
  {
    if s != [] {
      assert IsDigit(s[0]) && InDigitRun(s[0], 0x0030);
      DigitsOfDigits(s[1..]);
    }
  }

  /** The filter keeps exactly the digits: every character of the result is
      a digit of `s`, and every digit of `s`, in any script, is kept. */
  lemma {:induction false} DigitsOfMembers(s: String)
    ensures forall c :: c in DigitsOf(s) <==> c in s && IsUnicodeDigit(c)
  {
    if s != [] {
      DigitsOfMembers(s[1..]);
      assert forall c :: c in s <==> c == s[0] || c in s[1..];
    }
  }

  /** `new string(s.Where(char.IsLetterOrDigit))`. */
  function LettersAndDigitsOf(s: String): (d: String)
    ensures forall i :: 0 <= i < |d| ==> IsLetterOrDigit(d[i])
    ensures forall c :: c in d <==> c in s && IsLetterOrDigit(c)
  {
    if s == [] then []
    else (if IsLetterOrDigit(s[0]) then [s[0]] else []) + LettersAndDigitsOf(s[1..])
  }

  /** `s.IndexOf(c)`: the first position of `c`, or -1. */
  function IndexOf(s: String, c: char): (r: int)
    ensures r == -1 <==> c !in s
    ensures r != -1 ==> 0 <= r < |s| && s[r] == c && c !in s[..r]
  {
    if s == [] then -1
    else if s[0] == c then 0
    else
      var k := IndexOf(s[1..], c);
      assert s[1..] == s[1..][..|s| - 1];
      if k == -1 then -1
      else
        assert s[..k + 1] == [s[0]] + s[1..][..k];
        k + 1
  }

  ghost predicate OccursAt(s: String, sub: String, i: int) {
    0 <= i && i + |sub| <= |s| && s[i..i + |sub|] == sub
  }

  /** `s.Contains(sub)` (ordinal). */
  function Contains(s: String, sub: String): (b: bool)
    ensures b <==> exists i :: OccursAt(s, sub, i)
  {
    if |s| < |sub| then false
    else if s[..|sub|] == sub then
      assert OccursAt(s, sub, 0);
      true
    else
      ContainsStep(s, sub);
      Contains(s[1..], sub)
  }

  lemma ContainsStep(s: String, sub: String)
    requires |s| >= |sub| && s[..|sub|] != sub
    ensures (exists i :: OccursAt(s, sub, i)) <==> (exists i :: OccursAt(s[1..], sub, i))
  {
    if i :| OccursAt(s, sub, i) {
      assert i != 0;
      assert OccursAt(s[1..], sub, i - 1);
    }
    if i :| OccursAt(s[1..], sub, i) {
      assert OccursAt(s, sub, i + 1);
    }
  }

  /** `String.Split` on a set of separator characters: every separator ends a
      part, so consecutive separators give empty parts and there is always
      one more part than separators. */
  function SplitOn(s: String, seps: set<char>): (parts: seq<String>)
    ensures |parts| >= 1
    decreases |s|
  {
    var k := FirstSep(s, seps);
    if k == |s| then [s]
    else [s[..k]] + SplitOn(s[k + 1..], seps)
  }

  /** No part of a split holds a separator. */
  lemma {:induction false} SplitOnPartsFree(s: String, seps: set<char>)
    ensures forall i :: 0 <= i < |SplitOn(s, seps)| ==> forall c :: c in SplitOn(s, seps)[i] ==> c !in seps
    decreases |s|
  {
    var k := FirstSep(s, seps);
    if k < |s| {
      SplitOnPartsFree(s[k + 1..], seps);
      var parts := SplitOn(s, seps);
      assert parts == [s[..k]] + SplitOn(s[k + 1..], seps);
      forall i | 0 <= i < |parts|
        ensures forall c :: c in parts[i] ==> c !in seps
      {
        if i > 0 {
          assert parts[i] == SplitOn(s[k + 1..], seps)[i - 1];
        }
      }
    }
  }

  /** Position of the first separator, or `|s|` when there is none. */
  function FirstSep(s: String, seps: set<char>): (k: nat)
    ensures k <= |s|
    ensures k < |s| ==> s[k] in seps
    ensures forall c :: c in s[..k] ==> c !in seps
  {
    if s == [] || s[0] in seps then 0
    else
      var k := FirstSep(s[1..], seps);
      assert s[..k + 1] == [s[0]] + s[1..][..k];
      k + 1
  }

  /** `String.Split(c)`. */
  function Split(s: String, sep: char): seq<String> {
    SplitOn(s, {sep})
  }

  /** `String.Join(sep, parts)`. */
  function Join(parts: seq<String>, sep: char): String {
    if parts == [] then []
    else if |parts| == 1 then parts[0]
    else parts[0] + [sep] + Join(parts[1..], sep)
  }

  /** Concatenation is associative; stated once so that proofs in a crowded
      context need not rediscover it. */
  lemma ConcatAssoc<T>(x: seq<T>, y: seq<T>, z: seq<T>)
    ensures x + (y + z) == (x + y) + z
  {
  }

  /** Indexing into a concatenation, likewise stated once. */
  lemma ConcatIndex<T>(x: seq<T>, y: seq<T>, k: int)
    requires 0 <= k < |x| + |y|
    ensures (x + y)[k] == if k < |x| then x[k] else y[k - |x|]
  {
  }

  /** Joining one more part appends a separator and the part. */
  lemma {:induction false} JoinSnoc(parts: seq<String>, last: String, sep: char)
    requires parts != []
    ensures Join(parts + [last], sep) == Join(parts, sep) + [sep] + last
  {
    var ps := parts + [last];
    if |parts| == 1 {
      assert ps[1..] == [last];
    } else {
      assert ps[1..] == parts[1..] + [last];
      JoinSnoc(parts[1..], last, sep);
      assert Join(ps, sep) == parts[0] + [sep] + (Join(parts[1..], sep) + [sep] + last);
    }
  }

  function CountChar(s: String, c: char): nat {
    if s == [] then 0 else (if s[0] == c then 1 else 0) + CountChar(s[1..], c)
  }

  /** Joining the parts of a split with the separator restores the string. */
  lemma {:induction false} JoinSplit(s: String, sep: char)
    ensures Join(Split(s, sep), sep) == s
    decreases |s|
  {
    var k := FirstSep(s, {sep});
    if k < |s| {
      JoinSplit(s[k + 1..], sep);
      var parts := Split(s, sep);
      assert parts[1..] == Split(s[k + 1..], sep);
      assert s == s[..k] + [sep] + s[k + 1..];
    }
  }

  /** Splitting a join of separator-free parts gives the parts back. */
  lemma {:induction false} SplitJoin(parts: seq<String>, sep: char)
    requires |parts| >= 1
    requires forall i :: 0 <= i < |parts| ==> sep !in parts[i]
    ensures Split(Join(parts, sep), sep) == parts
  {
    var s := Join(parts, sep);
    if |parts| == 1 {
      assert FirstSep(s, {sep}) == |s|;
    } else {
      var rest := Join(parts[1..], sep);
      assert s == parts[0] + [sep] + rest;
      FirstSepAfter(parts[0], rest, sep);
      assert s[|parts[0]| + 1..] == rest;
      assert s[..|parts[0]|] == parts[0];
      SplitJoin(parts[1..], sep);
    }
  }

  lemma FirstSepAfter(head: String, rest: String, sep: char)
    requires sep !in head
    ensures FirstSep(head + [sep] + rest, {sep}) == |head|
  {
    var s := head + [sep] + rest;
    var k := FirstSep(s, {sep});
    assert forall i :: 0 <= i < |head| ==> s[i] == head[i] && s[i] !in {sep};
    assert s[|head|] == sep;
  }

  /** The number of parts of a split is one more than the number of
      separators. */
  lemma {:induction false} SplitCount(s: String, sep: char)
    ensures |Split(s, sep)| == CountChar(s, sep) + 1
    decreases |s|
  {
    var k := FirstSep(s, {sep});
    CountPrefixFree(s[..k], sep);
    CountConcat(s[..k], s[k..], sep);
    assert s == s[..k] + s[k..];
    if k < |s| {
      assert s[k..] == [sep] + s[k + 1..];
      CountConcat([sep], s[k + 1..], sep);
      SplitCount(s[k + 1..], sep);
    } else {
      assert s[k..] == [];
    }
  }

  lemma {:induction false} CountConcat(a: String, b: String, c: char)
    ensures CountChar(a + b, c) == CountChar(a, c) + CountChar(b, c)
  {
    if a != [] {
      assert (a + b)[1..] == a[1..] + b;
      CountConcat(a[1..], b, c);
    } else {
      assert a + b == b;
    }
  }

  lemma {:induction false} CountPrefixFree(a: String, c: char)
    requires c !in a
    ensures CountChar(a, c) == 0
  {
    if a != [] {
      assert a[0] != c;
      assert forall x :: x in a[1..] ==> x in a;
      CountPrefixFree(a[1..], c);
    }
  }

  predicate IsHexDigit(c: char) {
    '0' <= c <= '9' || 'A' <= c <= 'F'
  }

  /** The upper-case hex digit of a nibble. */
  function HexDigit(v: nat): (c: char)
    requires v < 16
    ensures IsHexDigit(c)
  {
    if v < 10 then (('0' as int) + v) as char else (('A' as int) + v - 10) as char
  }

  /** `b.ToString("X2")`: two upper-case hex digits, high nibble first. */
  function Hex2(b: Byte): (s: String)
    ensures |s| == 2 && IsHexDigit(s[0]) && IsHexDigit(s[1])
  {
    [HexDigit(b / 16), HexDigit(b % 16)]
  }

  /** The hex digits of a byte string, two per byte, in byte order. */
  function HexOf(bs: seq<Byte>): (s: String)
    ensures |s| == 2 * |bs|
    ensures forall i :: 0 <= i < |s| ==> IsHexDigit(s[i])
  {
    if bs == [] then [] else Hex2(bs[0]) + HexOf(bs[1..])
  }

  function HexDigitValue(c: char): (v: nat)
    ensures v < 16
  {
    if '0' <= c <= '9' then (c as int) - ('0' as int)
    else if 'A' <= c <= 'F' then (c as int) - ('A' as int) + 10
    else 0
  }

  /** Reads two hex digits per byte; the inverse of `HexOf`. */
  function UnHex(s: String): seq<Byte>
    requires |s| % 2 == 0
  {
    if s == [] then [] else [16 * HexDigitValue(s[0]) + HexDigitValue(s[1])] + UnHex(s[2..])
  }

  /** The hex rendering loses nothing: reading it back gives the bytes. */
  lemma {:induction false} UnHexOf(bs: seq<Byte>)
    ensures UnHex(HexOf(bs)) == bs
  {
    if bs != [] {
      var b := bs[0];
      var s := HexOf(bs);
      assert s == Hex2(b) + HexOf(bs[1..]);
      assert HexDigitValue(s[0]) == b / 16;
      assert HexDigitValue(s[1]) == b % 16;
      assert s[2..] == HexOf(bs[1..]);
      UnHexOf(bs[1..]);
    }
  }
}
