/** String helpers shared by the model: prefixes and suffixes, joining,
    ordinal comparison, ASCII case mapping, and the decimal rendering and
    parsing of `int` that `Int32.ToString` and `Int32.Parse` perform. */
module Strings {
  import opened Wrappers

  predicate StartsWith(s: string, prefix: string) {
    |prefix| <= |s| && s[..|prefix|] == prefix
  }

  predicate EndsWith(s: string, suffix: string) {
    |suffix| <= |s| && s[|s| - |suffix|..] == suffix
  }

  /** The characters at the end of a string are its suffix's. */
  lemma EndsWithAt(s: string, suffix: string, i: nat)
    requires EndsWith(s, suffix) && i < |suffix|
    ensures s[|s| - |suffix| + i] == suffix[i]
  {
    assert s[|s| - |suffix|..][i] == suffix[i];
  }

  /** `String.Join(sep, parts)`. */
  function Join(parts: seq<string>, sep: string): (r: string)
    ensures |parts| == 0 ==> r == ""
    ensures |parts| == 1 ==> r == parts[0]
  {
    if |parts| == 0 then ""
    else if |parts| == 1 then parts[0]
    else Join(parts[..|parts| - 1], sep) + sep + parts[|parts| - 1]
  }

  /** The position of the first occurrence of `c`, or -1 (`String.IndexOf(char)`). */
  function IndexOf(s: string, c: char): (r: int)
    ensures -1 <= r < |s|
    ensures r == -1 <==> c !in s
    ensures r >= 0 ==> s[r] == c && c !in s[..r]
  {
    if |s| == 0 then -1
    else if s[0] == c then 0
    else
      var k := IndexOf(s[1..], c);
      assert s == [s[0]] + s[1..];
      if k == -1 then -1 else k + 1
  }

  // ---------------------------------------------------------------- ordinal

  /** A string cut at the first occurrence of a separator that the first
      part does not contain: the cut is unique. */
  lemma SplitAtSeparator(a: string, rest: string, a': string, rest': string, sep: char)
    requires sep !in a && sep !in a'
    requires a + [sep] + rest == a' + [sep] + rest'
    ensures a == a' && rest == rest'
  {
    var s := a + [sep] + rest;
    assert s[|a|] == sep && s[|a'|] == sep;
    assert a == s[..|a|] && a' == s[..|a'|];
    assert rest == s[|a| + 1..] && rest' == s[|a'| + 1..];
  }

  /** The UTF-16 code units of one character: itself below U+10000, a
      high and a low surrogate above. */
  function Utf16Units(c: char): (u: seq<int>)
    ensures 1 <= |u| <= 2
    ensures forall i :: 0 <= i < |u| ==> 0 <= u[i] < 0x1_0000
  {
    var n := c as int;
    if n < 0x1_0000 then [n]
    else [0xD800 + (n - 0x1_0000) / 0x400, 0xDC00 + (n - 0x1_0000) % 0x400]
  }

  /** A string as .NET stores it: the UTF-16 code units of its characters. */
  function Utf16(s: string): (u: seq<int>)
    ensures |u| >= |s|
  {
    if |s| == 0 then [] else Utf16Units(s[0]) + Utf16(s[1..])
  }

  /** Lexicographic order on code-unit sequences, a proper prefix first. */
  function LexUnits(u: seq<int>, v: seq<int>): (r: int)
    ensures -1 <= r <= 1
  {
    if |u| == 0 && |v| == 0 then 0
    else if |u| == 0 then -1
    else if |v| == 0 then 1
    else if u[0] < v[0] then -1
    else if u[0] > v[0] then 1
    else LexUnits(u[1..], v[1..])
  }

  /** The rank of a character in UTF-16 code-unit order: characters below
      the surrogate range keep their value, characters above U+FFFF (whose
      first unit is a surrogate) come next, and the rest of the basic plane
      last. */
  function Utf16Key(c: char): int {
    var n := c as int;
    if n < 0xD800 then n
    else if n < 0x1_0000 then n + 0x10_0000
    else n - 0x1_0000 + 0xD800
  }

  /** Sign of `String.CompareOrdinal(a, b)`: lexicographic by UTF-16 code
      unit, a proper prefix ordering before the longer string. Characters
      are compared by `Utf16Key`; `OrdinalIsUtf16` shows that this is the
      code-unit order. */
  function Ordinal(a: string, b: string): (r: int)
    ensures -1 <= r <= 1
  {
    if |a| == 0 && |b| == 0 then 0
    else if |a| == 0 then -1
    else if |b| == 0 then 1
    else if Utf16Key(a[0]) < Utf16Key(b[0]) then -1
    else if Utf16Key(a[0]) > Utf16Key(b[0]) then 1
    else Ordinal(a[1..], b[1..])
  }

  /** Distinct characters have distinct ranks. */
  lemma Utf16KeyInjective(x: char, y: char)
    requires Utf16Key(x) == Utf16Key(y)
    ensures x == y
  {
    assert x as int == y as int;
  }

  /** Between distinct characters, the first differing code unit decides,
      and it decides as the ranks do. */
  lemma Utf16UnitsDecide(x: char, y: char, u: seq<int>, v: seq<int>)
    requires x != y
    ensures LexUnits(Utf16Units(x) + u, Utf16Units(y) + v) == if Utf16Key(x) < Utf16Key(y) then -1 else 1
  {
    var n, m := x as int, y as int;
    var p, q := Utf16Units(x) + u, Utf16Units(y) + v;
    assert p[0] == Utf16Units(x)[0] && q[0] == Utf16Units(y)[0];
    if n >= 0x1_0000 && m >= 0x1_0000 && (n - 0x1_0000) / 0x400 == (m - 0x1_0000) / 0x400 {
      assert p[1..] == [Utf16Units(x)[1]] + u;
      assert q[1..] == [Utf16Units(y)[1]] + v;
      assert (n - 0x1_0000) % 0x400 != (m - 0x1_0000) % 0x400;
      assert ((n - 0x1_0000) % 0x400 < (m - 0x1_0000) % 0x400) == (n < m);
    } else if n >= 0x1_0000 && m >= 0x1_0000 {
      assert ((n - 0x1_0000) / 0x400 < (m - 0x1_0000) / 0x400) == (n < m);
    }
  }

  /** `Ordinal` is the lexicographic order of the strings' UTF-16 code
      units, which is what `String.CompareOrdinal` compares. */
  lemma {:induction false} OrdinalIsUtf16(a: string, b: string)
    ensures Ordinal(a, b) == LexUnits(Utf16(a), Utf16(b))
    decreases |a|
  {
    if |a| > 0 && |b| > 0 {
      var u, v := Utf16(a[1..]), Utf16(b[1..]);
      if a[0] == b[0] {
        OrdinalIsUtf16(a[1..], b[1..]);
        LexUnitsCommonPrefix(Utf16Units(a[0]), u, v);
      } else {
        Utf16UnitsDecide(a[0], b[0], u, v);
        assert Utf16Key(a[0]) != Utf16Key(b[0]) by {
          if Utf16Key(a[0]) == Utf16Key(b[0]) {
            Utf16KeyInjective(a[0], b[0]);
          }
        }
      }
    }
  }

  /** A common prefix does not change the order. */
  lemma {:induction false} LexUnitsCommonPrefix(p: seq<int>, u: seq<int>, v: seq<int>)
    ensures LexUnits(p + u, p + v) == LexUnits(u, v)
    decreases |p|
  {
    if |p| > 0 {
      assert (p + u)[1..] == p[1..] + u;
      assert (p + v)[1..] == p[1..] + v;
      LexUnitsCommonPrefix(p[1..], u, v);
    } else {
      assert p + u == u && p + v == v;
    }
  }

  /** The case that sets the two orders apart: U+10000 sorts after U+FFFF by
      code point but before it by code unit. */
  lemma OrdinalSurrogateExample()
    ensures Ordinal("\U{10000}", "\U{FFFF}") == -1
  {
  }

  lemma {:induction false} OrdinalZeroIffEqual(a: string, b: string)
    ensures Ordinal(a, b) == 0 <==> a == b
  {
    if |a| > 0 && |b| > 0 && Utf16Key(a[0]) == Utf16Key(b[0]) {
      Utf16KeyInjective(a[0], b[0]);
      OrdinalZeroIffEqual(a[1..], b[1..]);
      assert a == [a[0]] + a[1..];
      assert b == [b[0]] + b[1..];
    }
  }

  lemma {:induction false} OrdinalAntisymmetric(a: string, b: string)
    ensures Ordinal(a, b) == -Ordinal(b, a)
  {
    if |a| > 0 && |b| > 0 && Utf16Key(a[0]) == Utf16Key(b[0]) {
      OrdinalAntisymmetric(a[1..], b[1..]);
    }
  }

  lemma {:induction false} OrdinalTransitive(a: string, b: string, c: string)
    requires Ordinal(a, b) <= 0 && Ordinal(b, c) <= 0
    ensures Ordinal(a, c) <= 0
  {
    if |a| > 0 && |b| > 0 && |c| > 0 && Utf16Key(a[0]) == Utf16Key(b[0]) && Utf16Key(b[0]) == Utf16Key(c[0]) {
      OrdinalTransitive(a[1..], b[1..], c[1..]);
    }
  }

  // ------------------------------------------------------------ ASCII case

  function LowerAscii(c: char): char {
    if 'A' <= c <= 'Z' then (c as int + 32) as char else c
  }

  function UpperAscii(c: char): char {
    if 'a' <= c <= 'z' then (c as int - 32) as char else c
  }

  /** Upper-casing of a string, letter by letter, over the ASCII range. */
  function ToUpperAscii(s: string): (r: string)
    ensures |r| == |s|
    ensures forall i :: 0 <= i < |s| ==> r[i] == UpperAscii(s[i])
  {
    seq(|s|, i requires 0 <= i < |s| => UpperAscii(s[i]))
  }

  /** Lower-casing of a string, letter by letter, over the ASCII range. */
  function ToLowerAscii(s: string): (r: string)
    ensures |r| == |s|
    ensures forall i :: 0 <= i < |s| ==> r[i] == LowerAscii(s[i])
  {
    seq(|s|, i requires 0 <= i < |s| => LowerAscii(s[i]))
  }

  // ------------------------------------------------------------ white space

  /** `Char.IsWhiteSpace`: the Unicode space separators, the line and
      paragraph separators, and the controls U+0009 to U+000D and U+0085. */
  predicate IsWhiteSpace(c: char) {
    || c == ' ' || '\t' <= c <= '\r' || c == '\U{85}' || c == '\U{A0}' || c == '\U{1680}'
    || '\U{2000}' <= c <= '\U{200A}' || c == '\U{2028}' || c == '\U{2029}' || c == '\U{202F}'
    || c == '\U{205F}' || c == '\U{3000}'
  }

  /** `TrimStart()`: `s` without its leading white space. */
  function TrimStart(s: string): (r: string)
    ensures |r| <= |s| && r == s[|s| - |r|..]
    ensures forall i :: 0 <= i < |s| - |r| ==> IsWhiteSpace(s[i])
    ensures |r| > 0 ==> !IsWhiteSpace(r[0])
  {
    if |s| > 0 && IsWhiteSpace(s[0]) then TrimStart(s[1..]) else s
  }

  /** `TrimEnd()`: `s` without its trailing white space. */
  function TrimEnd(s: string): (r: string)
    ensures |r| <= |s| && r == s[..|r|]
    ensures forall i :: |r| <= i < |s| ==> IsWhiteSpace(s[i])
    ensures |r| > 0 ==> !IsWhiteSpace(r[|r| - 1])
  {
    if |s| > 0 && IsWhiteSpace(s[|s| - 1]) then TrimEnd(s[..|s| - 1]) else s
  }

  /** `Trim()`: white space removed at both ends. */
  function Trim(s: string): (r: string)
    ensures |r| > 0 ==> !IsWhiteSpace(r[0]) && !IsWhiteSpace(r[|r| - 1])
    ensures forall i :: 0 <= i < |s| && !IsWhiteSpace(s[i]) ==> |r| > 0
  {
    TrimEnd(TrimStart(s))
  }

  // ------------------------------------------------------------- replace

  /** `p` occurs in `s` at position `i`. */
  predicate OccursAt(s: string, p: string, i: int) {
    0 <= i && i + |p| <= |s| && s[i..i + |p|] == p
  }

  /** `p` occurs somewhere in `s`. */
  predicate Occurs(s: string, p: string) {
    exists i :: 0 <= i <= |s| && OccursAt(s, p, i)
  }

  /** `String.Replace(p, x)` (ordinal): every occurrence of `p`, found
      left to right without overlapping, replaced by `x`. */
  function Replace(s: string, p: string, x: string): (r: string)
    requires |p| > 0
    ensures |x| <= |p| ==> |r| <= |s|
    ensures |x| >= |p| ==> |r| >= |s|
    decreases |s|
  {
    if |s| < |p| then s
    else if s[..|p|] == p then x + Replace(s[|p|..], p, x)
    else [s[0]] + Replace(s[1..], p, x)
  }

  /** An occurrence not at the front is an occurrence after the first
      character. */
  lemma OccursAfterFirst(s: string, p: string)
    requires |p| > 0 && |s| >= |p| && s[..|p|] != p
    ensures Occurs(s, p) <==> Occurs(s[1..], p)
  {
    if Occurs(s, p) {
      var i :| 0 <= i <= |s| && OccursAt(s, p, i);
      assert i > 0;
      assert s[1..][i - 1..i - 1 + |p|] == s[i..i + |p|];
      assert OccursAt(s[1..], p, i - 1);
    }
    if Occurs(s[1..], p) {
      var i :| 0 <= i <= |s| - 1 && OccursAt(s[1..], p, i);
      assert s[i + 1..i + 1 + |p|] == s[1..][i..i + |p|];
      assert OccursAt(s, p, i + 1);
    }
  }

  /** Replacing changes the string exactly when the pattern occurs in it
      (and the replacement differs from the pattern). */
  lemma {:induction false} ReplaceChangesIff(s: string, p: string, x: string)
    requires |p| > 0 && x != p
    ensures Replace(s, p, x) == s <==> !Occurs(s, p)
    decreases |s|
  {
    if |s| < |p| {
      assert !Occurs(s, p);
    } else if s[..|p|] == p {
      assert OccursAt(s, p, 0);
      var rest := s[|p|..];
      var r := Replace(rest, p, x);
      assert s == p + rest;
      if |x| == |p| {
        assert (x + r)[..|x|] == x;
        assert (p + rest)[..|x|] == p;
      }
    } else {
      OccursAfterFirst(s, p);
      ReplaceChangesIff(s[1..], p, x);
      assert s == [s[0]] + s[1..];
    }
  }

  /** Replacing a pattern by itself changes nothing. */
  lemma {:induction false} ReplaceBySelf(s: string, p: string)
    requires |p| > 0
    ensures Replace(s, p, p) == s
    decreases |s|
  {
    if |s| >= |p| {
      if s[..|p|] == p {
        ReplaceBySelf(s[|p|..], p);
        assert s == p + s[|p|..];
      } else {
        ReplaceBySelf(s[1..], p);
        assert s == [s[0]] + s[1..];
      }
    }
  }

  // -------------------------------------------------- decimal int rendering

  predicate IsDigit(c: char) {
    '0' <= c <= '9'
  }

  function DigitChar(d: nat): (c: char)
    requires d < 10
    ensures IsDigit(c)
  {
    ('0' as int + d) as char
  }

  function DigitValue(c: char): (d: nat)
    requires IsDigit(c)
    ensures d < 10
  {
    c as int - '0' as int
  }

  predicate AllDigits(s: string) {
    forall i :: 0 <= i < |s| ==> IsDigit(s[i])
  }

  /** The value of a string of decimal digits, most significant first. */
  function DigitsValue(s: string): nat
    requires AllDigits(s)
  {
    if |s| == 0 then 0
    else DigitsValue(s[..|s| - 1]) * 10 + DigitValue(s[|s| - 1])
  }

  /** Shortest decimal rendering of a natural number. */
  function NatToString(n: nat): (r: string)
    ensures |r| > 0 && AllDigits(r)
    ensures DigitsValue(r) == n
    ensures |r| > 1 ==> r[0] != '0'
  {
    if n < 10 then [DigitChar(n)]
    else
      var r := NatToString(n / 10) + [DigitChar(n % 10)];
      assert r[..|r| - 1] == NatToString(n / 10);
      r
  }

  /** `Int32.ToString()` under the invariant culture. */
  function IntToString(i: int): (r: string)
    ensures |r| > 0
    ensures i >= 0 <==> r[0] != '-'
  {
    if i < 0 then "-" + NatToString(-i) else NatToString(i)
  }

  const Int32Min: int := -0x8000_0000
  const Int32Max: int := 0x7FFF_FFFF

  predicate IsInt32(i: int) {
    Int32Min <= i <= Int32Max
  }

  /** C# `int` arithmetic in an unchecked context: the result wraps around
      modulo 2^32 into the signed 32-bit range. */
  function Wrap32(x: int): (r: int)
    ensures IsInt32(r)
    ensures IsInt32(x) ==> r == x
  {
    if IsInt32(x) then x else (x - Int32Min) % 0x1_0000_0000 + Int32Min
  }

  /** The wrapped value is the one 32-bit value congruent to `x` modulo
      2^32. */
  lemma Wrap32Congruent(x: int, y: int)
    requires IsInt32(y)
    ensures (x - Wrap32(x)) % 0x1_0000_0000 == 0
    ensures (x - y) % 0x1_0000_0000 == 0 <==> y == Wrap32(x)
  {
    var m := 0x1_0000_0000;
    var r := Wrap32(x);
    var q := (x - Int32Min) / m;
    assert x - Int32Min == q * m + (x - Int32Min) % m;
    assert x - r == q * m;
    assert (x - r) % m == 0;
    if (x - y) % m == 0 {
      var k := (x - y) / m;
      assert x - y == k * m;
      assert r - y == (k - q) * m;
      assert -m < r - y < m;
      assert k - q == 0;
    }
  }

  /** The white space `NumberStyles.Integer` admits before and after a
      number: U+0009 to U+000D and U+0020. */
  predicate IsNumberWhite(c: char) {
    c == ' ' || '\t' <= c <= '\r'
  }

  predicate IsNul(c: char) {
    c == '\0'
  }

  /** The part of `s` that `Int32.Parse` reads as the number: the white
      space at both ends is ignored. */
  function NumberText(s: string): string
    decreases |s|
  {
    if |s| > 0 && IsNumberWhite(s[0]) then NumberText(s[1..])
    else if |s| > 0 && IsNumberWhite(s[|s| - 1]) then NumberText(s[..|s| - 1])
    else s
  }

  /** The digits `Int32.Parse` accepts once the padding is gone: an
      optional sign and one or more decimal digits whose value fits in
      32 bits. */
  function ReadInt32(t: string): (r: Option<int>)
    ensures r.Some? ==> IsInt32(r.value)
    ensures r.Some? ==> |t| > 0 && AllDigits(if t[0] in "+-" then t[1..] else t)
  {
    var negative := |t| > 0 && t[0] == '-';
    var digits := if |t| > 0 && (t[0] == '-' || t[0] == '+') then t[1..] else t;
    if |digits| == 0 || !AllDigits(digits) then None
    else
      var n: int := DigitsValue(digits);
      var v := if negative then -n else n;
      if IsInt32(v) then Some(v) else None
  }

  /** `Int32.Parse(s)`: white space, an optional sign, one or more decimal
      digits and white space, in the 32-bit range; anything
      else is a `FormatException` or an `OverflowException`, both
      modelled as `None`. */
  function ParseInt32(s: string): (r: Option<int>)
    ensures r.Some? ==> IsInt32(r.value)
    ensures r.Some? ==> |NumberText(s)| > 0 && AllDigits(if NumberText(s)[0] in "+-" then NumberText(s)[1..] else NumberText(s))
  {
    ReadInt32(NumberText(s))
  }

  /** Padding is exactly what `NumberText` strips: white space before and
      after the number. */
  lemma {:induction false} NumberTextPadded(pre: string, t: string, ws: string)
    requires forall i :: 0 <= i < |pre| ==> IsNumberWhite(pre[i])
    requires forall i :: 0 <= i < |ws| ==> IsNumberWhite(ws[i])
    requires |t| > 0 && !IsNumberWhite(t[0]) && !IsNumberWhite(t[|t| - 1])
    ensures NumberText(pre + t + ws) == t
    decreases |pre| + |ws|
  {
    var s := pre + t + ws;
    if |pre| > 0 {
      assert s[0] == pre[0];
      assert s[1..] == pre[1..] + t + ws;
      NumberTextPadded(pre[1..], t, ws);
    } else if |ws| > 0 {
      assert s == t + ws;
      assert s[0] == t[0];
      assert s[|s| - 1] == ws[|ws| - 1];
      assert s[..|s| - 1] == pre + t + ws[..|ws| - 1];
      NumberTextPadded(pre, t, ws[..|ws| - 1]);
    } else {
      assert s == t;
    }
  }

  /** The text between the padding is what is parsed: white space before,
      white space and then NUL characters after the number change nothing. */
  lemma ParseInt32Padded(pre: string, t: string, ws: string)
    requires forall i :: 0 <= i < |pre| ==> IsNumberWhite(pre[i])
    requires forall i :: 0 <= i < |ws| ==> IsNumberWhite(ws[i])
    requires |t| > 0 && !IsNumberWhite(t[0]) && !IsNumberWhite(t[|t| - 1])
    ensures ParseInt32(pre + t + ws) == ParseInt32(t)
  {
    NumberTextPadded(pre, t, ws);
    UnpaddedNumberText(t);
  }

  /** Text without padding is read as it is. */
  lemma UnpaddedNumberText(t: string)
    requires |t| > 0 && !IsNumberWhite(t[0]) && !IsNumberWhite(t[|t| - 1])
    ensures NumberText(t) == t
  {
  }

  /** Parsing inverts rendering on the 32-bit range. */
  lemma IntToStringRoundTrip(i: int)
    requires IsInt32(i)
    ensures ParseInt32(IntToString(i)) == Some(i)
  {
    var s := IntToString(i);
    assert s[|s| - 1] in "0123456789";
    UnpaddedNumberText(s);
    assert ParseInt32(s) == ReadInt32(s);
    if i < 0 {
      assert IntToString(i)[1..] == NatToString(-i);
    }
  }

  /** Rendering is injective: distinct counts give distinct attribute text. */
  lemma IntToStringInjective(i: int, j: int)
    requires IntToString(i) == IntToString(j)
    ensures i == j
  {
    if i < 0 {
      assert NatToString(-i) == IntToString(i)[1..];
      assert NatToString(-j) == IntToString(j)[1..];
    }
  }

  /** C# `/` on `int`: the quotient truncated toward zero. */
  function TruncDiv(a: int, b: int): (q: int)
    requires b != 0
    ensures a >= 0 && b > 0 ==> q == a / b
    ensures (a >= 0 && b > 0) || (a <= 0 && b < 0) ==> q >= 0
    ensures (a <= 0 && b > 0) || (a >= 0 && b < 0) ==> q <= 0
    ensures Abs(q) == Abs(a) / Abs(b)
  {
    var q := Abs(a) / Abs(b);
    if (a < 0) != (b < 0) then -q else q
  }

  function Abs(x: int): nat {
    if x < 0 then -x else x
  }

  /** `ReadInt32` with its two failures told apart: text that is not a
      signed digit string is a `FormatException`, a value outside the
      32-bit range an `OverflowException`. */
  function ReadInt32Result(t: string): (r: Result<int>)
    ensures r.Ok? <==> ReadInt32(t).Some?
    ensures r.Ok? ==> r.value == ReadInt32(t).value
  {
    var negative := |t| > 0 && t[0] == '-';
    var digits := if |t| > 0 && (t[0] == '-' || t[0] == '+') then t[1..] else t;
    if |digits| == 0 || !AllDigits(digits) then Err(FormatException("Input string was not in a correct format."))
    else
      var n: int := DigitsValue(digits);
      var v := if negative then -n else n;
      if IsInt32(v) then Ok(v) else Err(OverflowException)
  }

  /** `Int32.Parse(s)` with its two exceptions told apart. */
  function ParseInt32Result(s: string): (r: Result<int>)
    ensures r.Ok? <==> ParseInt32(s).Some?
    ensures r.Ok? ==> r.value == ParseInt32(s).value
  {
    ReadInt32Result(NumberText(s))
  }

  // ------------------------------------------------------------ booleans

  /** `Boolean.ToString()`. */
  function BoolToString(b: bool): string {
    if b then "True" else "False"
  }

  predicate IsWhiteOrNul(c: char) {
    IsWhiteSpace(c) || IsNul(c)
  }

  /** The part of `s` that `Boolean.Parse` compares: white space and NUL
      characters are trimmed at both ends. */
  function BoolText(s: string): string
    decreases |s|
  {
    if |s| > 0 && IsWhiteOrNul(s[0]) then BoolText(s[1..])
    else if |s| > 0 && IsWhiteOrNul(s[|s| - 1]) then BoolText(s[..|s| - 1])
    else s
  }

  /** `Boolean.Parse(s)`: "true" or "false" in any letter case, with white
      space or NUL characters around it; anything else is a
      `FormatException`. */
  function ParseBool(s: string): (r: Result<bool>)
    ensures r.Ok? <==> ToUpperAscii(BoolText(s)) == "TRUE" || ToUpperAscii(BoolText(s)) == "FALSE"
    ensures r.Ok? ==> (r.value <==> ToUpperAscii(BoolText(s)) == "TRUE")
    ensures r.Err? ==> r.error.FormatException?
  {
    var u := ToUpperAscii(BoolText(s));
    if u == "TRUE" then Ok(true)
    else if u == "FALSE" then Ok(false)
    else Err(FormatException("String was not recognized as a valid Boolean."))
  }

  /** White space and NUL characters around the text are exactly what
      `BoolText` strips. */
  lemma {:induction false} BoolTextPadded(pre: string, t: string, post: string)
    requires forall i :: 0 <= i < |pre| ==> IsWhiteOrNul(pre[i])
    requires forall i :: 0 <= i < |post| ==> IsWhiteOrNul(post[i])
    requires |t| > 0 && !IsWhiteOrNul(t[0]) && !IsWhiteOrNul(t[|t| - 1])
    ensures BoolText(pre + t + post) == t
    decreases |pre| + |post|
  {
    var s := pre + t + post;
    if |pre| > 0 {
      assert s[0] == pre[0];
      assert s[1..] == pre[1..] + t + post;
      BoolTextPadded(pre[1..], t, post);
    } else if |post| > 0 {
      assert s == t + post;
      assert s[0] == t[0];
      assert s[|s| - 1] == post[|post| - 1];
      assert s[..|s| - 1] == pre + t + post[..|post| - 1];
      BoolTextPadded(pre, t, post[..|post| - 1]);
    } else {
      assert s == t;
    }
  }

  /** White space and NUL characters around the text change nothing. */
  lemma ParseBoolPadded(pre: string, t: string, post: string)
    requires forall i :: 0 <= i < |pre| ==> IsWhiteOrNul(pre[i])
    requires forall i :: 0 <= i < |post| ==> IsWhiteOrNul(post[i])
    requires |t| > 0 && !IsWhiteOrNul(t[0]) && !IsWhiteOrNul(t[|t| - 1])
    ensures ParseBool(pre + t + post) == ParseBool(t)
  {
    BoolTextPadded(pre, t, post);
    UnpaddedBoolText(t);
  }

  /** Text without padding is compared as it is. */
  lemma UnpaddedBoolText(t: string)
    requires |t| > 0 && !IsWhiteOrNul(t[0]) && !IsWhiteOrNul(t[|t| - 1])
    ensures BoolText(t) == t
  {
  }

  /** Parsing inverts rendering, and accepts the lower-case spellings the
      API description uses. */
  lemma ParseBoolRoundTrip(b: bool)
    ensures ParseBool(BoolToString(b)) == Ok(b)
    ensures ParseBool(if b then "true" else "false") == Ok(b)
  {
    UnpaddedBoolText("True");
    UnpaddedBoolText("true");
    UnpaddedBoolText("False");
    UnpaddedBoolText("false");
    assert ToUpperAscii("True") == "TRUE";
    assert ToUpperAscii("true") == "TRUE";
    assert ToUpperAscii("False") == "FALSE";
    assert ToUpperAscii("false") == "FALSE";
  }
}
