/** The character filter of the XML output (WellFormedXmlWriter.cs): text is
    scanned as UTF-16 code units, every unit that may not appear in an XML
    document is written as a `\xHH` or `\uHHHH` escape, and well-formed
    surrogate pairs pass through. */
module XmlChars {
  import opened Wrappers

  /** A UTF-16 code unit (a C# `char`), surrogates included. */
  type CodeUnit = x: int | 0 <= x < 0x1_0000

  /** The `Char` production of section 2.2 of the XML 1.0 specification:
      tab, line feed, carriage return and the three permitted ranges. */
  ghost predicate IsXmlChar(ch: int) {
    || ch == 0x9 || ch == 0xA || ch == 0xD
    || 0x20 <= ch <= 0xD7FF
    || 0xE000 <= ch <= 0xFFFD
    || 0x10000 <= ch <= 0x10FFFF
  }

  /** `IsInvalid`: the cascade of range tests; it rejects exactly what the
      XML `Char` production excludes. */
  function IsInvalid(ch: int): (r: bool)
    ensures r <==> !IsXmlChar(ch)
  {
    if ch == 9 || ch == 10 || ch == 13 then false
    else if ch < 32 then true
    else if ch < 0xD800 then false
    else if ch < 0xE000 then true
    else if ch < 0xFFFE then false
    else if ch < 0x10000 then true
    else if ch < 0x110000 then false
    else true
  }

  predicate IsHighSurrogate(c: int) {
    0xD800 <= c < 0xDC00
  }

  predicate IsLowSurrogate(c: int) {
    0xDC00 <= c < 0xE000
  }

  /** Unit `k` of the range `[start, end)` belongs to a surrogate pair that
      lies wholly inside the range. */
  predicate Paired(s: seq<CodeUnit>, start: int, end: int, k: int)
    requires 0 <= start <= k < end <= |s|
  {
    || (IsHighSurrogate(s[k]) && k + 1 < end && IsLowSurrogate(s[k + 1]))
    || (start < k && IsHighSurrogate(s[k - 1]) && IsLowSurrogate(s[k]))
  }

  /** Unit `k` must be escaped: it is not an XML character and, when
      surrogates are allowed, not half of a pair. */
  predicate Stray(s: seq<CodeUnit>, start: int, end: int, allow: bool, k: int)
    requires 0 <= start <= k < end <= |s|
  {
    IsInvalid(s[k]) && (!allow || !Paired(s, start, end, k))
  }

  /** No unit of `[start, upto)` is stray (strayness judged in `[start, end)`). */
  ghost predicate StrayFree(s: seq<CodeUnit>, start: int, end: int, upto: int, allow: bool)
    requires 0 <= start <= upto <= end <= |s|
  {
    forall k | start <= k < upto :: !Stray(s, start, end, allow, k)
  }

  /** `r` is the answer `IndexOfInvalid` should give for `[start, end)`: the
      first stray unit, or -1 when there is none. */
  ghost predicate FirstStray(s: seq<CodeUnit>, start: int, end: int, allow: bool, r: int)
    requires 0 <= start <= end <= |s|
  {
    || (r == -1 && StrayFree(s, start, end, end, allow))
    || (start <= r < end && Stray(s, start, end, allow, r) && StrayFree(s, start, end, r, allow))
  }

  /** The `for` loop of `IndexOfInvalid` from position `i`: an invalid unit
      is reported unless surrogates are allowed and it is a high surrogate
      followed by a low one, in which case both are skipped. */
  function ScanInvalid(s: seq<CodeUnit>, i: int, end: int, allow: bool): (r: int)
    requires 0 <= i <= end <= |s|
    ensures r == -1 || i <= r < end
    decreases end - i
  {
    if i == end then -1
    else if IsInvalid(s[i]) then
      if !allow || i + 1 == end || s[i] < 0xD800 || s[i] >= 0xDC00 || s[i + 1] < 0xDC00 || s[i + 1] >= 0xE000
      then i
      else ScanInvalid(s, i + 2, end, allow)
    else ScanInvalid(s, i + 1, end, allow)
  }

  /** The scan finds the first stray unit, provided it starts on a unit
      boundary: nothing before it is stray and it does not sit on the low
      half of a pair. */
  lemma {:induction false} ScanFindsFirstStray(s: seq<CodeUnit>, start: int, i: int, end: int, allow: bool)
    requires 0 <= start <= i <= end <= |s|
    requires StrayFree(s, start, end, i, allow)
    requires allow && start < i ==> !IsHighSurrogate(s[i - 1])
    ensures FirstStray(s, start, end, allow, ScanInvalid(s, i, end, allow))
    decreases end - i
  {
    if i == end {
    } else if IsInvalid(s[i]) {
      if !allow || i + 1 == end || s[i] < 0xD800 || s[i] >= 0xDC00 || s[i + 1] < 0xDC00 || s[i + 1] >= 0xE000 {
        assert Stray(s, start, end, allow, i);
      } else {
        assert Paired(s, start, end, i);
        assert Paired(s, start, end, i + 1);
        assert StrayFree(s, start, end, i + 2, allow) by {
          forall k | start <= k < i + 2 ensures !Stray(s, start, end, allow, k) {
            if k < i {
              assert !Stray(s, start, end, allow, k);
            }
          }
        }
        ScanFindsFirstStray(s, start, i + 2, end, allow);
      }
    } else {
      assert StrayFree(s, start, end, i + 1, allow) by {
        forall k | start <= k < i + 1 ensures !Stray(s, start, end, allow, k) {
          if k < i {
            assert !Stray(s, start, end, allow, k);
          }
        }
      }
      ScanFindsFirstStray(s, start, i + 1, end, allow);
    }
  }

  /** `IndexOfInvalid(string, bool)`: the index of the first unit that must
      be escaped, or -1 when the whole text may be written as it is. */
  function IndexOfInvalid(s: seq<CodeUnit>, allow: bool): (r: int)
    ensures FirstStray(s, 0, |s|, allow, r)
  {
    ScanFindsFirstStray(s, 0, 0, |s|, allow);
    ScanInvalid(s, 0, |s|, allow)
  }

  /** `IndexOfInvalid(char[], int, int, bool)`: the same search over the
      slice `[start, start + length)`. A slice that runs past the array is
      an `ArgumentOutOfRangeException`; a non-empty slice that starts before
      the array fails on its first read; an empty or negative-length slice
      holds nothing to report. */
  method IndexOfInvalidIn(s: seq<CodeUnit>, start: int, length: int, allow: bool) returns (r: Result<int>)
    ensures r.Err? <==> |s| < start + length || (start < 0 && 0 < length)
    ensures |s| < start + length ==> r == Err(ArgumentOutOfRangeException("length"))
    ensures r.Ok? && length <= 0 ==> r.value == -1
    ensures r.Ok? && 0 < length ==> FirstStray(s, start, start + length, allow, r.value)
  {
    var end := start + length;
    if |s| < end {
      return Err(ArgumentOutOfRangeException("length"));
    }
    if end <= start {
      return Ok(-1);
    }
    if start < 0 {
      return Err(IndexOutOfRangeException);
    }
    var i := start;
    while i < end
      invariant start <= i <= end
      invariant StrayFree(s, start, end, i, allow)
      invariant allow && start < i ==> !IsHighSurrogate(s[i - 1])
      decreases end - i
    {
      if IsInvalid(s[i]) {
        if !allow || i + 1 == end || s[i] < 0xD800 || s[i] >= 0xDC00 || s[i + 1] < 0xDC00 || s[i + 1] >= 0xE000 {
          assert Stray(s, start, end, allow, i);
          return Ok(i);
        }
        assert Paired(s, start, end, i + 1);
        i := i + 2;
      } else {
        i := i + 1;
      }
    }
    return Ok(-1);
  }

  /** An upper-case hexadecimal digit as a code unit. */
  function HexDigit(d: int): (r: CodeUnit)
    requires 0 <= d < 16
    ensures 0x30 <= r <= 0x39 || 0x41 <= r <= 0x46
  {
    if d < 10 then 0x30 + d else 0x41 + (d - 10)
  }

  /** The value of a hexadecimal digit unit (the inverse of `HexDigit`). */
  function DigitOf(c: CodeUnit): int {
    if 0x30 <= c <= 0x39 then c - 0x30
    else if 0x41 <= c <= 0x46 then c - 0x41 + 10
    else 0
  }

  function Pow16(n: nat): (r: nat)
    ensures 0 < r
  {
    if n == 0 then 1 else 16 * Pow16(n - 1)
  }

  /** `{0:Xn}`: `v` in `n` upper-case hexadecimal digits, leading zeros
      included. */
  function Hex(v: nat, n: nat): (r: seq<CodeUnit>)
    requires v < Pow16(n)
    ensures |r| == n
    ensures forall i :: 0 <= i < |r| ==> 0x30 <= r[i] <= 0x39 || 0x41 <= r[i] <= 0x46
  {
    if n == 0 then [] else Hex(v / 16, n - 1) + [HexDigit(v % 16)]
  }

  /** The number a string of hexadecimal digits spells. */
  function HexValue(s: seq<CodeUnit>): int {
    if |s| == 0 then 0 else 16 * HexValue(s[..|s| - 1]) + DigitOf(s[|s| - 1])
  }

  /** Reading the digits back gives the value that was written. */
  lemma {:induction false} HexRoundTrip(v: nat, n: nat)
    requires v < Pow16(n)
    ensures HexValue(Hex(v, n)) == v
  {
    if n > 0 {
      var h := Hex(v, n);
      assert h[..n - 1] == Hex(v / 16, n - 1);
      HexRoundTrip(v / 16, n - 1);
      assert DigitOf(h[n - 1]) == v % 16;
    }
  }

  /** The escape `WriteChars` writes for a stray unit: `\x` and two digits
      below 0x80, `\u` and four digits otherwise. */
  function Escape(c: CodeUnit): (r: seq<CodeUnit>)
    ensures |r| == if c < 0x80 then 4 else 6
    ensures r[0] == 0x5C && r[1] == (if c < 0x80 then 0x78 else 0x75)
    ensures forall i :: 0 <= i < |r| ==> !IsInvalid(r[i])
  {
    if c < 0x80 then [0x5C, 0x78] + Hex(c, 2) else [0x5C, 0x75] + Hex(c, 4)
  }

  /** An escape can be read back: its digits spell the escaped unit. */
  lemma EscapeRoundTrip(c: CodeUnit)
    ensures HexValue(Escape(c)[2..]) == c
  {
    if c < 0x80 {
      assert Escape(c)[2..] == Hex(c, 2);
      HexRoundTrip(c, 2);
    } else {
      assert Escape(c)[2..] == Hex(c, 4);
      HexRoundTrip(c, 4);
    }
  }

  /** What the filter writes for unit `k`: its escape when it is stray in
      `[base, end)`, the unit itself otherwise. */
  function Piece(s: seq<CodeUnit>, base: int, end: int, k: int): seq<CodeUnit>
    requires 0 <= base <= k < end <= |s|
  {
    if Stray(s, base, end, true, k) then Escape(s[k]) else [s[k]]
  }

  /** The filtered text of units `[lo, hi)`, strayness judged in
      `[base, end)`: the reference the writer is proved against. */
  function Render(s: seq<CodeUnit>, base: int, end: int, lo: int, hi: int): seq<CodeUnit>
    requires 0 <= base <= lo <= hi <= end <= |s|
    decreases hi - lo
  {
    if lo == hi then [] else Render(s, base, end, lo, hi - 1) + Piece(s, base, end, hi - 1)
  }

  /** Units that are not stray are written as they are. */
  lemma {:induction false} RenderClean(s: seq<CodeUnit>, base: int, end: int, lo: int, hi: int)
    requires 0 <= base <= lo <= hi <= end <= |s|
    requires forall k | lo <= k < hi :: !Stray(s, base, end, true, k)
    ensures Render(s, base, end, lo, hi) == s[lo..hi]
    decreases hi - lo
  {
    if lo < hi {
      RenderClean(s, base, end, lo, hi - 1);
      assert s[lo..hi] == s[lo..hi - 1] + [s[hi - 1]];
    }
  }

  /** The rendering of a range is the rendering of its two halves. */
  lemma {:induction false} RenderSplit(s: seq<CodeUnit>, base: int, end: int, lo: int, mid: int, hi: int)
    requires 0 <= base <= lo <= mid <= hi <= end <= |s|
    ensures Render(s, base, end, lo, hi) == Render(s, base, end, lo, mid) + Render(s, base, end, mid, hi)
    decreases hi - mid
  {
    if mid < hi {
      RenderSplit(s, base, end, lo, mid, hi - 1);
    }
  }

  /** Moving the start of the range forward to `base'` changes no unit's
      strayness, as long as `base'` does not cut a surrogate pair. */
  lemma StrayRebase(s: seq<CodeUnit>, base: int, base': int, end: int, k: int)
    requires 0 <= base <= base' <= k < end <= |s|
    requires base' == base || !(IsHighSurrogate(s[base' - 1]) && IsLowSurrogate(s[base']))
    ensures Stray(s, base', end, true, k) == Stray(s, base, end, true, k)
  {
  }

  lemma {:induction false} RenderRebase(s: seq<CodeUnit>, base: int, base': int, end: int, hi: int)
    requires 0 <= base <= base' <= hi <= end <= |s|
    requires base' == base || base' == end || !(IsHighSurrogate(s[base' - 1]) && IsLowSurrogate(s[base']))
    ensures Render(s, base', end, base', hi) == Render(s, base, end, base', hi)
    decreases hi - base'
  {
    if base' < hi {
      RenderRebase(s, base, base', end, hi - 1);
      StrayRebase(s, base, base', end, hi - 1);
    }
  }

  /** `WriteChars(text, idx, length)`: repeatedly find the next stray unit,
      write the clean run before it and then its escape, and finally write
      the clean tail. The output is the filtered slice. */
  method WriteChars(text: seq<CodeUnit>, idx: int, length: int) returns (out: seq<CodeUnit>)
    requires 0 <= idx && 0 <= length && idx + length <= |text|
    ensures out == Render(text, idx, idx + length, idx, idx + length)
  {
    var end := idx + length;
    var start := idx;
    out := [];
    while true
      invariant idx <= start <= end
      invariant start == idx || start == end || !(IsHighSurrogate(text[start - 1]) && IsLowSurrogate(text[start]))
      invariant out == Render(text, idx, end, idx, start)
      decreases end - start
    {
      var i := ScanInvalid(text, start, end, true);
      ScanFindsFirstStray(text, start, start, end, true);
      if i < 0 {
        break;
      }
      forall k | start <= k <= i ensures Stray(text, start, end, true, k) == Stray(text, idx, end, true, k) {
        StrayRebase(text, idx, start, end, k);
      }
      RenderClean(text, idx, end, start, i);
      RenderSplit(text, idx, end, idx, start, i);
      out := out + text[start..i] + Escape(text[i]);
      start := i + 1;
    }
    forall k | start <= k < end ensures !Stray(text, idx, end, true, k) {
      StrayRebase(text, idx, start, end, k);
    }
    RenderClean(text, idx, end, start, end);
    RenderSplit(text, idx, end, idx, start, end);
    out := out + text[start..end];
  }

  /** `WriteString(text)`: text with nothing to escape goes to the
      underlying writer whole; otherwise the clean prefix is copied and the
      rest goes through `WriteChars`. Either way the output is the filtered
      text. */
  method WriteString(text: seq<CodeUnit>) returns (out: seq<CodeUnit>)
    ensures out == Render(text, 0, |text|, 0, |text|)
  {
    var i := IndexOfInvalid(text, true);
    if i >= 0 {
      var rest := WriteChars(text, i, |text| - i);
      RenderClean(text, 0, |text|, 0, i);
      RenderRebase(text, 0, i, |text|, |text|);
      RenderSplit(text, 0, |text|, 0, i, |text|);
      out := text[..i] + rest;
    } else {
      RenderClean(text, 0, |text|, 0, |text|);
      out := text;
    }
  }

  /** Text in which nothing is stray is written unchanged. */
  lemma CleanTextUnchanged(text: seq<CodeUnit>)
    requires IndexOfInvalid(text, true) == -1
    ensures Render(text, 0, |text|, 0, |text|) == text
  {
    RenderClean(text, 0, |text|, 0, |text|);
  }
}
