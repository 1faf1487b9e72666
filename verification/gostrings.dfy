/** The few functions of Go's `strings`, `strconv` and `unicode` packages
    that the scanner relies on, written out at the character level so that
    their exact behaviour is part of the model. */
module GoStrings {
  import opened Symbols

  /** `unicode.IsSpace`: the Latin-1 blanks plus the Unicode White_Space
      property. */
  predicate IsSpace(ch: char) {
    || ch == '\t' || ch == '\n' || ch == '\U{B}' || ch == '\U{C}' || ch == '\r' || ch == ' '
    || ch == '\U{85}' || ch == '\U{A0}' || ch == '\U{1680}'
    || ('\U{2000}' <= ch <= '\U{200A}')
    || ch == '\U{2028}' || ch == '\U{2029}' || ch == '\U{202F}' || ch == '\U{205F}' || ch == '\U{3000}'
  }

  lemma {:induction false} WhitespaceIsSpace(ch: char)
    ensures IsWhitespace(ch) ==> IsSpace(ch)
    ensures IsSpace(ch) ==> ch != EOF && ch != TokExprStart && ch != TokExprEnd
  {
  }

  /** Number of space characters at the front of `s`. */
  function LeadingSpaces(s: string): (n: nat)
    ensures n <= |s|
    ensures forall k :: 0 <= k < n ==> IsSpace(s[k])
    ensures n < |s| ==> !IsSpace(s[n])
  {
    if |s| > 0 && IsSpace(s[0]) then 1 + LeadingSpaces(s[1..]) else 0
  }

  /** Number of space characters at the back of `s`. */
  function TrailingSpaces(s: string): (n: nat)
    ensures n <= |s|
    ensures forall k :: |s| - n <= k < |s| ==> IsSpace(s[k])
    ensures n < |s| ==> !IsSpace(s[|s| - 1 - n])
  {
    if |s| > 0 && IsSpace(s[|s| - 1]) then 1 + TrailingSpaces(s[..|s| - 1]) else 0
  }

  /** `strings.TrimSpace`: the longest infix of `s` that neither starts nor
      ends with a space, obtained by removing only spaces. */
  function TrimSpace(s: string): (r: string)
    ensures |r| <= |s|
  {
    var lead := LeadingSpaces(s);
    var tail := TrailingSpaces(s[lead..]);
    s[lead..|s| - tail]
  }

  /** The trimmed text is what is left between the leading and the trailing
      run of spaces, and it neither starts nor ends with a space. */
  lemma {:induction false} TrimSpaceSpec(s: string)
    ensures LeadingSpaces(s) + |TrimSpace(s)| <= |s|
    ensures TrimSpace(s) == s[LeadingSpaces(s)..LeadingSpaces(s) + |TrimSpace(s)|]
    ensures forall k :: LeadingSpaces(s) + |TrimSpace(s)| <= k < |s| ==> IsSpace(s[k])
    ensures TrimSpace(s) == [] || (!IsSpace(TrimSpace(s)[0]) && !IsSpace(TrimSpace(s)[|TrimSpace(s)| - 1]))
  {
    var lead := LeadingSpaces(s);
    var tail := TrailingSpaces(s[lead..]);
    TrimSlices(s, lead, tail);
  }

  lemma {:induction false} TrimSlices(s: string, lead: nat, tail: nat)
    requires lead <= |s| && tail <= |s| - lead
    ensures s[lead..][..|s| - lead - tail] == s[lead..|s| - tail]
    ensures forall k :: |s| - tail <= k < |s| ==> s[k] == s[lead..][k - lead]
  {
  }

  /** Text that is already trimmed is left alone, so trimming is idempotent. */
  lemma {:induction false} TrimSpaceFixed(s: string)
    requires s == [] || (!IsSpace(s[0]) && !IsSpace(s[|s| - 1]))
    ensures TrimSpace(s) == s
  {
    TrimSpaceSpec(s);
    assert LeadingSpaces(s) == 0;
    if s != [] {
      assert !IsSpace(s[|s| - 1]);
    }
  }

  lemma {:induction false} TrimSpaceIdempotent(s: string)
    ensures TrimSpace(TrimSpace(s)) == TrimSpace(s)
  {
    TrimSpaceFixed(TrimSpace(s));
  }

  /** A text made only of spaces trims to the empty text. */
  lemma {:induction false} TrimSpaceAllSpaces(s: string)
    requires forall k :: 0 <= k < |s| ==> IsSpace(s[k])
    ensures TrimSpace(s) == []
  {
    TrimSpaceSpec(s);
  }

  /** `strings.ToLower` restricted to ASCII: upper-case letters map to
      lower case, everything else is unchanged. */
  function ToLowerAscii(s: string): (r: string)
    ensures |r| == |s|
    ensures forall i :: 0 <= i < |s| && 'A' <= s[i] <= 'Z' ==> r[i] as int == s[i] as int + 32
    ensures forall i :: 0 <= i < |s| && !('A' <= s[i] <= 'Z') ==> r[i] == s[i]
  {
    if s == [] then []
    else [if 'A' <= s[0] <= 'Z' then (s[0] as int + 32) as char else s[0]] + ToLowerAscii(s[1..])
  }

  /** `strings.Index` for a one-character needle: the position of the first
      occurrence, or -1. */
  function IndexOf(s: string, ch: char): (r: int)
    ensures -1 <= r < |s|
    ensures r == -1 <==> ch !in s
    ensures r >= 0 ==> s[r] == ch && ch !in s[..r]
  {
    if s == [] then -1
    else if s[0] == ch then 0
    else
      var k := IndexOf(s[1..], ch);
      assert s[1..][..if k < 0 then 0 else k] == s[1..1 + if k < 0 then 0 else k];
      if k < 0 then -1 else k + 1
  }

  /** Re-joins pieces with a separator; the inverse of `Split`. */
  function Join(parts: seq<string>, sep: char): string
    requires |parts| > 0
  {
    if |parts| == 1 then parts[0] else parts[0] + [sep] + Join(parts[1..], sep)
  }

  /** `strings.Split` with a one-character separator: at least one piece,
      no piece contains the separator, and joining restores the input. */
  function Split(s: string, sep: char): (parts: seq<string>)
    ensures |parts| >= 1
    ensures forall i :: 0 <= i < |parts| ==> sep !in parts[i]
    ensures Join(parts, sep) == s
    decreases |s|
  {
    var i := IndexOf(s, sep);
    if i < 0 then [s]
    else
      var rest := Split(s[i + 1..], sep);
      assert s == s[..i] + [sep] + s[i + 1..];
      [s[..i]] + rest
  }

  /** `strings.Split` at a separator whose left part has no separator. */
  lemma {:induction false} SplitAtFirst(a: string, b: string, sep: char)
    requires sep !in a
    ensures Split(a + [sep] + b, sep) == [a] + Split(b, sep)
  {
    var s := a + [sep] + b;
    var i := IndexOf(s, sep);
    assert s[|a|] == sep;
    assert i == |a|;
    assert s[..i] == a && s[i + 1..] == b;
  }

  lemma {:induction false} SplitNone(s: string, sep: char)
    requires sep !in s
    ensures Split(s, sep) == [s]
  {
  }

  /** Every character of every part comes from the text. */
  lemma {:induction false} SplitChars(s: string, sep: char)
    ensures forall k, j :: 0 <= k < |Split(s, sep)| && 0 <= j < |Split(s, sep)[k]| ==> Split(s, sep)[k][j] in s
    decreases |s|
  {
    var parts := Split(s, sep);
    var i := IndexOf(s, sep);
    if i < 0 {
      assert parts == [s];
    } else {
      var head := s[..i];
      var rest := s[i + 1..];
      var tail := Split(rest, sep);
      assert parts == [head] + tail;
      SplitChars(rest, sep);
      forall k, j | 0 <= k < |parts| && 0 <= j < |parts[k]|
        ensures parts[k][j] in s
      {
        if k == 0 {
          assert parts[k][j] == s[j];
        } else {
          assert parts[k] == tail[k - 1];
          InSlice(s, i + 1, tail[k - 1][j]);
        }
      }
    }
  }

  lemma {:induction false} InSlice(s: string, i: nat, c: char)
    requires i <= |s| && c in s[i..]
    ensures c in s
  {
    var m :| 0 <= m < |s[i..]| && s[i..][m] == c;
    assert s[i + m] == c;
  }

  /** The first `ch` of `a + [ch] + b` is the one after `a` when `a` has none. */
  lemma {:induction false} IndexOfAt(a: string, ch: char, b: string)
    requires ch !in a
    ensures IndexOf(a + [ch] + b, ch) == |a|
  {
    var s := a + [ch] + b;
    assert s[|a|] == ch && s[..|a|] == a;
  }

  /** Trimming never brings in a character the text did not have. */
  lemma {:induction false} TrimSpaceFree(s: string, ch: char)
    requires ch !in s
    ensures ch !in TrimSpace(s)
  {
    TrimSpaceSpec(s);
    var t := TrimSpace(s);
    assert forall k :: 0 <= k < |t| ==> t[k] == s[LeadingSpaces(s) + k];
  }

  /** Neither side of a cut holds a character the whole text lacks. */
  lemma {:induction false} SliceFree(s: string, ch: char, i: nat)
    requires ch !in s && i <= |s|
    ensures ch !in s[..i] && ch !in s[i..]
  {
    assert forall k :: 0 <= k < i ==> s[..i][k] == s[k];
    assert forall k :: 0 <= k < |s| - i ==> s[i..][k] == s[i + k];
  }

  /** The simple case-fold orbit of an ASCII character: `c` folds to `a`.
      Besides the two ASCII cases, KELVIN SIGN folds to 'k' and LATIN SMALL
      LETTER LONG S folds to 's'. */
  predicate FoldsTo(c: char, a: char) {
    if 'a' <= a <= 'z' then
      c == a || c as int == a as int - 32
      || (a == 'k' && c == '\U{212A}') || (a == 's' && c == '\U{17F}')
    else c == a
  }

  /** `strings.EqualFold(s, t)` when `t` is ASCII. */
  predicate EqualFoldAscii(s: string, t: string) {
    |s| == |t| && forall i :: 0 <= i < |s| ==> FoldsTo(s[i], t[i])
  }

  // ---- strconv ----

  const MinInt64: int := -0x8000_0000_0000_0000
  const MaxInt64: int := 0x7FFF_FFFF_FFFF_FFFF

  predicate AllDigits(s: string) {
    forall i :: 0 <= i < |s| ==> IsAsciiDigit(s[i])
  }

  function DigitValue(ch: char): nat
    requires IsAsciiDigit(ch)
  {
    ch as int - '0' as int
  }

  /** The base-10 value of a run of digits. */
  function DigitsValue(s: string): nat
    requires AllDigits(s)
  {
    if s == [] then 0 else 10 * DigitsValue(s[..|s| - 1]) + DigitValue(s[|s| - 1])
  }

  /** `strconv.ParseInt(s, 10, 64)`: an optional sign, one or more decimal
      digits, and a value inside the signed 64-bit range. */
  function ParseInt64(s: string): (r: Option<int>)
    ensures r.Some? ==> MinInt64 <= r.value <= MaxInt64
    ensures r.Some? ==> |s| > 0 && AllDigits(if s[0] == '-' || s[0] == '+' then s[1..] else s)
    ensures s == [] || s == "-" || s == "+" ==> r.None?
  {
    if s == [] then None
    else
      var neg := s[0] == '-';
      var digits := if s[0] == '-' || s[0] == '+' then s[1..] else s;
      if digits == [] || !AllDigits(digits) then None
      else
        var n: int := DigitsValue(digits);
        var v := if neg then -n else n;
        if MinInt64 <= v <= MaxInt64 then Some(v) else None
  }

  function DigitChar(d: nat): (ch: char)
    requires d < 10
    ensures IsAsciiDigit(ch) && DigitValue(ch) == d
  {
    ('0' as int + d) as char
  }

  /** Decimal digits of a natural number, most significant first. */
  function Digits(n: nat): (s: string)
    ensures |s| > 0 && AllDigits(s)
  {
    if n < 10 then [DigitChar(n)] else Digits(n / 10) + [DigitChar(n % 10)]
  }

  /** `strconv.Itoa`. */
  function FormatInt(i: int): (s: string)
    ensures |s| > 0
  {
    if i < 0 then "-" + Digits(-i) else Digits(i)
  }

  /** `strconv.FormatBool`. */
  function FormatBool(b: bool): string {
    if b then "true" else "false"
  }

  lemma {:induction false} DigitsRoundTrip(n: nat)
    ensures DigitsValue(Digits(n)) == n
  {
    if n >= 10 {
      DigitsRoundTrip(n / 10);
      var s := Digits(n);
      assert s[..|s| - 1] == Digits(n / 10);
    }
  }

  /** Formatting an in-range integer and parsing it back gives the integer. */
  lemma {:induction false} FormatIntRoundTrip(i: int)
    requires MinInt64 <= i <= MaxInt64
    ensures ParseInt64(FormatInt(i)) == Some(i)
  {
    var s := FormatInt(i);
    if i < 0 {
      var d := Digits(-i);
      assert s[0] == '-' && s[1..] == d;
      DigitsRoundTrip(-i);
      var n: int := DigitsValue(d);
      assert -n == i;
    } else {
      var d := Digits(i);
      assert s == d && IsAsciiDigit(d[0]);
      DigitsRoundTrip(i);
    }
  }
}
