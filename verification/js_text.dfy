/**
  The small part of JavaScript's string semantics that the map-model builder
  relies on: values that may be `undefined`, the `\s` character class and
  `trim`, `String.prototype.split` on one character, and `parseInt` with no
  radix argument.
 */
module JsText {
  import opened Wrappers

  /** A JavaScript value that is either `undefined` or a string, e.g. `arr[i]` past the end. */
  datatype Val = Undef | Str(s: string)

  /** Template-literal and property-key conversion: `${undefined}` is "undefined". */
  function ToStr(v: Val): string
  {
    match v
    case Undef => "undefined"
    case Str(s) => s
  }

  /** JavaScript truthiness of such a value: `undefined` and "" are falsy. */
  predicate Truthy(v: Val)
  {
    v.Str? && v.s != ""
  }

  /** The line terminators, which the regular-expression `.` does not match. */
  predicate IsLineTerminator(c: char)
  {
    c == '\n' || c == '\r' || c as int == 0x2028 || c as int == 0x2029
  }

  /** The `\s` class of ECMAScript regular expressions; also what `trim` and `parseInt` skip. */
  predicate IsSpace(c: char)
  {
    var n := c as int;
    n == 0x09 || n == 0x0A || n == 0x0B || n == 0x0C || n == 0x0D || n == 0x20
    || n == 0xA0 || n == 0x1680 || (0x2000 <= n <= 0x200A) || n == 0x2028
    || n == 0x2029 || n == 0x202F || n == 0x205F || n == 0x3000 || n == 0xFEFF
  }

  predicate AllSpace(s: string)
  {
    forall i | 0 <= i < |s| :: IsSpace(s[i])
  }

  predicate NoLineTerminator(s: string)
  {
    forall i | 0 <= i < |s| :: !IsLineTerminator(s[i])
  }

  /** The number of `\s` characters `s` starts with. */
  function LeadingSpaces(s: string): (n: nat)
    ensures n <= |s|
    ensures AllSpace(s[..n])
    ensures n < |s| ==> !IsSpace(s[n])
  {
    if |s| > 0 && IsSpace(s[0]) then
      var n := 1 + LeadingSpaces(s[1..]);
      assert s[..n] == [s[0]] + s[1..][..n - 1];
      n
    else 0
  }

  /** The number of `\s` characters `s` ends with. */
  function TrailingSpaces(s: string): (n: nat)
    ensures n <= |s|
    ensures AllSpace(s[|s| - n..])
    ensures n < |s| ==> !IsSpace(s[|s| - n - 1])
  {
    if |s| > 0 && IsSpace(s[|s| - 1]) then
      var m := TrailingSpaces(s[..|s| - 1]);
      TrailingSpacesStep(s, m);
      m + 1
    else 0
  }

  /** One more space at the end extends the trailing run of the rest by one. */
  lemma {:induction false} TrailingSpacesStep(s: string, m: nat)
    requires |s| > 0 && IsSpace(s[|s| - 1]) && m <= |s| - 1
    requires AllSpace(s[..|s| - 1][|s| - 1 - m..])
    requires m < |s| - 1 ==> !IsSpace(s[..|s| - 1][|s| - 1 - m - 1])
    ensures AllSpace(s[|s| - (m + 1)..])
    ensures m + 1 < |s| ==> !IsSpace(s[|s| - (m + 1) - 1])
  {
    assert s[|s| - (m + 1)..] == s[..|s| - 1][|s| - 1 - m..] + [s[|s| - 1]];
  }

  /** Drops leading `\s` characters. */
  function TrimStart(s: string): string
  {
    s[LeadingSpaces(s)..]
  }

  /** Drops trailing `\s` characters. */
  function TrimEnd(s: string): string
  {
    s[..|s| - TrailingSpaces(s)]
  }

  /** `String.prototype.trim`: `s` without the `\s` runs at its two ends. */
  function Trim(s: string): (r: string)
    ensures |r| == 0 || (!IsSpace(r[0]) && !IsSpace(r[|r| - 1]))
    ensures var a := LeadingSpaces(s);
            && a + |r| <= |s|
            && r == s[a..a + |r|]
            && AllSpace(s[..a]) && AllSpace(s[a + |r|..])
  {
    TrimSlice(s);
    TrimEnd(TrimStart(s))
  }

  lemma {:induction false} TrimSlice(s: string)
    ensures var a, r := LeadingSpaces(s), TrimEnd(TrimStart(s));
            && a + |r| <= |s|
            && r == s[a..a + |r|]
            && AllSpace(s[a + |r|..])
  {
    var a := LeadingSpaces(s);
    var t := s[a..];
    var b := TrailingSpaces(t);
    assert TrimEnd(TrimStart(s)) == s[a..a + (|t| - b)];
    assert t[|t| - b..] == s[a + (|t| - b)..];
  }

  /** Padding a string that has no space at either end with spaces on both sides trims back to it. */
  lemma {:induction false} TrimOfPadded(p: string, m: string, q: string)
    requires AllSpace(p) && AllSpace(q)
    requires |m| == 0 || (!IsSpace(m[0]) && !IsSpace(m[|m| - 1]))
    ensures Trim(p + m + q) == m
  {
    var s := p + m + q;
    if |m| == 0 {
      assert s == (p + q) + "";
      LeadingOfPadded(p + q, "");
    } else {
      assert s == p + (m + q);
      LeadingOfPadded(p, m + q);
      assert TrimStart(s) == m + q;
      TrailingOfPadded(m, q);
      assert (m + q)[..|m + q| - |q|] == m;
    }
  }

  /** Leading spaces followed by a non-space: the run is exactly the spaces. */
  lemma {:induction false} LeadingOfPadded(p: string, x: string)
    requires AllSpace(p)
    requires |x| == 0 || !IsSpace(x[0])
    ensures LeadingSpaces(p + x) == |p|
    decreases |p|
  {
    if |p| > 0 {
      assert (p + x)[1..] == p[1..] + x;
      LeadingOfPadded(p[1..], x);
    } else {
      assert p + x == x;
    }
  }

  /** A non-space followed by trailing spaces: the run is exactly the spaces. */
  lemma {:induction false} TrailingOfPadded(x: string, q: string)
    requires AllSpace(q)
    requires |x| == 0 || !IsSpace(x[|x| - 1])
    ensures TrailingSpaces(x + q) == |q|
    decreases |q|
  {
    if |q| > 0 {
      var q' := q[..|q| - 1];
      assert (x + q)[..|x + q| - 1] == x + q';
      TrailingOfPadded(x, q');
    } else {
      assert x + q == x;
    }
  }

  /** A string with no space at either end is its own trim. */
  lemma {:induction false} TrimOfTrimmed(s: string)
    requires |s| == 0 || (!IsSpace(s[0]) && !IsSpace(s[|s| - 1]))
    ensures Trim(s) == s
  {
  }

  /** Nothing to trim in front of a string that starts with a non-space. */
  lemma {:induction false} TrimStartOfUnspaced(s: string)
    requires |s| == 0 || !IsSpace(s[0])
    ensures TrimStart(s) == s
  {
  }

  /** `s.indexOf(c)`, with `None` for -1. */
  function IndexOf(s: string, c: char): (r: Option<nat>)
    ensures r.None? ==> c !in s
    ensures r.Some? ==> r.value < |s| && s[r.value] == c && c !in s[..r.value]
  {
    if |s| == 0 then None
    else if s[0] == c then Some(0)
    else
      match IndexOf(s[1..], c)
      case None => None
      case Some(i) =>
        assert s[..i + 1] == [s[0]] + s[1..][..i];
        Some(i + 1)
  }

  /** The first occurrence is the only index `IndexOf` can report. */
  lemma {:induction false} IndexOfFirst(s: string, c: char, i: nat)
    requires i < |s| && s[i] == c && c !in s[..i]
    ensures IndexOf(s, c) == Some(i)
  {
    var r := IndexOf(s, c);
    assert s[i] in s;
    assert forall k | 0 <= k < i :: s[..i][k] == s[k];
    assert forall k | i < k <= |s| :: s[..k][i] == s[i];
  }

  /** `s.split(sep)` for a one-character separator. */
  function Split(s: string, sep: char): (parts: seq<string>)
    ensures |parts| >= 1
    ensures forall i | 0 <= i < |parts| :: sep !in parts[i]
    decreases |s|
  {
    match IndexOf(s, sep)
    case None => [s]
    case Some(i) => [s[..i]] + Split(s[i + 1..], sep)
  }

  /** `parts.join(sep)`. */
  function Join(parts: seq<string>, sep: char): string
    requires |parts| >= 1
  {
    if |parts| == 1 then parts[0] else parts[0] + [sep] + Join(parts[1..], sep)
  }

  /** Splitting loses nothing: joining the pieces gives back the text. */
  lemma {:induction false} JoinSplit(s: string, sep: char)
    ensures Join(Split(s, sep), sep) == s
    decreases |s|
  {
    match IndexOf(s, sep)
    case None =>
    case Some(i) =>
      var rest := Split(s[i + 1..], sep);
      var parts := [s[..i]] + rest;
      assert Split(s, sep) == parts;
      assert parts[1..] == rest;
      JoinSplit(s[i + 1..], sep);
      assert Join(parts, sep) == s[..i] + [sep] + s[i + 1..];
      assert s == s[..i] + [sep] + s[i + 1..];
  }

  /** Joining pieces free of the separator and splitting again gives the pieces back. */
  lemma {:induction false} SplitJoin(parts: seq<string>, sep: char)
    requires |parts| >= 1
    requires forall i | 0 <= i < |parts| :: sep !in parts[i]
    ensures Split(Join(parts, sep), sep) == parts
    decreases |parts|
  {
    if |parts| == 1 {
      assert IndexOf(parts[0], sep).None?;
    } else {
      var s := Join(parts, sep);
      var a := parts[0];
      assert s == a + [sep] + Join(parts[1..], sep);
      assert s[..|a|] == a;
      IndexOfFirst(s, sep, |a|);
      assert s[|a| + 1..] == Join(parts[1..], sep);
      SplitJoin(parts[1..], sep);
    }
  }

  /** Destructuring `const [a, b, c] = parts`: a missing position is `undefined`. */
  function Field(parts: seq<string>, i: nat): Val
  {
    if i < |parts| then Str(parts[i]) else Undef
  }

  // ---------------------------------------------------------------- parseInt

  /** The value of a digit in radix up to 36; 36 for a character that is no digit at all. */
  function DigitValue(c: char): nat
  {
    if '0' <= c <= '9' then c as nat - '0' as nat
    else if 'a' <= c <= 'z' then c as nat - 'a' as nat + 10
    else if 'A' <= c <= 'Z' then c as nat - 'A' as nat + 10
    else 36
  }

  /** The index of the first non-`\s` character at or after `i`. */
  function SkipSpaces(s: string, i: nat): (j: nat)
    requires i <= |s|
    ensures i <= j <= |s|
    ensures j < |s| ==> !IsSpace(s[j])
    decreases |s| - i
  {
    if i < |s| && IsSpace(s[i]) then SkipSpaces(s, i + 1) else i
  }

  /** The end of the longest run of radix-`radix` digits that starts at index `i`. */
  function DigitEnd(s: string, i: nat, radix: nat): (j: nat)
    requires i <= |s|
    ensures i <= j <= |s|
    ensures j < |s| ==> DigitValue(s[j]) >= radix
    decreases |s| - i
  {
    if i < |s| && DigitValue(s[i]) < radix then DigitEnd(s, i + 1, radix) else i
  }

  /** The number the digits at indices `lo` up to `hi` denote, most significant first. */
  function ValueOf(s: string, lo: nat, hi: nat, radix: nat): nat
    requires lo <= hi <= |s|
    decreases hi
  {
    if hi == lo then 0 else ValueOf(s, lo, hi - 1, radix) * radix + DigitValue(s[hi - 1])
  }

  /** The number a digit string denotes, most significant digit first. */
  function DigitsValue(d: string, radix: nat): nat
  {
    if |d| == 0 then 0 else DigitsValue(d[..|d| - 1], radix) * radix + DigitValue(d[|d| - 1])
  }

  /**
    `parseInt(s)` with no radix: skip leading white space, take an optional
    sign, then a `0x`/`0X` prefix selects radix 16, otherwise radix 10; the
    longest run of digits is the value, and no digit at all is NaN (`None`).
   */
  function ParseInt(s: string): (r: Option<int>)
    ensures AllSpace(s) ==> r.None?
    ensures r.Some? && r.value < 0 ==> '-' in s
  {
    var t := SkipSpaces(s, 0);
    var negative := t < |s| && s[t] == '-';
    var u := if t < |s| && (s[t] == '-' || s[t] == '+') then t + 1 else t;
    var hex := u + 1 < |s| && s[u] == '0' && (s[u + 1] == 'x' || s[u + 1] == 'X');
    match if hex then Magnitude(s, u + 2, 16) else Magnitude(s, u, 10)
    case None => None
    case Some(m) => Some(if negative then -m else m)
  }

  /** The digit step of `parseInt`: the value of the digit run at index `w`, or NaN when it is empty. */
  function Magnitude(s: string, w: nat, radix: nat): Option<int>
    requires w <= |s|
  {
    var n := DigitEnd(s, w, radix);
    if n == w then None else Some(ValueOf(s, w, n, radix))
  }

  /** `parseInt` applied to a possibly-undefined value (`parseInt(undefined)` is NaN). */
  function ParseIntVal(v: Val): Option<int>
  {
    ParseInt(ToStr(v))
  }

  function DigitChar(d: nat): (c: char)
    requires d < 10
    ensures '0' <= c <= '9' && DigitValue(c) == d
  {
    ('0' as nat + d) as char
  }

  /** The decimal numeral of a natural number. */
  function NatToString(n: nat): (s: string)
    ensures |s| >= 1
    ensures forall i | 0 <= i < |s| :: '0' <= s[i] <= '9'
    ensures s[0] == '0' ==> n == 0 && |s| == 1
  {
    if n < 10 then [DigitChar(n)] else NatToString(n / 10) + [DigitChar(n % 10)]
  }

  /** The decimal numeral of an integer, with a leading '-' when negative. */
  function IntToString(n: int): string
  {
    if n < 0 then "-" + NatToString(-n) else NatToString(n)
  }

  lemma {:induction false} NatToStringValue(n: nat)
    ensures DigitsValue(NatToString(n), 10) == n
  {
    var s := NatToString(n);
    if n >= 10 {
      NatToStringValue(n / 10);
      assert s[..|s| - 1] == NatToString(n / 10);
    } else {
      assert s[..|s| - 1] == [];
    }
  }

  /** A run of decimal digits reaching the end of the string is read to the end. */
  lemma {:induction false} DigitEndOfDigits(s: string, i: nat)
    requires i <= |s|
    requires forall j | i <= j < |s| :: '0' <= s[j] <= '9'
    ensures DigitEnd(s, i, 10) == |s|
    decreases |s| - i
  {
    if i < |s| {
      DigitEndOfDigits(s, i + 1);
    }
  }

  /** Digits written after a prefix `p` have the value they have on their own. */
  lemma {:induction false} ValueOfShift(p: string, d: string, k: nat)
    requires k <= |d|
    ensures ValueOf(p + d, |p|, |p| + k, 10) == ValueOf(d, 0, k, 10)
  {
    if k > 0 {
      ValueOfShift(p, d, k - 1);
      assert (p + d)[|p| + k - 1] == d[k - 1];
    }
  }

  lemma {:induction false} ValueOfPrefix(d: string, k: nat)
    requires k <= |d|
    ensures ValueOf(d, 0, k, 10) == DigitsValue(d[..k], 10)
  {
    if k > 0 {
      ValueOfPrefix(d, k - 1);
      assert d[..k][..k - 1] == d[..k - 1];
    }
  }

  /** A decimal numeral starts with a digit, which is no white space. */
  lemma {:induction false} NumeralUnspaced(n: nat)
    ensures !IsSpace(NatToString(n)[0])
  {
    var c := NatToString(n)[0];
    assert '0' <= c <= '9';
    assert 0x30 <= c as int <= 0x39;
  }

  /** The digits of `n` written after a prefix `p` are read back as `n`. */
  lemma {:induction false} NumeralAfter(p: string, n: nat)
    ensures Magnitude(p + NatToString(n), |p|, 10) == Some(n)
  {
    DigitsAfter(p, NatToString(n));
    NatToStringValue(n);
  }

  /** A non-empty run of decimal digits written after a prefix `p` is read back as its value. */
  lemma {:induction false} DigitsAfter(p: string, d: string)
    requires |d| >= 1
    requires forall i | 0 <= i < |d| :: '0' <= d[i] <= '9'
    ensures Magnitude(p + d, |p|, 10) == Some(DigitsValue(d, 10))
  {
    var s := p + d;
    assert forall j | |p| <= j < |s| :: s[j] == d[j - |p|];
    DigitEndOfDigits(s, |p|);
    ValueOfShift(p, d, |d|);
    ValueOfPrefix(d, |d|);
    assert d[..|d|] == d;
  }

  lemma {:induction false} ParseIntNonNeg(n: nat)
    ensures ParseInt(NatToString(n)) == Some(n)
  {
    var s := NatToString(n);
    NumeralUnspaced(n);
    assert "" + s == s;
    NumeralAfter("", n);
    var t := SkipSpaces(s, 0);
    assert t == 0 && '0' <= s[t] <= '9';
    var u := if t < |s| && (s[t] == '-' || s[t] == '+') then t + 1 else t;
    assert u == 0;
    assert !(u + 1 < |s| && s[u] == '0');
  }

  lemma {:induction false} ParseIntNeg(n: nat)
    ensures ParseInt("-" + NatToString(n)) == Some(-(n as int))
  {
    var d := NatToString(n);
    var s := "-" + d;
    assert !IsSpace(s[0]);
    assert SkipSpaces(s, 0) == 0;
    assert s[1] == d[0] && '0' <= d[0] <= '9';
    assert s[1] == '0' ==> |s| == 2;
    NumeralAfter("-", n);
  }

  /** `parseInt` reads back every integer's decimal numeral. */
  lemma {:induction false} ParseIntOfNumeral(n: int)
    ensures ParseInt(IntToString(n)) == Some(n)
  {
    if n < 0 {
      ParseIntNeg(-n);
    } else {
      ParseIntNonNeg(n);
    }
  }

}
