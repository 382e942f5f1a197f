/**
  Waypoint names: a map refers to a waypoint by a letter string such as "A",
  "Z" or "AA", read as a bijective base-26 numeral over `A..Z` (there is no
  zero digit) and shifted down by one so that "A" is waypoint 0.
 */
module Waypoint {

  /** What the source adds for one character: `alp.indexOf(c) + 1`, which is 0 outside `A..Z`. */
  function LetterValue(c: char): (d: nat)
    ensures d <= 26
    ensures 'A' <= c <= 'Z' <==> d >= 1
  {
    if 'A' <= c <= 'Z' then (c as int - 'A' as int) + 1 else 0
  }

  predicate AllLetters(s: string)
  {
    forall i | 0 <= i < |s| :: 'A' <= s[i] <= 'Z'
  }

  /** A well-formed waypoint name: one or more capital letters. */
  predicate IsWaypointName(s: string)
  {
    |s| >= 1 && AllLetters(s)
  }

  /** The bijective base-26 value of a letter string, most significant letter first. */
  function BijectiveValue(s: string): (v: nat)
    ensures |s| >= 1 && 'A' <= s[|s| - 1] <= 'Z' ==> v >= 1
  {
    ValueOfFirst(s, |s|)
  }

  /** The value of the first `n` letters of `s`. */
  function ValueOfFirst(s: string, n: nat): (v: nat)
    requires n <= |s|
    ensures n >= 1 && 'A' <= s[n - 1] <= 'Z' ==> v >= 1
  {
    if n == 0 then 0 else ValueOfFirst(s, n - 1) * 26 + LetterValue(s[n - 1])
  }

  /** Appending a letter leaves the value of every prefix of the old string alone. */
  lemma {:induction false} ValueOfFirstAppend(p: string, c: char, n: nat)
    requires n <= |p|
    ensures ValueOfFirst(p + [c], n) == ValueOfFirst(p, n)
  {
    if n > 0 {
      ValueOfFirstAppend(p, c, n - 1);
      assert (p + [c])[n - 1] == p[n - 1];
    }
  }

  /** The value of a letter string is 26 times the value of all but its last letter, plus that letter. */
  lemma {:induction false} ValueOfAppend(p: string, c: char)
    ensures BijectiveValue(p + [c]) == BijectiveValue(p) * 26 + LetterValue(c)
  {
    ValueOfFirstAppend(p, c, |p|);
    assert (p + [c])[|p|] == c;
  }

  /** 2^53: JavaScript numbers hold every integer below it exactly. */
  const SafeBound: nat := 0x20_0000_0000_0000

  /** The largest value of `n` letters ("ZZ...Z"). */
  function MaxValue(n: nat): nat
  {
    if n == 0 then 0 else MaxValue(n - 1) * 26 + 26
  }

  lemma {:induction false} ValueOfFirstBound(s: string, n: nat)
    requires n <= |s|
    ensures ValueOfFirst(s, n) <= MaxValue(n)
  {
    if n > 0 {
      ValueOfFirstBound(s, n - 1);
    }
  }

  lemma {:induction false} MaxValueGrows(m: nat, n: nat)
    requires m <= n
    ensures MaxValue(m) <= MaxValue(n)
    decreases n
  {
    if m < n {
      MaxValueGrows(m, n - 1);
    }
  }

  /** Eleven letters stay below 2^53, so the floating-point loop is exact on them. */
  lemma {:induction false} ElevenLettersAreSafe(s: string, n: nat)
    requires n <= |s| <= 11
    ensures ValueOfFirst(s, n) < SafeBound
  {
    ValueOfFirstBound(s, n);
    MaxValueGrows(n, 11);
    assert MaxValue(11) == 3817158266467286;
  }

  /**
    The source's `convertWaypoint`: Horner evaluation of the letter values,
    minus one. A well-formed name gives a non-negative waypoint number. For
    names of at most eleven letters every value the accumulator takes is below
    2^53, where JavaScript's number arithmetic agrees with these integers.
   */
  method ConvertWaypoint(str: string) returns (r: int)
    ensures r == BijectiveValue(str) - 1
    ensures IsWaypointName(str) ==> r >= 0
    ensures |str| <= 11 ==> forall i | 0 <= i <= |str| :: ValueOfFirst(str, i) < SafeBound
  {
    if |str| <= 11 {
      forall i | 0 <= i <= |str|
        ensures ValueOfFirst(str, i) < SafeBound
      {
        ElevenLettersAreSafe(str, i);
      }
    }
    r := 0;
    var i := 0;
    while i < |str|
      invariant 0 <= i <= |str|
      invariant r == ValueOfFirst(str, i)
    {
      r := r * 26 + LetterValue(str[i]);
      i := i + 1;
    }
    r := r - 1;
  }

  /** The letter string whose bijective base-26 value is `v` ("" for 0). */
  function Letters(v: nat): (s: string)
    ensures AllLetters(s)
    ensures v >= 1 ==> |s| >= 1
    decreases v
  {
    if v == 0 then []
    else Letters((v - 1) / 26) + [('A' as int + (v - 1) % 26) as char]
  }

  /** The name of waypoint number `n`. */
  function WaypointName(n: nat): (s: string)
    ensures IsWaypointName(s)
  {
    Letters(n + 1)
  }

  lemma {:induction false} DivMod26(a: nat, b: nat)
    requires b < 26
    ensures (a * 26 + b) / 26 == a && (a * 26 + b) % 26 == b
  {
  }

  /** Reading back the letters of a value gives the value. */
  lemma {:induction false} ValueOfLetters(v: nat)
    ensures BijectiveValue(Letters(v)) == v
    decreases v
  {
    if v > 0 {
      var q := (v - 1) / 26;
      var c := ('A' as int + (v - 1) % 26) as char;
      ValueOfLetters(q);
      ValueOfAppend(Letters(q), c);
    }
  }

  /** Writing out the value of a letter string gives the string back. */
  lemma {:induction false} LettersOfValue(s: string)
    requires AllLetters(s)
    ensures Letters(BijectiveValue(s)) == s
    decreases |s|
  {
    if |s| > 0 {
      var p, c := s[..|s| - 1], s[|s| - 1];
      var d := LetterValue(c);
      var pv := BijectiveValue(p);
      var v := BijectiveValue(s);
      assert s == p + [c];
      assert AllLetters(p);
      LettersOfValue(p);
      ValueOfAppend(p, c);
      assert v == pv * 26 + d && 1 <= d;
      DivMod26(pv, d - 1);
      var q, r := (v - 1) / 26, (v - 1) % 26;
      assert q == pv && r == d - 1;
      assert 'A' as int + r == c as int;
      assert Letters(v) == Letters(q) + [('A' as int + r) as char];
    }
  }

  /** Every waypoint number is read back from its name. */
  lemma {:induction false} NumberOfWaypointName(n: nat)
    ensures BijectiveValue(WaypointName(n)) - 1 == n
  {
    ValueOfLetters(n + 1);
  }

  /** Every well-formed name is the name of the number it is read as. */
  lemma {:induction false} WaypointNameOfNumber(s: string)
    requires IsWaypointName(s)
    ensures BijectiveValue(s) >= 1
    ensures WaypointName(BijectiveValue(s) - 1) == s
  {
    var v := BijectiveValue(s);
    assert v >= 1 by {
      assert 'A' <= s[|s| - 1] <= 'Z';
    }
    assert Letters(v) == s by {
      LettersOfValue(s);
    }
  }

  /** The worked values: "A" is 0, "Z" is 25 and "AA" is 26. */
  lemma {:induction false} WaypointExamples()
    ensures BijectiveValue("A") - 1 == 0
    ensures BijectiveValue("Z") - 1 == 25
    ensures BijectiveValue("AA") - 1 == 26
  {
    ValueOfAppend("A", 'A');
    assert "A" + ['A'] == "AA";
  }
}
