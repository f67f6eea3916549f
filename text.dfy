/**
 * String helpers the board uses: decimal text of a number (`String(n)`),
 * `padStart(2, '0')`, reading leading digits (`parseInt(s, 10)`),
 * `toLowerCase`, `includes`, `split` and `join`. Strings are sequences of characters.
 */
module Text {
  import opened Collections

  predicate IsDigit(c: char) { '0' <= c <= '9' }

  predicate AllDigits(s: string) { forall i :: 0 <= i < |s| ==> IsDigit(s[i]) }

  function DigitChar(d: nat): (c: char)
    requires d < 10
    ensures IsDigit(c) && c as int - '0' as int == d
  {
    (d + '0' as int) as char
  }

  function DigitValue(c: char): (d: nat)
    requires IsDigit(c)
    ensures d < 10 && DigitChar(d) == c
  {
    c as int - '0' as int
  }

  /** Decimal text of n without leading zeros, as `String(n)` gives it. */
  function Dec(n: nat): (s: string)
    ensures 1 <= |s| && AllDigits(s)
    ensures n < 10 <==> |s| == 1
  {
    if n < 10 then [DigitChar(n)] else Dec(n / 10) + [DigitChar(n % 10)]
  }

  /** The number a string of decimal digits denotes. */
  function DigitsValue(s: string): nat
    requires AllDigits(s)
  {
    if s == [] then 0 else DigitsValue(s[..|s| - 1]) * 10 + DigitValue(s[|s| - 1])
  }

  /** Reading the decimal text of n gives back n. */
  lemma {:induction false} DecRoundTrip(n: nat)
    ensures DigitsValue(Dec(n)) == n
  {
    if n >= 10 {
      var s := Dec(n);
      assert s[..|s| - 1] == Dec(n / 10);
      DecRoundTrip(n / 10);
    }
  }

  /** The decimal text of a number has no leading zero (except "0" itself). */
  lemma {:induction false} DecNoLeadingZero(n: nat)
    ensures Dec(n)[0] == '0' <==> n == 0
  {
    if n >= 10 {
      DecNoLeadingZero(n / 10);
      assert Dec(n)[0] == Dec(n / 10)[0];
    }
  }

  /** Distinct numbers have distinct decimal texts. */
  lemma DecInjective(a: nat, b: nat)
    requires Dec(a) == Dec(b)
    ensures a == b
  {
    DecRoundTrip(a);
    DecRoundTrip(b);
  }

  /** `String(n).padStart(2, '0')`. */
  function Pad2(n: nat): (s: string)
    ensures n < 100 ==> |s| == 2 && AllDigits(s) && DigitsValue(s) == n
  {
    DecRoundTrip(n);
    var d := Dec(n);
    if |d| < 2 then "0" + d else d
  }

  /** Two-digit padding tells numbers below 100 apart. */
  lemma Pad2Injective(a: nat, b: nat)
    requires a < 100 && b < 100 && Pad2(a) == Pad2(b)
    ensures a == b
  {
  }

  /** The longest prefix of s made of decimal digits. */
  function LeadingDigits(s: string): (r: string)
    ensures AllDigits(r) && |r| <= |s| && r == s[..|r|]
    ensures |r| < |s| ==> !IsDigit(s[|r|])
  {
    if s == [] || !IsDigit(s[0]) then [] else [s[0]] + LeadingDigits(s[1..])
  }

  /**
   * `parseInt(s, 10)` for text that starts with its digits: the value of the
   * leading digits, or None (NaN) when s does not start with a digit.
   */
  function ParseLeadingInt(s: string): (r: Option<nat>)
    ensures r.None? <==> (s == [] || !IsDigit(s[0]))
  {
    var digits := LeadingDigits(s);
    if digits == [] then None else Some(DigitsValue(digits))
  }

  /** Reading the digits of "<n><rest>" where rest does not start with a digit gives n. */
  lemma ParseDecPrefix(n: nat, rest: string)
    requires rest == [] || !IsDigit(rest[0])
    ensures ParseLeadingInt(Dec(n) + rest) == Some(n)
  {
    LeadingDigitsOfDigits(Dec(n), rest);
    DecRoundTrip(n);
  }

  lemma {:induction false} LeadingDigitsOfDigits(d: string, rest: string)
    requires AllDigits(d)
    requires rest == [] || !IsDigit(rest[0])
    ensures LeadingDigits(d + rest) == d
  {
    if d != [] {
      assert (d + rest)[1..] == d[1..] + rest;
      LeadingDigitsOfDigits(d[1..], rest);
    } else {
      assert d + rest == rest;
    }
  }

  /** `toLowerCase` on one character; only the ASCII letters A-Z are folded. */
  function LowerChar(c: char): (l: char)
    ensures 'A' <= c <= 'Z' ==> l as int == c as int + 32
    ensures !('A' <= c <= 'Z') ==> l == c
  {
    if 'A' <= c <= 'Z' then (c as int + 32) as char else c
  }

  function ToLower(s: string): (r: string)
    ensures |r| == |s|
    ensures forall i :: 0 <= i < |s| ==> r[i] == LowerChar(s[i])
  {
    if s == [] then [] else [LowerChar(s[0])] + ToLower(s[1..])
  }

  /** Lowering is idempotent, so a lowered search term is unchanged by lowering it again. */
  lemma ToLowerIdempotent(s: string)
    ensures ToLower(ToLower(s)) == ToLower(s)
  {
  }

  predicate IsPrefix(p: string, s: string) { |p| <= |s| && s[..|p|] == p }

  /** needle occurs in hay starting at position i. */
  predicate OccursAt(hay: string, needle: string, i: int)
  {
    0 <= i <= |hay| - |needle| && hay[i..i + |needle|] == needle
  }

  /** `hay.includes(needle)`: needle occurs in hay at some position. */
  function Contains(hay: string, needle: string): (b: bool)
    ensures b <==> exists i :: OccursAt(hay, needle, i)
    decreases |hay|
  {
    if IsPrefix(needle, hay) then
      assert OccursAt(hay, needle, 0);
      true
    else if |hay| <= |needle| then
      assert forall i :: OccursAt(hay, needle, i) ==> i == 0;
      false
    else
      var r := Contains(hay[1..], needle);
      assert r <==> exists i :: OccursAt(hay, needle, i) by {
        OccursInTail(hay, needle);
        assert !OccursAt(hay, needle, 0);
        if r {
          var j :| OccursAt(hay[1..], needle, j);
          assert OccursAt(hay, needle, j + 1);
        } else {
          forall i | OccursAt(hay, needle, i) ensures OccursAt(hay[1..], needle, i - 1) { }
        }
      }
      r
  }

  /** An occurrence after position 0 is an occurrence in the tail, one position earlier. */
  lemma OccursInTail(hay: string, needle: string)
    requires hay != []
    ensures forall i :: 1 <= i ==> (OccursAt(hay, needle, i) <==> OccursAt(hay[1..], needle, i - 1))
  {
    forall i | 1 <= i
      ensures OccursAt(hay, needle, i) <==> OccursAt(hay[1..], needle, i - 1)
    {
      if 1 <= i <= |hay| - |needle| {
        var here, there := hay[i..i + |needle|], hay[1..][i - 1..i - 1 + |needle|];
        forall k | 0 <= k < |needle| ensures here[k] == there[k] { }
        assert here == there;
      }
    }
  }

  /** The empty search term occurs in every text. */
  lemma ContainsEmpty(hay: string)
    ensures Contains(hay, "")
  {
    assert OccursAt(hay, "", 0);
  }

  /** `s.split(c)` for a one-character separator: the pieces between the separators, in order. */
  function Split(s: string, c: char): (parts: seq<string>)
    ensures |parts| >= 1
    ensures forall i :: 0 <= i < |parts| ==> c !in parts[i]
  {
    if s == [] then [[]]
    else
      var rest := Split(s[1..], c);
      if s[0] == c then [[]] + rest
      else [[s[0]] + rest[0]] + rest[1..]
  }

  /** `parts.join(c)`. */
  function Join(parts: seq<string>, c: char): string
    requires |parts| >= 1
  {
    if |parts| == 1 then parts[0] else parts[0] + [c] + Join(parts[1..], c)
  }

  /** Joining the pieces of a split with the same separator gives the text back. */
  lemma {:induction false} SplitJoin(s: string, c: char)
    ensures Join(Split(s, c), c) == s
  {
    if s != [] {
      var rest := Split(s[1..], c);
      SplitJoin(s[1..], c);
      if s[0] == c {
        assert ([[]] + rest)[1..] == rest;
      } else {
        var parts := [[s[0]] + rest[0]] + rest[1..];
        if |rest| > 1 {
          assert parts[1..] == rest[1..];
          assert Join(rest, c) == rest[0] + [c] + Join(rest[1..], c);
        }
      }
    }
  }

  /** Splitting text that has no separator in it gives the text as the only piece. */
  lemma {:induction false} SplitNoSeparator(p: string, c: char)
    requires c !in p
    ensures Split(p, c) == [p]
  {
    if p != [] {
      SplitNoSeparator(p[1..], c);
      assert [p[0]] + p[1..] == p;
    }
  }

  /** A separator-free front followed by a separator splits off as the first piece. */
  lemma {:induction false} SplitFront(p: string, t: string, c: char)
    requires c !in p
    ensures Split(p + [c] + t, c) == [p] + Split(t, c)
  {
    var s := p + [c] + t;
    if p == [] {
      assert s[1..] == t;
    } else {
      assert s[1..] == p[1..] + [c] + t;
      SplitFront(p[1..], t, c);
      assert [p[0]] + p[1..] == p;
    }
  }

  /** Splitting a join of separator-free pieces gives the pieces back. */
  lemma {:induction false} JoinSplit(parts: seq<string>, c: char)
    requires |parts| >= 1
    requires forall i :: 0 <= i < |parts| ==> c !in parts[i]
    ensures Split(Join(parts, c), c) == parts
  {
    if |parts| == 1 {
      SplitNoSeparator(parts[0], c);
    } else {
      JoinSplit(parts[1..], c);
      SplitFront(parts[0], Join(parts[1..], c), c);
      assert [parts[0]] + parts[1..] == parts;
    }
  }
}
