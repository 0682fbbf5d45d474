/** The string operations the store performs: `strings.Contains` and `fmt`'s `%d`. */
module Text {
  import opened Wrappers

  /** pattern occurs in s starting at index i. */
  predicate OccursAt(s: string, pattern: string, i: nat)
  {
    i + |pattern| <= |s| && s[i..i + |pattern|] == pattern
  }

  /** `strings.Contains(s, pattern)`: pattern occurs somewhere in s. */
  function Contains(s: string, pattern: string): (found: bool)
    ensures found <==> exists i: nat :: OccursAt(s, pattern, i)
    decreases |s|
  {
    if |s| < |pattern| then false
    else if s[..|pattern|] == pattern then assert OccursAt(s, pattern, 0); true
    else
      var rest := Contains(s[1..], pattern);
      assert rest ==> exists i: nat :: OccursAt(s, pattern, i) by {
        if rest {
          var j: nat :| OccursAt(s[1..], pattern, j);
          assert s[j + 1..j + 1 + |pattern|] == s[1..][j..j + |pattern|];
          assert OccursAt(s, pattern, j + 1);
        }
      }
      assert (exists i: nat :: OccursAt(s, pattern, i)) ==> rest by {
        if i: nat :| OccursAt(s, pattern, i) {
          assert i != 0;
          assert s[1..][i - 1..i - 1 + |pattern|] == s[i..i + |pattern|];
          assert OccursAt(s[1..], pattern, i - 1);
        }
      }
      rest
  }

  /** Every character of an occurring pattern is a character of the text. */
  lemma ContainsCharacters(s: string, pattern: string, c: char)
    requires Contains(s, pattern) && c in pattern
    ensures c in s
  {
    var i: nat :| OccursAt(s, pattern, i);
    var k :| 0 <= k < |pattern| && pattern[k] == c;
    assert s[i + k] == s[i..i + |pattern|][k];
  }

  predicate IsDigit(c: char) { '0' <= c <= '9' }

  /** The decimal digits of a natural number, most significant first, without leading zeros. */
  function Digits(n: nat): (s: string)
    ensures |s| > 0 && forall i :: 0 <= i < |s| ==> IsDigit(s[i])
    decreases n
  {
    (if n < 10 then "" else Digits(n / 10)) + [('0' as int + n % 10) as char]
  }

  /** `fmt.Sprintf("%d", i)`. */
  function FormatInt(i: int): string
  {
    if i < 0 then "-" + Digits(-i) else Digits(i)
  }

  /** The number a string of decimal digits denotes. */
  function DigitsValue(s: string): nat
    requires forall i :: 0 <= i < |s| ==> IsDigit(s[i])
    decreases |s|
  {
    if |s| == 0 then 0
    else
      assert IsDigit(s[|s| - 1]);
      10 * DigitsValue(s[..|s| - 1]) + (s[|s| - 1] as int - '0' as int)
  }

  /** Reads back a number written by `FormatInt`; None when the text is not such a number. */
  function ParseInt(s: string): Option<int>
  {
    if |s| > 0 && s[0] == '-' then
      if |s| > 1 && forall i :: 1 <= i < |s| ==> IsDigit(s[i]) then Some(0 - DigitsValue(s[1..]) as int) else None
    else if |s| > 0 && forall i :: 0 <= i < |s| ==> IsDigit(s[i]) then Some(DigitsValue(s))
    else None
  }

  lemma {:induction false} DigitsValueOfDigits(n: nat)
    ensures DigitsValue(Digits(n)) == n
    decreases n
  {
    var s := Digits(n);
    var last := [('0' as int + n % 10) as char];
    if n < 10 {
      assert s == last;
      assert s[..|s| - 1] == "";
    } else {
      DigitsValueOfDigits(n / 10);
      assert s == Digits(n / 10) + last;
      assert s[..|s| - 1] == Digits(n / 10);
    }
  }

  /** A minus sign followed by decimal digits reads back as the negated digits' value. */
  lemma ParseNegative(d: string)
    requires |d| > 0 && forall i :: 0 <= i < |d| ==> IsDigit(d[i])
    ensures ParseInt("-" + d) == Some(0 - DigitsValue(d) as int)
  {
    var s := "-" + d;
    assert s[1..] == d;
    assert forall k :: 1 <= k < |s| ==> s[k] == d[k - 1];
  }

  /** Decimal digits alone read back as their value. */
  lemma ParseNonNegative(d: string)
    requires |d| > 0 && forall i :: 0 <= i < |d| ==> IsDigit(d[i])
    ensures ParseInt(d) == Some(DigitsValue(d) as int)
  {
    assert IsDigit(d[0]);
  }

  /** Reading back a formatted integer gives the integer: `%d` loses nothing. */
  lemma FormatIntRoundTrip(i: int)
    ensures ParseInt(FormatInt(i)) == Some(i)
  {
    if i < 0 {
      DigitsValueOfDigits(-i);
      ParseNegative(Digits(-i));
    } else {
      DigitsValueOfDigits(i);
      ParseNonNegative(Digits(i));
    }
  }

  /** Distinct integers are formatted as distinct strings. */
  lemma FormatIntInjective(i: int, j: int)
    requires FormatInt(i) == FormatInt(j)
    ensures i == j
  {
    FormatIntRoundTrip(i);
    FormatIntRoundTrip(j);
  }
}
