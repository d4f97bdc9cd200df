/**
 * The contract of the JDK's `Long.parseLong(s)` (radix 10), which `Long.valueOf(s)`
 * delegates to: an optional `+` or `-`, then one or more decimal digits, no
 * whitespace, and a value within the 64-bit signed range. Only ASCII digits are
 * modelled.
 */
module JavaLong {
  import opened JavaTypes

  const LONG_MIN: int := -0x8000_0000_0000_0000
  const LONG_MAX: int := 0x7FFF_FFFF_FFFF_FFFF
  /** `Long.MIN_VALUE / 10` and `-Long.MAX_VALUE / 10` under Java's truncating division: both are this value. */
  const MULT_MIN: int := -922_337_203_685_477_580

  predicate IsDigit(c: char) { '0' <= c <= '9' }

  predicate AllDigits(s: string) {
    forall k :: 0 <= k < |s| ==> IsDigit(s[k])
  }

  function DigitValue(c: char): (d: nat)
    requires IsDigit(c)
    ensures d <= 9
  {
    c as int - '0' as int
  }

  /** The number a string of decimal digits denotes, most significant digit first. */
  function DigitsValue(s: string): nat
    requires AllDigits(s)
  {
    if s == [] then 0 else DigitsValue(s[..|s| - 1]) * 10 + DigitValue(s[|s| - 1])
  }

  /** Index of the first digit: 1 when `s` opens with a sign, else 0. */
  function SignLength(s: string): (n: nat)
    ensures n <= |s|
  {
    if |s| > 0 && (s[0] == '-' || s[0] == '+') then 1 else 0
  }

  /** What `Long.parseLong(s)` returns, or `None` where it throws `NumberFormatException`. */
  function LongValue(s: string): (r: Option<int>)
    ensures r.Some? ==> LONG_MIN <= r.value <= LONG_MAX
  {
    var digits := s[SignLength(s)..];
    if |digits| == 0 || !AllDigits(digits) then None
    else
      var v := if s[0] == '-' then -(DigitsValue(digits) as int) else DigitsValue(digits);
      if LONG_MIN <= v <= LONG_MAX then Some(v) else None
  }

  /** Appending digits never makes the denoted number smaller. */
  lemma {:induction false} DigitsValueMonotone(s: string, j: nat)
    requires AllDigits(s) && j <= |s|
    ensures DigitsValue(s[..j]) <= DigitsValue(s)
    decreases |s| - j
  {
    if j < |s| {
      var p := s[..j + 1];
      assert p[..|p| - 1] == s[..j];
      assert DigitsValue(s[..j]) <= DigitsValue(p);
      DigitsValueMonotone(s, j + 1);
    } else {
      assert s[..j] == s;
    }
  }

  /**
   * Once the digits read so far exceed `bound` (2^63 for a negative number,
   * 2^63 - 1 otherwise), `parseLong` is bound to fail however the string goes on.
   */
  lemma PrefixOverflow(s: string, j: nat)
    requires SignLength(s) <= j <= |s|
    requires AllDigits(s[SignLength(s)..j])
    requires DigitsValue(s[SignLength(s)..j]) > (if SignLength(s) == 1 && s[0] == '-' then -LONG_MIN else LONG_MAX)
    ensures LongValue(s) == None
  {
    var n := SignLength(s);
    var digits := s[n..];
    if AllDigits(digits) {
      assert digits[..j - n] == s[n..j];
      DigitsValueMonotone(digits, j - n);
    }
  }

  /** Reading one more digit: the prefix value is multiplied by ten and the digit added. */
  lemma DigitsStep(s: string, start: nat, i: nat)
    requires start <= i < |s| && AllDigits(s[start..i]) && IsDigit(s[i])
    ensures AllDigits(s[start..i + 1])
    ensures DigitsValue(s[start..i + 1]) == DigitsValue(s[start..i]) * 10 + DigitValue(s[i])
  {
    assert s[start..i + 1][..i - start] == s[start..i];
  }

  /**
   * `Long.parseLong` as the JDK writes it: the value is accumulated negatively
   * against a limit, with an overflow check before and after each
   * multiplication by ten.
   */
  method ParseLong(s: string) returns (r: Option<int>)
    ensures r == LongValue(s)
  {
    if |s| == 0 {
      return None;
    }
    var negative := false;
    var limit := -LONG_MAX;
    var i := 0;
    var first := s[0];
    if first < '0' {
      if first == '-' {
        negative := true;
        limit := LONG_MIN;
      } else if first != '+' {
        return None;
      }
      if |s| == 1 {
        return None;
      }
      i := 1;
    }
    assert i == SignLength(s);
    var start := i;
    var result := 0;
    while i < |s|
      invariant start <= i <= |s|
      invariant AllDigits(s[start..i])
      invariant result == -(DigitsValue(s[start..i]) as int)
      invariant limit <= result <= 0
    {
      if !IsDigit(s[i]) {
        return None;
      }
      var digit := DigitValue(s[i]);
      DigitsStep(s, start, i);
      if result < MULT_MIN {
        PrefixOverflow(s, i + 1);
        return None;
      }
      result := result * 10;
      if result < limit + digit {
        PrefixOverflow(s, i + 1);
        return None;
      }
      result := result - digit;
      i := i + 1;
    }
    assert s[start..i] == s[SignLength(s)..];
    r := Some(if negative then result else -result);
  }

  /** A character after the optional sign that is not a digit makes `parseLong` fail. */
  lemma NonDigitRejected(s: string, k: nat)
    requires SignLength(s) <= k < |s| && !IsDigit(s[k])
    ensures LongValue(s) == None
  {
    assert s[SignLength(s)..][k - SignLength(s)] == s[k];
  }

  /** A leading or trailing space makes `parseLong` fail, whatever the rest of the string. */
  lemma PaddedRejected(s: string)
    ensures LongValue(" " + s) == None && LongValue(s + " ") == None
  {
    NonDigitRejected(" " + s, 0);
    var t := s + " ";
    NonDigitRejected(t, |t| - 1);
  }

  /** Examples of inputs `parseLong` rejects: empty, a lone sign, surrounding whitespace, a non-digit. */
  lemma LongValueRejects()
    ensures LongValue("") == None && LongValue("+") == None && LongValue("-") == None
    ensures LongValue(" 7") == None && LongValue("7 ") == None && LongValue("1a") == None
  {
    assert "-"[1..] == [] && "+"[1..] == [];
    assert SignLength(" 7") == 0 && !IsDigit(" 7"[0]);
    assert SignLength("7 ") == 0 && !IsDigit("7 "[1]);
    assert SignLength("1a") == 0 && !IsDigit("1a"[1]);
  }

  /** An explicit `+` is accepted, and "-0" denotes zero. */
  lemma LongValueAccepts()
    ensures LongValue("+42") == Some(42) && LongValue("-0") == Some(0)
  {
    assert "4"[..0] == [] && DigitsValue("4") == 4;
    assert "42"[..1] == "4" && DigitsValue("42") == 42;
    assert "+42"[1..] == "42";
    assert "0"[..0] == [] && DigitsValue("0") == 0;
    assert "-0"[1..] == "0";
  }

  function DigitChar(d: nat): (c: char)
    requires d <= 9
    ensures IsDigit(c) && DigitValue(c) == d
  {
    ('0' as int + d) as char
  }

  /** The decimal digits of `n`, most significant first, without leading zeros. */
  function DigitsOf(n: nat): (s: string)
    ensures |s| > 0 && AllDigits(s)
  {
    if n < 10 then [DigitChar(n)] else DigitsOf(n / 10) + [DigitChar(n % 10)]
  }

  /** `Long.toString(n)`. */
  function LongToString(n: int): string {
    if n < 0 then "-" + DigitsOf(-n) else DigitsOf(n)
  }

  lemma {:induction false} DigitsOfValue(n: nat)
    ensures DigitsValue(DigitsOf(n)) == n
  {
    var s := DigitsOf(n);
    if n >= 10 {
      DigitsOfValue(n / 10);
      assert s[..|s| - 1] == DigitsOf(n / 10);
    }
  }

  /** `Long.parseLong(Long.toString(n)) == n` for every 64-bit `n`. */
  lemma LongToStringRoundTrip(n: int)
    requires LONG_MIN <= n <= LONG_MAX
    ensures LongValue(LongToString(n)) == Some(n)
  {
    var s := LongToString(n);
    if n < 0 {
      DigitsOfValue(-n);
      assert s[1..] == DigitsOf(-n);
    } else {
      DigitsOfValue(n);
      assert IsDigit(s[0]);
      assert s[0..] == s;
    }
  }

  /** `Long.parseLong` rejects the decimal text of every number outside the 64-bit range. */
  lemma LongToStringOutOfRange(n: int)
    requires n < LONG_MIN || LONG_MAX < n
    ensures LongValue(LongToString(n)) == None
  {
    var s := LongToString(n);
    if n < 0 {
      DigitsOfValue(-n);
      assert s[1..] == DigitsOf(-n);
    } else {
      DigitsOfValue(n);
      assert IsDigit(s[0]);
      assert s[0..] == s;
    }
  }
}
