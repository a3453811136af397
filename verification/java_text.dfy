/**
 * The parts of java.lang.String and java.util.Formatter that the pattern relies on:
 * `indexOf(char)`, and `%d` formatting of an `int`, together with the parser that
 * undoes `%d` so that formatted strings can be shown to determine their arguments.
 */
module JavaText {
  import opened Results

  /** `s.indexOf(c)`: the first position holding `c`, or -1 when `c` does not occur. */
  function IndexOf(s: string, c: char): (r: int)
    ensures -1 <= r < |s|
    ensures r == -1 <==> c !in s
    ensures 0 <= r ==> s[r] == c && c !in s[..r]
  {
    if |s| == 0 then -1
    else if s[0] == c then 0
    else
      var k := IndexOf(s[1..], c);
      if k < 0 then -1 else
        assert s[..k + 1] == [s[0]] + s[1..][..k];
        k + 1
  }

  /** When `c` is absent from `a`, its first occurrence in `a + b` is found in `b`. */
  lemma {:induction false} IndexOfAppend(a: string, b: string, c: char)
    requires c !in a
    requires c in b
    ensures IndexOf(a + b, c) == |a| + IndexOf(b, c)
  {
    var r := IndexOf(a + b, c);
    var k := IndexOf(b, c);
    assert (a + b)[|a| + k] == c;
    assert (a + b)[..|a|] == a;
    assert b[..k] == (a + b)[|a|..|a| + k];
  }

  predicate IsDigit(c: char) {
    '0' <= c <= '9'
  }

  /** A non-empty run of decimal digits. */
  predicate IsDigits(s: string) {
    |s| > 0 && forall i :: 0 <= i < |s| ==> IsDigit(s[i])
  }

  /** The digit string `%d` prints for a non-negative number: no leading zero unless it is "0". */
  predicate IsCanonicalDigits(s: string) {
    IsDigits(s) && (s[0] == '0' ==> |s| == 1)
  }

  function DigitChar(d: nat): (c: char)
    requires d < 10
    ensures IsDigit(c)
  {
    ('0' as int + d) as char
  }

  function DigitValue(c: char): (d: nat)
    requires IsDigit(c)
    ensures d < 10 && DigitChar(d) == c
  {
    c as int - '0' as int
  }

  /** The decimal digits of `n`, most significant first. */
  function NatToDecimal(n: nat): (s: string)
    ensures IsCanonicalDigits(s)
  {
    if n < 10 then [DigitChar(n)]
    else NatToDecimal(n / 10) + [DigitChar(n % 10)]
  }

  /** The number a string of decimal digits denotes. */
  function ParseNat(s: string): nat
    requires forall i :: 0 <= i < |s| ==> IsDigit(s[i])
  {
    if |s| == 0 then 0
    else ParseNat(s[..|s| - 1]) * 10 + DigitValue(s[|s| - 1])
  }

  /** Reading back the digits of `n` gives `n`. */
  lemma {:induction false} ParseNatToDecimal(n: nat)
    ensures ParseNat(NatToDecimal(n)) == n
  {
    if n >= 10 {
      var s := NatToDecimal(n);
      assert s[..|s| - 1] == NatToDecimal(n / 10);
      ParseNatToDecimal(n / 10);
    }
  }

  /** A digit string that does not start with '0' denotes a positive number. */
  lemma {:induction false} ParseNatPositive(s: string)
    requires IsDigits(s) && s[0] != '0'
    ensures ParseNat(s) > 0
  {
    if |s| > 1 {
      ParseNatPositive(s[..|s| - 1]);
    } else {
      assert DigitChar(DigitValue(s[0])) == s[0];
    }
  }

  /** Every canonical digit string is what `%d` prints for the number it denotes. */
  lemma {:induction false} NatToDecimalParseNat(s: string)
    requires IsCanonicalDigits(s)
    ensures NatToDecimal(ParseNat(s)) == s
  {
    var n := ParseNat(s);
    if |s| == 1 {
      assert s[..0] == [];
    } else {
      var t := s[..|s| - 1];
      ParseNatPositive(t);
      NatToDecimalParseNat(t);
      assert n / 10 == ParseNat(t);
      assert n % 10 == DigitValue(s[|s| - 1]);
      assert s == t + [s[|s| - 1]];
    }
  }

  /**
   * `String.format("%d", i)` in a locale whose digits are ASCII: a minus sign for negative
   * values, then the digits of |i|. It is undone by `ParseInt`.
   */
  function FormatInt(i: int): (s: string)
    ensures |s| > 0
    ensures ',' !in s
    ensures s[0] == '-' <==> i < 0
    ensures ParseInt(s) == Some(i)
  {
    if i < 0 then
      var digits := NatToDecimal(-i);
      ParseNatToDecimal(-i);
      assert ("-" + digits)[1..] == digits;
      "-" + digits
    else
      ParseNatToDecimal(i);
      NatToDecimal(i)
  }

  /**
   * The inverse of `FormatInt`: an optional minus sign followed by digits without a leading
   * zero, and no "-0".
   */
  function ParseInt(s: string): Option<int> {
    if 0 < |s| && s[0] == '-' then
      if IsCanonicalDigits(s[1..]) && s[1..][0] != '0' then Some(0 - ParseNat(s[1..])) else None
    else if IsCanonicalDigits(s) then Some(ParseNat(s))
    else None
  }

  /** Every string `ParseInt` accepts is exactly the `%d` form of the number it yields. */
  lemma {:induction false} FormatIntParseInt(s: string, i: int)
    requires ParseInt(s) == Some(i)
    ensures FormatInt(i) == s
  {
    if 0 < |s| && s[0] == '-' {
      var t := s[1..];
      ParseNatPositive(t);
      NatToDecimalParseNat(t);
      assert s == "-" + t;
    } else {
      NatToDecimalParseNat(s);
    }
  }
}
