/** Python's `str(n)` for integers and the inverse `int(s)` on the strings it
    produces. */
module Decimal {
  import opened Wrappers

  predicate IsDigit(c: char) { '0' <= c <= '9' }

  predicate AllDigits(s: string) { forall i :: 0 <= i < |s| ==> IsDigit(s[i]) }

  function DigitChar(d: int): (c: char)
    requires 0 <= d < 10
    ensures IsDigit(c) && c as int - '0' as int == d
  {
    ('0' as int + d) as char
  }

  /** Decimal digits of `n`, most significant first, no leading zeros. */
  function NatToString(n: nat): (s: string)
    ensures |s| >= 1 && AllDigits(s)
    ensures n >= 10 <==> |s| >= 2
    decreases n
  {
    if n < 10 then [DigitChar(n)] else NatToString(n / 10) + [DigitChar(n % 10)]
  }

  /** `str(i)`: an optional minus sign followed by the digits of |i|. */
  function IntToString(i: int): (s: string)
    ensures |s| >= 1
  {
    if i < 0 then "-" + NatToString(-i) else NatToString(i)
  }

  /** What `str(i)` is made of: digits, after a leading minus sign. */
  lemma IntToStringChars(i: int)
    ensures forall k :: 0 <= k < |IntToString(i)| ==>
              IsDigit(IntToString(i)[k]) || (k == 0 && IntToString(i)[k] == '-')
  {
    var s := IntToString(i);
    if i < 0 {
      assert forall k :: 1 <= k < |s| ==> s[k] == NatToString(-i)[k - 1];
    }
  }

  /** Value of a non-empty digit string. */
  function DigitsValue(s: string): (n: nat)
    requires |s| >= 1 && AllDigits(s)
    decreases |s|
  {
    var last := s[|s| - 1] as int - '0' as int;
    if |s| == 1 then last else DigitsValue(s[..|s| - 1]) * 10 + last
  }

  /** `int(s)` restricted to an optional sign followed by decimal digits;
      anything else is the ValueError case. */
  function ParseInt(s: string): Option<int>
  {
    if |s| >= 2 && (s[0] == '-' || s[0] == '+') && AllDigits(s[1..]) then
      var v: int := DigitsValue(s[1..]);
      Some(if s[0] == '-' then -v else v)
    else if |s| >= 1 && AllDigits(s) then Some(DigitsValue(s))
    else None
  }

  lemma {:induction false} DigitsOfNat(n: nat)
    ensures DigitsValue(NatToString(n)) == n
    decreases n
  {
    if n >= 10 {
      var s := NatToString(n);
      assert s[..|s| - 1] == NatToString(n / 10);
      DigitsOfNat(n / 10);
    }
  }

  /** `int(str(i)) == i`. */
  lemma {:induction false} ParseIntToString(i: int)
    ensures ParseInt(IntToString(i)) == Some(i)
  {
    var s := IntToString(i);
    if i < 0 {
      assert s[1..] == NatToString(-i);
      DigitsOfNat(-i);
    } else {
      DigitsOfNat(i);
    }
  }

  /** Distinct integers print differently. */
  lemma IntToStringInjective(a: int, b: int)
    ensures IntToString(a) == IntToString(b) <==> a == b
  {
    ParseIntToString(a);
    ParseIntToString(b);
  }

  /** A string `h + [sep] + t` whose tail `t` holds no `sep` splits uniquely
      at its last `sep`. */
  lemma SplitAtSeparator(sep: char, h1: string, t1: string, h2: string, t2: string)
    requires sep !in t1 && sep !in t2
    requires h1 + [sep] + t1 == h2 + [sep] + t2
    ensures h1 == h2 && t1 == t2
  {
    var s := h1 + [sep] + t1;
    assert s[|h1|] == sep && s[|h2|] == sep;
    assert forall k :: |h1| < k < |s| ==> s[k] == t1[k - |h1| - 1];
    assert forall k :: |h2| < k < |s| ==> s[k] == t2[k - |h2| - 1];
    assert |h1| == |h2|;
    assert h1 == s[..|h1|] && h2 == s[..|h2|];
    assert t1 == s[|h1| + 1..] && t2 == s[|h2| + 1..];
  }
}
