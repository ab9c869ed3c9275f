/** strconv.FormatInt and strconv.ParseInt for base 10 and 64 bits. */
module Decimal {
  import opened Common
  import opened Base64

  const MIN_INT64: int := -0x8000_0000_0000_0000
  const MAX_INT64: int := 0x7fff_ffff_ffff_ffff

  type Int64 = n: int | MIN_INT64 <= n <= MAX_INT64

  const MINUS: Byte := 45
  const PLUS: Byte := 43

  function FormatNat(n: nat): Text {
    if n < 10 then [48 + n] else FormatNat(n / 10) + [48 + n % 10]
  }

  function Format(n: Int64): Text {
    var m: int := n;
    if m < 0 then [MINUS] + FormatNat(-m) else FormatNat(m)
  }

  predicate IsDigit(c: Byte) {
    48 <= c <= 57
  }

  /** The value of a string of decimal digits. */
  function ParseNat(s: Text): Option<nat> {
    if s == [] || !IsDigit(s[|s| - 1]) then None
    else if |s| == 1 then Some(s[0] - 48)
    else
      var rest := ParseNat(s[..|s| - 1]);
      if rest.None? then None else Some(rest.value * 10 + (s[|s| - 1] - 48))
  }

  /** An optional sign, then digits; a value that does not fit into 64 bits is an error. */
  function Parse(s: Text): Option<Int64> {
    if s == [] then None
    else
      var negative := s[0] == MINUS;
      var magnitude := ParseNat(if negative || s[0] == PLUS then s[1..] else s);
      if magnitude.None? then None
      else
        var m: int := magnitude.value;
        var n := if negative then -m else m;
        if MIN_INT64 <= n <= MAX_INT64 then Some(n) else None
  }

  lemma {:induction false} NatRoundTrip(n: nat)
    ensures ParseNat(FormatNat(n)) == Some(n)
    ensures FormatNat(n) != [] && IsDigit(FormatNat(n)[0])
  {
    if n >= 10 {
      NatRoundTrip(n / 10);
      var s := FormatNat(n);
      assert s[..|s| - 1] == FormatNat(n / 10);
    }
  }

  function Pow10(k: nat): nat {
    if k == 0 then 1 else 10 * Pow10(k - 1)
  }

  /** The k-th character from the end is the digit of 10 to the k; there are no leading zeros. */
  lemma {:induction false} DigitAt(n: nat, k: nat)
    requires k < |FormatNat(n)|
    ensures Pow10(k) > 0 && FormatNat(n)[|FormatNat(n)| - 1 - k] == '0' as int + n / Pow10(k) % 10
    ensures n > 0 ==> FormatNat(n)[0] != '0' as int
  {
    Pow10Positive(k);
    if n >= 10 {
      if k > 0 {
        DigitAt(n / 10, k - 1);
        Pow10Positive(k - 1);
        DivideTwice(n, Pow10(k - 1));
      } else {
        DigitAt(n / 10, 0);
      }
    }
  }

  lemma {:induction false} Pow10Positive(k: nat)
    ensures Pow10(k) > 0
  {
    if k > 0 {
      Pow10Positive(k - 1);
    }
  }

  lemma DivideTwice(n: nat, p: nat)
    requires p > 0
    ensures n / 10 / p == n / (10 * p)
  {
    var q, r := n / 10 / p, n / 10 % p;
    assert n / 10 == q * p + r;
    assert n == q * (10 * p) + (10 * r + n % 10);
    QuotientIs(q, 10 * p, 10 * r + n % 10);
  }

  lemma QuotientIs(q: nat, n: nat, r: nat)
    requires r < n
    ensures (q * n + r) / n == q
  {
    RemainderIs(q, n, r);
    var x := q * n + r;
    assert x == x / n * n + x % n;
    assert (x / n - q) * n == 0;
    assert x / n == q;
  }

  /** A sign is a minus in front of the digits of the magnitude. */
  lemma FormatIs(n: Int64)
    ensures n >= 0 ==> Format(n) == FormatNat(n)
    ensures n < 0 ==> Format(n) == ['-' as int] + FormatNat(-(n as int))
  {
  }

  /** Exactly the non-empty strings of digits are numbers. */
  lemma {:induction false} ParseNatIff(s: Text)
    ensures ParseNat(s).Some? <==> s != [] && forall i :: 0 <= i < |s| ==> '0' as int <= s[i] <= '9' as int
  {
    if |s| > 1 {
      ParseNatIff(s[..|s| - 1]);
    }
  }

  /** One digit more at the end. */
  lemma ParseNatSnoc(s: Text, c: Byte)
    requires ParseNat(s).Some? && '0' as int <= c <= '9' as int
    ensures ParseNat(s + [c]) == Some(ParseNat(s).value * 10 + (c as int - '0' as int))
  {
    assert (s + [c])[..|s|] == s;
  }

  /** Digits, with or without a sign, are a number if they fit into 64 bits, and an error otherwise. */
  lemma ParseIs(digits: Text)
    requires ParseNat(digits).Some?
    ensures var v: int := ParseNat(digits).value;
      && Parse(digits) == (if v < 0x8000_0000_0000_0000 then Some(v) else None)
      && Parse(['+' as int] + digits) == (if v < 0x8000_0000_0000_0000 then Some(v) else None)
      && Parse(['-' as int] + digits) == (if v <= 0x8000_0000_0000_0000 then Some(-v) else None)
  {
    ParseNatIff(digits);
    assert (['+' as int] + digits)[1..] == digits && (['-' as int] + digits)[1..] == digits;
  }

  lemma FormatRoundTrip(n: Int64)
    ensures Parse(Format(n)) == Some(n)
  {
    var m: int := n;
    NatRoundTrip(if m < 0 then -m else m);
    if m < 0 {
      assert Format(n)[1..] == FormatNat(-m);
    }
  }
}
