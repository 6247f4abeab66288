/** Member tokens: a new member's number is its row id (one more than the
    largest row id in use, see Records.NextId), and its public token is "LIB"
    followed by that number in decimal, zero-padded to at least five digits.
    Wider numbers keep all their digits. */
module MemberIds {
  import opened Results

  // ---------------------------------------------------------- decimals

  predicate IsDigit(c: char) {
    '0' <= c <= '9'
  }

  predicate AllDigits(s: string) {
    forall i :: 0 <= i < |s| ==> IsDigit(s[i])
  }

  function DigitChar(d: nat): (c: char)
    requires d < 10
    ensures IsDigit(c) && c as int - '0' as int == d
  {
    ('0' as int + d) as char
  }

  function DigitValue(c: char): nat
    requires IsDigit(c)
  {
    c as int - '0' as int
  }

  /** `str(n)`: the decimal digits of n, without leading zeros. */
  function Decimal(n: nat): (s: string)
    ensures 1 <= |s| && AllDigits(s)
    ensures n >= 10 ==> s[0] != '0'
    decreases n
  {
    if n < 10 then [DigitChar(n)] else Decimal(n / 10) + [DigitChar(n % 10)]
  }

  /** The number a string of decimal digits denotes, leading zeros allowed. */
  function DecimalValue(s: string): nat
    requires AllDigits(s)
  {
    if s == [] then 0 else DecimalValue(s[..|s| - 1]) * 10 + DigitValue(s[|s| - 1])
  }

  function Zeros(k: nat): (z: string)
    ensures |z| == k && AllDigits(z)
    ensures forall i :: 0 <= i < k ==> z[i] == '0'
  {
    if k == 0 then [] else Zeros(k - 1) + ['0']
  }

  /** Python's `{:05d}` for a non-negative number: pad with zeros on the left
      to `width` characters, never cut. */
  function ZeroPad(s: string, width: nat): string {
    if |s| < width then Zeros(width - |s|) + s else s
  }

  const MemberIdPrefix: string := "LIB"
  const MemberIdWidth: nat := 5

  function FormatMemberId(n: nat): string {
    MemberIdPrefix + ZeroPad(Decimal(n), MemberIdWidth)
  }

  /** Reads a member token back into its number. */
  function ParseMemberId(s: string): Option<nat> {
    if |s| > |MemberIdPrefix| && s[..|MemberIdPrefix|] == MemberIdPrefix && AllDigits(s[|MemberIdPrefix|..])
    then Some(DecimalValue(s[|MemberIdPrefix|..]))
    else None
  }

  lemma {:induction false} DecimalRoundTrip(n: nat)
    ensures DecimalValue(Decimal(n)) == n
    decreases n
  {
    if n >= 10 {
      var s := Decimal(n);
      assert s[..|s| - 1] == Decimal(n / 10);
      DecimalRoundTrip(n / 10);
    }
  }

  lemma {:induction false} ZerosValue(k: nat)
    ensures DecimalValue(Zeros(k)) == 0
  {
    if k > 0 {
      assert Zeros(k)[..k - 1] == Zeros(k - 1);
      ZerosValue(k - 1);
    }
  }

  /** Leading zeros do not change the value. */
  lemma {:induction false} LeadingZerosValue(k: nat, s: string)
    requires AllDigits(s)
    ensures AllDigits(Zeros(k) + s)
    ensures DecimalValue(Zeros(k) + s) == DecimalValue(s)
    decreases |s|
  {
    var z := Zeros(k) + s;
    assert AllDigits(z) by {
      forall i | 0 <= i < |z| ensures IsDigit(z[i]) {
        if i >= k { assert z[i] == s[i - k]; }
      }
    }
    if s == [] {
      assert z == Zeros(k);
      ZerosValue(k);
    } else {
      assert z[..|z| - 1] == Zeros(k) + s[..|s| - 1];
      LeadingZerosValue(k, s[..|s| - 1]);
    }
  }

  /** The token of a member number reads back as that number. */
  lemma MemberIdRoundTrip(n: nat)
    ensures ParseMemberId(FormatMemberId(n)) == Some(n)
  {
    var d := Decimal(n);
    var padded := ZeroPad(d, MemberIdWidth);
    var s := FormatMemberId(n);
    assert s[..3] == MemberIdPrefix && s[3..] == padded;
    if |d| < MemberIdWidth {
      LeadingZerosValue(MemberIdWidth - |d|, d);
    }
    DecimalRoundTrip(n);
  }

  /** Different member numbers never share a token. */
  lemma MemberIdInjective(a: nat, b: nat)
    requires FormatMemberId(a) == FormatMemberId(b)
    ensures a == b
  {
    MemberIdRoundTrip(a);
    MemberIdRoundTrip(b);
  }

  /** Tokens are "LIB" and at least five digits; numbers below 100000 give exactly five. */
  lemma MemberIdShape(n: nat)
    ensures |FormatMemberId(n)| >= 8
    ensures FormatMemberId(n)[..3] == "LIB"
    ensures n < 100000 ==> |FormatMemberId(n)| == 8
  {
    if n < 100000 {
      DecimalBelow(n, 5);
    }
  }

  lemma {:induction false} DecimalBelow(n: nat, digits: nat)
    requires digits >= 1
    requires n < Pow10(digits)
    ensures |Decimal(n)| <= digits
    decreases digits
  {
    if n >= 10 {
      assert n / 10 < Pow10(digits - 1);
      DecimalBelow(n / 10, digits - 1);
    }
  }

  function Pow10(k: nat): (p: nat)
    ensures p >= 1
  {
    if k == 0 then 1 else 10 * Pow10(k - 1)
  }

  /** The first member gets "LIB00001"; member 123456 keeps all six digits. */
  lemma MemberIdExamples()
    ensures FormatMemberId(1) == "LIB00001"
    ensures FormatMemberId(123456) == "LIB123456"
  {
    assert Decimal(1) == "1";
    assert Zeros(4) == "0000";
    assert Decimal(12) == "12";
    assert Decimal(123) == "123";
    assert Decimal(1234) == "1234";
    assert Decimal(12345) == "12345";
    assert Decimal(123456) == "123456";
  }
}
