/** Numbers in decimal: printing, and reading back. */
module Decimals {
  import opened Bytes

  predicate AllDigits(w: bytes) {
    forall k :: 0 <= k < |w| ==> IsDigit(w[k])
  }

  /** A number in decimal. */
  function Dec(n: nat): (r: bytes)
    ensures r != [] && AllDigits(r)
  {
    if n < 10 then [(n + '0' as int) as char] else Dec(n / 10) + [(n % 10 + '0' as int) as char]
  }

  function SignedDec(n: int): bytes {
    if n < 0 then "-" + Dec(-n) else Dec(n)
  }

  /** The number that digits denote when they are written after a number `v`. */
  function Decimal(v: nat, digits: bytes): (r: nat)
    requires AllDigits(digits)
    decreases |digits|
  {
    if digits == [] then v else Decimal(v * 10 + DigitValue(digits[0]), digits[1..])
  }

  lemma {:induction false} DecimalGrows(v: nat, digits: bytes)
    requires AllDigits(digits)
    ensures Decimal(v, digits) >= v
    decreases |digits|
  {
    if digits != [] {
      DecimalGrows(v * 10 + DigitValue(digits[0]), digits[1..]);
    }
  }

  lemma {:induction false} DecimalConcat(v: nat, a: bytes, b: bytes)
    requires AllDigits(a) && AllDigits(b)
    ensures AllDigits(a + b) && Decimal(v, a + b) == Decimal(Decimal(v, a), b)
    decreases |a|
  {
    if a == [] {
      assert a + b == b;
    } else {
      assert (a + b)[1..] == a[1..] + b;
      DecimalConcat(v * 10 + DigitValue(a[0]), a[1..], b);
    }
  }

  /** Reading the decimal text of a number gives the number. */
  lemma {:induction false} DecBack(n: nat)
    ensures Decimal(0, Dec(n)) == n
    ensures Dec(n)[0] == '0' ==> n == 0 && |Dec(n)| == 1
  {
    var last := [(n % 10 + '0' as int) as char];
    assert Decimal(n / 10, last) == Decimal(n / 10 * 10 + n % 10, last[1..]) == n;
    if n >= 10 {
      DecBack(n / 10);
      DecimalConcat(0, Dec(n / 10), last);
    } else {
      assert Dec(n) == last && n / 10 == 0;
    }
  }
}
