/** Decimal numbers as the sources print and read them. */
module Decimals {
  predicate IsDigit(c: char) {
    '0' <= c <= '9'
  }

  /** The digits at the start of `s`. */
  function DigitRun(s: string): string {
    if s != [] && IsDigit(s[0]) then [s[0]] + DigitRun(s[1..]) else []
  }

  function NumberOf(digits: string): nat
    requires forall c :: c in digits ==> IsDigit(c)
  {
    if digits == [] then 0
    else
      assert digits[|digits| - 1] in digits;
      NumberOf(digits[..|digits| - 1]) * 10 + DigitValue(digits[|digits| - 1])
  }

  function DigitValue(c: char): nat
    requires IsDigit(c)
  {
    c as int - '0' as int
  }

  lemma {:induction false} DigitRunDigits(s: string)
    ensures forall c :: c in DigitRun(s) ==> IsDigit(c)
    ensures |DigitRun(s)| <= |s| && DigitRun(s) == s[..|DigitRun(s)|]
    ensures |DigitRun(s)| < |s| ==> !IsDigit(s[|DigitRun(s)|])
  {
    if s != [] && IsDigit(s[0]) {
      var rest := DigitRun(s[1..]);
      DigitRunDigits(s[1..]);
      assert DigitRun(s) == [s[0]] + rest;
      assert s[..|rest| + 1] == [s[0]] + s[1..][..|rest|];
    } else {
      assert DigitRun(s) == [];
    }
  }

  function Decimal(n: nat): (s: string)
    ensures s != [] && forall c :: c in s ==> IsDigit(c)
  {
    (if n < 10 then [] else Decimal(n / 10)) + [(n % 10 + '0' as int) as char]
  }

  lemma {:induction false} NumberOfDecimal(n: nat)
    ensures NumberOf(Decimal(n)) == n
  {
    var s := Decimal(n);
    if n >= 10 {
      NumberOfDecimal(n / 10);
      assert s[..|s| - 1] == Decimal(n / 10);
    }
  }

  lemma {:induction false} RunsDigits(digits: string, rest: string)
    requires (forall c :: c in digits ==> IsDigit(c)) && (rest != [] ==> !IsDigit(rest[0]))
    ensures DigitRun(digits + rest) == digits
  {
    if digits == [] {
      assert digits + rest == rest;
    } else {
      assert (digits + rest)[0] == digits[0] && (digits + rest)[1..] == digits[1..] + rest;
      RunsDigits(digits[1..], rest);
    }
  }

  function Tens(k: nat): nat {
    if k == 0 then 1 else 10 * Tens(k - 1)
  }

  /** The digits are read by their places. */
  lemma {:induction false} NumberIsPositional(a: string, b: string)
    requires forall c :: c in a + b ==> '0' <= c <= '9'
    ensures (forall c :: c in a ==> c in a + b) && (forall c :: c in b ==> c in a + b)
    ensures NumberOf(a + b) == NumberOf(a) * Tens(|b|) + NumberOf(b)
    ensures |b| == 1 ==> NumberOf(b) == b[0] as int - 48
  {
    assert forall c :: c in a + b ==> IsDigit(c);
    assert forall c :: c in a ==> c in a + b;
    assert forall c :: c in b ==> c in a + b;
    if b == [] {
      assert a + b == a;
    } else {
      var init := b[..|b| - 1];
      assert (a + b)[..|a + b| - 1] == a + init;
      assert b[|b| - 1] in b && forall c :: c in a + init ==> c in a + b;
      NumberIsPositional(a, init);
      TensDistribute(NumberOf(a), |b|, NumberOf(init));
    }
  }

  lemma TensDistribute(x: nat, k: nat, y: nat)
    requires k > 0
    ensures (x * Tens(k - 1) + y) * 10 == x * Tens(k) + y * 10
  {
  }

  /** Leading zeros are nothing, and no other digits are. */
  lemma {:induction false} ZerosAreNothing(digits: string)
    requires forall c :: c in digits ==> '0' <= c <= '9'
    ensures (forall c :: c in digits ==> IsDigit(c))
            && (NumberOf(digits) == 0 <==> forall c :: c in digits ==> c == '0')
  {
    assert forall c :: c in digits ==> IsDigit(c);
    if digits != [] {
      var init, last := digits[..|digits| - 1], digits[|digits| - 1];
      assert digits == init + [last] && last in digits;
      assert forall c :: c in digits <==> c in init || c == last;
      ZerosAreNothing(init);
    }
  }
}
