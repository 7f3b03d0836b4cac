/** Decimal text of signed 64-bit integers, as the increment operations store it. */
module Decimal {
  import opened Prelude

  const ZERO: byte := 48
  const PLUS: byte := 43
  const MINUS: byte := 45

  predicate IsDigit(b: byte) {
    48 <= b <= 57
  }

  function Digits(n: nat): (bs: Bytes)
    ensures bs != [] && forall b | b in bs :: IsDigit(b)
  {
    if n < 10 then [48 + n] else Digits(n / 10) + [48 + n % 10]
  }

  /** `i64::to_string`. */
  function ToText(v: i64): Bytes {
    var n: int := v;
    if n < 0 then [MINUS] + Digits(-n) else Digits(n)
  }

  function DigitsValue(bs: Bytes): nat
    requires forall b | b in bs :: IsDigit(b)
  {
    if bs == [] then 0
    else
      assert IsDigit(bs[|bs| - 1]);
      DigitsValue(bs[..|bs| - 1]) * 10 + (bs[|bs| - 1] as int - 48)
  }

  /** `str::parse::<i64>`: an optional sign, then at least one digit, in range.
      A byte string that is not UTF-8 holds a byte no digit equals. */
  function ParseI64(bs: Bytes): Option<i64> {
    if bs == [] then None
    else
      var signed := bs[0] == PLUS || bs[0] == MINUS;
      var body := if signed then bs[1..] else bs;
      if body == [] || exists b | b in body :: !IsDigit(b) then None
      else
        var magnitude: int := DigitsValue(body);
        var v := if bs[0] == MINUS then -magnitude else magnitude;
        if -0x8000_0000_0000_0000 <= v <= 0x7fff_ffff_ffff_ffff then Some(v) else None
  }

  lemma {:induction false} DigitsValueOfDigits(n: nat)
    ensures DigitsValue(Digits(n)) == n
  {
    if n >= 10 {
      DigitsValueOfDigits(n / 10);
      assert Digits(n)[..|Digits(n)| - 1] == Digits(n / 10);
    }
  }

  /** Stored counters read back as the integer that was stored. */
  lemma ParseToText(v: i64)
    ensures ParseI64(ToText(v)) == Some(v)
  {
    var n: int := v;
    var magnitude: int := if n < 0 then -n else n;
    DigitsValueOfDigits(magnitude);
    assert IsDigit(Digits(magnitude)[0]);
    if v < 0 {
      assert ToText(v)[1..] == Digits(magnitude);
    }
  }
}
