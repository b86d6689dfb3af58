/** Signed 64-bit decimals: printing (`i64::to_string`) and reading (`str::parse::<i64>`). */
module Decimals {
  import opened Wrappers
  import opened ByteStrings
  import Utf8

  const I64_MIN: int := -0x8000_0000_0000_0000
  const I64_MAX: int := 0x7FFF_FFFF_FFFF_FFFF

  predicate IsI64(n: int) {
    I64_MIN <= n <= I64_MAX
  }

  predicate IsDigit(b: byte) {
    ZERO <= b <= ZERO + 9
  }

  function Digits(n: nat): Bytes {
    if n < 10 then [ZERO + n] else Digits(n / 10) + [ZERO + n % 10]
  }

  function Show(n: int): Bytes {
    if n < 0 then [MINUS] + Digits(-n) else Digits(n)
  }

  function DigitsValue(ds: Bytes): Option<nat> {
    if ds == [] then Some(0)
    else
      var last := ds[|ds| - 1];
      match DigitsValue(ds[..|ds| - 1])
      case None => None
      case Some(v) => if IsDigit(last) then Some(10 * v + (last - ZERO)) else None
  }

  /** An optional sign, at least one digit, nothing else, and a value that fits in 64 bits. */
  function Read(s: Bytes): (r: Option<int>)
    ensures r.Some? ==> IsI64(r.value)
  {
    var signed := s != [] && (s[0] == MINUS || s[0] == PLUS);
    var body := if signed then s[1..] else s;
    if body == [] then None
    else
      match DigitsValue(body)
      case None => None
      case Some(magnitude) =>
        var v: int := magnitude;
        var n := if signed && s[0] == MINUS then -v else v;
        if IsI64(n) then Some(n) else None
  }

  lemma {:induction false} DigitsAreDigits(n: nat)
    ensures Digits(n) != []
    ensures forall i :: 0 <= i < |Digits(n)| ==> IsDigit(Digits(n)[i])
  {
    if n >= 10 {
      DigitsAreDigits(n / 10);
    }
  }

  lemma {:induction false} DigitsRoundTrip(n: nat)
    ensures DigitsValue(Digits(n)) == Some(n)
  {
    if n < 10 {
      assert Digits(n)[..0] == [];
    } else {
      DigitsRoundTrip(n / 10);
      assert Digits(n)[..|Digits(n)| - 1] == Digits(n / 10);
    }
  }

  /** Reading inverts printing on every 64-bit value, both extremes included. */
  lemma ReadShow(n: int)
    requires IsI64(n)
    ensures Read(Show(n)) == Some(n)
  {
    var m: nat := if n < 0 then -n else n;
    DigitsAreDigits(m);
    DigitsRoundTrip(m);
    if n < 0 {
      assert Show(n)[1..] == Digits(m);
    }
  }

  /** A printed number is ASCII, is not empty, and starts with a minus sign exactly when it is negative. */
  lemma ShowShape(n: int)
    ensures Show(n) != [] && Utf8.Ascii(Show(n))
    ensures forall i :: 0 <= i < |Show(n)| ==> Show(n)[i] != CR
    ensures Show(n)[0] == MINUS <==> n < 0
  {
    DigitsAreDigits(if n < 0 then -n else n);
  }
}
