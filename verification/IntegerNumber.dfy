/** The NUMBER form of 64-bit integers, which skips the decimal encoder. */
module IntegerNumber {
  import opened Wrappers
  import opened Machine
  import opened Decimals
  import opened OracleNumber
  import opened NumberDecoding

  predicate IsI64(v: int) {
    -0x8000_0000_0000_0000 <= v < 0x8000_0000_0000_0000
  }

  function Abs(v: int): nat {
    if v < 0 then -v else v
  }

  // `to_string`: no leading zeros, and "0" for zero.
  function NatDigits(n: nat): (ds: seq<digit>)
    ensures ds != [] && (n > 0 ==> ds[0] != 0)
  {
    if n < 10 then [n] else NatDigits(n / 10) + [n % 10]
  }

  function IntText(v: int): string {
    (if v < 0 then "-" else "") + Text(NatDigits(Abs(v)))
  }

  // The digits padded in front to whole pairs.
  function EvenDigits(n: nat): (ds: seq<digit>)
    ensures |ds| % 2 == 0
  {
    if |NatDigits(n)| % 2 == 0 then NatDigits(n) else [0] + NatDigits(n)
  }

  function IntegerEncoding(v: int): seq<byte>
    requires IsI64(v)
  {
    I64HasFewDigits(v);
    if v == 0 then [0x80]
    else Assemble(v < 0, 0xC0 + |EvenDigits(Abs(v))| / 2, Pairs(EvenDigits(Abs(v))))
  }

  lemma {:induction false} DigitCount(n: nat, k: nat)
    requires n < Pow(10, k) && k > 0
    ensures |NatDigits(n)| <= k
  {
    if n >= 10 {
      assert k > 1 by {
        assert Pow(10, 1) == 10 * Pow(10, 0);
      }
      assert n / 10 < Pow(10, k - 1);
      DigitCount(n / 10, k - 1);
    }
  }

  lemma I64HasFewDigits(v: int)
    requires IsI64(v)
    ensures |NatDigits(Abs(v))| <= 19 && |EvenDigits(Abs(v))| <= 20
  {
    assert Pow(10, 4) == 10_000;
    PowSum(4, 4);
    PowSum(8, 8);
    PowSum(16, 3);
    assert Pow(10, 3) == 1000;
    DigitCount(Abs(v), 19);
  }

  lemma {:induction false} PowSum(a: nat, b: nat)
    ensures Pow(10, a + b) == Pow(10, a) * Pow(10, b)
  {
    if a > 0 {
      PowSum(a - 1, b);
      assert 10 * Pow(10, a - 1 + b) == 10 * (Pow(10, a - 1) * Pow(10, b));
    }
  }

  lemma NonzeroInteger(v: int, digits: seq<pair>)
    requires IsI64(v) && v != 0 && digits == Pairs(EvenDigits(Abs(v)))
    ensures |digits| <= 10
    ensures v > 0 ==> IntegerEncoding(v) == [0xC0 + |digits|] + Mantissa(false, digits)
    ensures v < 0 ==> IntegerEncoding(v) == [0x3F - |digits|] + Mantissa(true, digits) + [TERMINATOR]
  {
    I64HasFewDigits(v);
  }

  method EncodeOracleNumberI64(value: int) returns (encoded: seq<byte>)
    requires IsI64(value)
    ensures encoded == IntegerEncoding(value)
  {
    if value == 0 {
      return [0x80];
    }
    var decimal := NatDigits(Abs(value));
    if |decimal| % 2 != 0 {
      decimal := [0] + decimal;
    }
    var digits := Pairs(decimal);
    NonzeroInteger(value, digits);
    if value > 0 {
      encoded := [0xC0 + |digits|];
      encoded := encoded + Mantissa(false, digits);
    } else {
      encoded := [0x3F - |digits|];
      encoded := encoded + Mantissa(true, digits);
      encoded := encoded + [TERMINATOR];
    }
  }

  lemma EvenDigitsEnds(n: nat)
    requires n > 0
    ensures DropFront(EvenDigits(n)) == NatDigits(n)
    ensures EvenDigits(n)[0] == 0 <==> |NatDigits(n)| % 2 != 0
    ensures DropBack(NatDigits(n)) != []
  {
  }

  lemma RenderDropped(ds: seq<digit>)
    requires ds != [] && DropBack(ds) != []
    ensures RenderMagnitude(DropBack(ds), |ds|) == Text(ds)
  {
    var kept := DropBack(ds);
    TextConcat(kept, Zeros(|ds| - |kept|));
    assert ds == kept + Zeros(|ds| - |kept|);
  }

  lemma FirstPair(ps: seq<byte>)
    requires ps != [] && AllPairs(ps)
    ensures ps[0] < 10 <==> Unpacked(ps)[0] == 0
  {
    assert Unpacked(ps)[0] == HighDigit(ps[0]);
  }

  lemma MagnitudeOfEven(n: nat, ps: seq<byte>, exponent: byte)
    requires n > 0 && AllPairs(ps) && Unpacked(ps) == EvenDigits(n) && exponent as int == 0xC0 + |ps|
    ensures DecodedMagnitude(ps, exponent).Success? && DecodedMagnitude(ps, exponent).value == Text(NatDigits(n))
  {
    EvenDigitsEnds(n);
    RenderDropped(NatDigits(n));
    FirstPair(ps);
    var digits := DropBack(NatDigits(n));
    assert PairDigits(ps).Some? && PairDigits(ps).value == digits;
    assert PairPoint(ps, 2 * |ps|) == |NatDigits(n)|;
  }

  // For every i64, decoding gives its decimal string.
  lemma DecodeInvertsIntegerEncoding(v: int)
    requires IsI64(v)
    ensures Decoding(IntegerEncoding(v)).Success? && Decoding(IntegerEncoding(v)).value == IntText(v)
  {
    if v == 0 {
      assert Text([0]) == "0";
    } else {
      var ds, ps := EvenDigits(Abs(v)), Pairs(EvenDigits(Abs(v)));
      I64HasFewDigits(v);
      UnpackedPairs(ds);
      MagnitudeOfEven(Abs(v), ps, 0xC0 + |ps|);
      DecodeAssembled(v < 0, 0xC0 + |ps|, ps);
    }
  }

  // The decimal the text stands for keeps the digits up to the last nonzero one.
  function IntDecimal(v: int): Decimal {
    if v == 0 then ZERO else Decimal(v < 0, TrimZeros(NatDigits(Abs(v))), |NatDigits(Abs(v))|)
  }

  lemma IntTextParses(v: int)
    requires IsI64(v)
    ensures ParseDecimal(IntText(v)) == Success(IntDecimal(v))
    ensures Canonical(IntDecimal(v)) && Accepted(IntDecimal(v))
  {
    var ds := NatDigits(Abs(v));
    I64HasFewDigits(v);
    ParsePlain(v < 0, ds, []);
    assert Plain(ds, []) == Text(ds);
    assert ds + [] == ds && ds[0..] == ds;
    if v == 0 {
      assert LeadingZeros([0]) == 1 by {
        assert LeadingZeros([0][1..]) == 0;
      }
    } else {
      assert LeadingZeros(ds) == 0;
      assert TrimZeros(ds) != [] by {
        assert ds[0] != 0;
      }
    }
  }

  lemma LastDigit(n: nat)
    ensures NatDigits(n) != [] && NatDigits(n)[|NatDigits(n)| - 1] == n % 10
    ensures n >= 10 <==> |NatDigits(n)| >= 2
  {
  }

  lemma RemainderIs(n: nat, u: nat, x: nat)
    requires n == 100 * u + x && x < 100
    ensures n % 100 == x
  {
  }

  lemma BothDigits(n: nat)
    ensures n % 100 == n / 10 % 10 * 10 + n % 10
  {
    var q, r := n / 10, n % 10;
    var u, v := q / 10, q % 10;
    assert n == 10 * q + r;
    assert q == 10 * u + v;
    RemainderIs(n, u, 10 * v + r);
  }

  lemma LastTwoDigits(n: nat)
    requires n > 0
    ensures var ds := NatDigits(n);
      n % 100 == 0 <==> |ds| >= 2 && ds[|ds| - 1] == 0 && ds[|ds| - 2] == 0
  {
    LastDigit(n);
    BothDigits(n);
    if n >= 10 {
      var t := NatDigits(n / 10);
      LastDigit(n / 10);
      assert NatDigits(n)[..|t|] == t;
    }
  }

  lemma TrimAtMostOne(ds: seq<digit>)
    requires ds != [] && ds[0] != 0
    requires !(|ds| >= 2 && ds[|ds| - 1] == 0 && ds[|ds| - 2] == 0)
    ensures TrimZeros(ds) == DropBack(ds)
  {
    if ds[|ds| - 1] == 0 {
      var t := ds[..|ds| - 1];
      assert t[|t| - 1] == ds[|ds| - 2];
      assert TrimZeros(t) == t;
    }
  }

  lemma AlignedDropped(ds: seq<digit>)
    requires ds != []
    ensures Aligned(DropBack(ds), |ds|) == if |ds| % 2 == 0 then ds else [0] + ds
  {
    if ds[|ds| - 1] == 0 {
      assert DropBack(ds) + [0] == ds && [0] + DropBack(ds) + [0] == [0] + ds;
    }
  }

  lemma AlignedLength(ds: seq<digit>, point: nat)
    ensures |Aligned(ds, point)| <= |ds| + point % 2 + 1
  {
  }

  lemma TwoZerosShorten(ds: seq<digit>)
    requires |ds| >= 2 && ds[|ds| - 1] == 0 && ds[|ds| - 2] == 0
    ensures |Aligned(TrimZeros(ds), |ds|)| < |ds| + |ds| % 2
  {
    assert |TrimZeros(ds)| <= |ds| - 2;
    AlignedLength(TrimZeros(ds), |ds|);
  }

  lemma AlignedTrimmed(n: nat)
    requires n > 0
    ensures var ds := NatDigits(n);
      var aligned := Aligned(TrimZeros(ds), |ds|);
      && (n % 100 != 0 ==> aligned == EvenDigits(n))
      && (n % 100 == 0 ==> |aligned| < |EvenDigits(n)|)
  {
    var ds := NatDigits(n);
    LastTwoDigits(n);
    if n % 100 != 0 {
      TrimAtMostOne(ds);
      AlignedDropped(ds);
    } else {
      TwoZerosShorten(ds);
    }
  }

  lemma AssembledLength(negative: bool, exponent: byte, ps: seq<pair>)
    requires |ps| < 20
    ensures |Assemble(negative, exponent, ps)| == |ps| + if negative then 2 else 1
  {
  }

  lemma MultipleOfHundred(v: int)
    ensures v % 100 == 0 <==> Abs(v) % 100 == 0
  {
  }

  // The encodings agree if the pairs do, and differ if one has fewer.
  lemma AssembledAgree(negative: bool, exponent: byte, ps: seq<pair>, qs: seq<pair>)
    requires |ps| < 20 && |qs| < 20 && (ps == qs || |ps| < |qs|)
    ensures Assemble(negative, exponent, ps) == Assemble(negative, exponent, qs) <==> ps == qs
  {
    AssembledLength(negative, exponent, ps);
    AssembledLength(negative, exponent, qs);
  }

  lemma ExponentOfDigits(n: nat, point: nat, exponent: byte)
    requires point == |NatDigits(n)| <= 19 && exponent as int == 0xC0 + |EvenDigits(n)| / 2
    ensures ExponentByte(point) == exponent
  {
  }

  lemma NonzeroEncoding(d: Decimal, exponent: byte, ps: seq<pair>)
    requires Accepted(d) && d.digits != [] && exponent == ExponentByte(d.point) && ps == Pairs(Aligned(d.digits, d.point))
    ensures Encoding(d) == Assemble(d.negative, exponent, ps)
  {
  }

  lemma IntegersAreAccepted(v: int)
    requires IsI64(v)
    ensures Accepted(IntDecimal(v)) && (v != 0 ==> IntDecimal(v).digits != [])
  {
    I64HasFewDigits(v);
    assert v != 0 ==> NatDigits(Abs(v))[0] != 0;
  }

  lemma TrimmedPairs(n: nat, ds: seq<digit>, ps: seq<pair>, qs: seq<pair>)
    requires n > 0 && ds == NatDigits(n)
    requires ps == Pairs(Aligned(TrimZeros(ds), |ds|)) && qs == Pairs(EvenDigits(n))
    ensures if n % 100 != 0 then ps == qs else |ps| < |qs|
  {
    AlignedTrimmed(n);
  }

  lemma {:induction false} UntrimmedAssembled(v: int, exponent: byte, qs: seq<pair>)
    requires IsI64(v) && v != 0 && qs == Pairs(EvenDigits(Abs(v)))
    requires |EvenDigits(Abs(v))| <= 20 && exponent as int == 0xC0 + |EvenDigits(Abs(v))| / 2
    ensures IntegerEncoding(v) == Assemble(v < 0, exponent, qs)
  {
  }

  lemma {:induction false} TrimmedAssembled(v: int, ds: seq<digit>, exponent: byte, ps: seq<pair>)
    requires IsI64(v) && v != 0 && ds == NatDigits(Abs(v)) && |ds| <= 19
    requires exponent as int == 0xC0 + |EvenDigits(Abs(v))| / 2 && ps == Pairs(Aligned(TrimZeros(ds), |ds|))
    ensures Accepted(IntDecimal(v)) && Encoding(IntDecimal(v)) == Assemble(v < 0, exponent, ps)
  {
    IntegersAreAccepted(v);
    ExponentOfDigits(Abs(v), |ds|, exponent);
    NonzeroEncoding(IntDecimal(v), exponent, ps);
  }

  // The integer bytes are the trimmed decimal bytes except exactly for the
  // nonzero multiples of one hundred, whose zero pairs they keep.
  lemma {:induction false} IntegerEncodingIsTrimmed(v: int)
    requires IsI64(v)
    ensures Accepted(IntDecimal(v))
    ensures IntegerEncoding(v) == Encoding(IntDecimal(v)) <==> v == 0 || v % 100 != 0
  {
    IntegersAreAccepted(v);
    if v != 0 {
      I64HasFewDigits(v);
      var n, ds, even := Abs(v), NatDigits(Abs(v)), EvenDigits(Abs(v));
      var exponent: byte := 0xC0 + |even| / 2;
      var ps, qs := Pairs(Aligned(TrimZeros(ds), |ds|)), Pairs(even);
      UntrimmedAssembled(v, exponent, qs);
      TrimmedAssembled(v, ds, exponent, ps);
      TrimmedPairs(n, ds, ps, qs);
      MultipleOfHundred(v);
      AssembledAgree(v < 0, exponent, ps, qs);
    }
  }
}
