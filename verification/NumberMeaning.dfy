/** What NUMBER bytes and decimal texts denote, told without the codecs. */
module NumberMeaning {
  import opened Wrappers
  import opened Machine
  import opened Decimals
  import opened OracleNumber
  import opened NumberDecoding
  import opened NumberOrder
  import opened PgNumeric
  import opened IntegerNumber

  // ---- The bytes ------------------------------------------------------------------

  // 0.p1p2p3... in base one hundred.
  ghost function Base100(ps: seq<int>): real {
    if ps == [] then 0.0 else (ps[0] as real + Base100(ps[1..])) / 100.0
  }

  // The bytes after the first, without the mark 102 that may end a negative.
  function Body(raw: seq<byte>): seq<byte>
    requires raw != []
  {
    if raw[0] < 128 && |raw| > 1 && raw[|raw| - 1] == 102 then raw[1..|raw| - 1] else raw[1..]
  }

  // The base-100 digits of NUMBER bytes: one less than the byte, or 101 less the
  // byte where the number is negative.
  function Unbiased(bytes: seq<byte>, positive: bool): (ps: seq<int>)
    ensures |ps| == |bytes|
  {
    seq(|bytes|, k requires 0 <= k < |bytes| => if positive then bytes[k] as int - 1 else 101 - bytes[k] as int)
  }

  function BytePairs(raw: seq<byte>): seq<int>
    requires raw != []
  {
    Unbiased(Body(raw), raw[0] >= 128)
  }

  // The number the bytes denote: the first one is the power of one hundred,
  // biased by 192, and complemented where the number is negative.
  ghost function Denoted(raw: seq<byte>): real
    requires raw != []
  {
    if raw[0] >= 128 then Times(Base100(BytePairs(raw)), Pow10(2 * (raw[0] as int - 192)))
    else -Times(Base100(BytePairs(raw)), Pow10(2 * (63 - raw[0] as int)))
  }

  lemma {:induction false} PairsInBase100(ps: seq<pair>)
    ensures Base100(ps) == Fraction100(ps)
  {
    if ps != [] {
      PairsInBase100(ps[1..]);
    }
  }

  lemma {:induction false} MantissaUnbiased(negative: bool, ps: seq<pair>)
    ensures Unbiased(Mantissa(negative, ps), !negative) == ps
    ensures forall b <- Mantissa(true, ps) :: b != 102
  {
  }

  lemma {:induction false} AssembledPairs(negative: bool, exponent: byte, ps: seq<pair>)
    requires exponent >= 128 && ps != []
    ensures BytePairs(Assemble(negative, exponent, ps)) == ps
  {
    var raw, bytes := Assemble(negative, exponent, ps), Mantissa(negative, ps);
    MantissaUnbiased(negative, ps);
    if negative && |ps| < 20 {
      assert raw == [255 - exponent] + bytes + [102];
      assert raw[1..|raw| - 1] == bytes;
    } else {
      assert raw[1..] == bytes && raw[|raw| - 1] == bytes[|ps| - 1];
      assert negative ==> bytes[|ps| - 1] in Mantissa(true, ps);
    }
    assert Body(raw) == bytes;
  }

  ghost function SignedValue(negative: bool, x: real): real {
    if negative then -x else x
  }

  lemma {:induction false} AssembledDenotes(negative: bool, exponent: byte, ps: seq<pair>)
    requires exponent >= 128 && ps != []
    ensures Denoted(Assemble(negative, exponent, ps)) ==
      SignedValue(negative, Times(Fraction100(ps), Pow10(2 * (exponent as int - 192))))
  {
    AssembledPairs(negative, exponent, ps);
    PairsInBase100(ps);
    var raw := Assemble(negative, exponent, ps);
    assert raw[0] == if negative then 255 - exponent else exponent;
  }

  lemma {:induction false} AlignedPower(point: int)
    requires -129 <= point <= 126
    ensures EvenPoint(point) == 2 * (ExponentByte(point) as int - 192) && ExponentByte(point) >= 128
  {
  }

  lemma {:induction false} NonzeroDenotes(d: Decimal, e: byte, ps: seq<pair>)
    requires Canonical(d) && Accepted(d) && d != ZERO && e == ExponentByte(d.point) && ps == NumberOrder.PairsOf(d)
    ensures Encoding(d) == Assemble(d.negative, e, ps) && ps != []
    ensures Denoted(Assemble(d.negative, e, ps)) == ValueOf(d)
  {
    NonzeroEncoding(d, e, ps);
    AlignedPower(d.point);
    AssembledDenotes(d.negative, e, ps);
    MagnitudeFromPairs(d);
  }

  // The bytes of a number denote that number.
  lemma {:induction false} EncodingDenotes(d: Decimal)
    requires Canonical(d) && Accepted(d)
    ensures Encoding(d) != [] && Denoted(Encoding(d)) == ValueOf(d)
  {
    if d == ZERO {
      ZeroIsRead();
    } else {
      NonzeroDenotes(d, ExponentByte(d.point), NumberOrder.PairsOf(d));
    }
  }

  // ---- Which numbers have bytes -------------------------------------------------------

  lemma {:induction false} DigitsBelowOne(ds: seq<digit>)
    ensures 0.0 <= Fraction10(ds) < 1.0
    ensures ds != [] && ds[0] != 0 ==> Fraction10(ds) >= 0.1
  {
    if ds != [] {
      DigitsBelowOne(ds[1..]);
    }
  }

  lemma ScaledBounds(f: real, p: real)
    requires 0.1 <= f < 1.0 && p > 0.0
    ensures p / 10.0 <= Times(f, p) < p
  {
  }

  lemma {:induction false} PointIsMagnitude(d: Decimal)
    requires Canonical(d) && d != ZERO
    ensures Pow10(d.point - 1) <= Magnitude(d) < Pow10(d.point)
  {
    DigitsBelowOne(d.digits);
    PowStep(d.point - 1);
    ScaledBounds(Fraction10(d.digits), Pow10(d.point));
  }

  // Zero, and every number of at most forty digits from ten to the -130 to
  // below ten to the 126.
  lemma {:induction false} AcceptedRange(d: Decimal)
    requires Canonical(d)
    ensures Accepted(d) <==> d == ZERO || (|d.digits| <= 40 && Pow10(-130) <= Magnitude(d) < Pow10(126))
  {
    if d != ZERO {
      PointIsMagnitude(d);
      if d.point < -129 {
        PowIsMonotone(d.point, -130);
      } else {
        PowIsMonotone(-130, d.point - 1);
      }
      if d.point > 126 {
        PowIsMonotone(126, d.point - 1);
      } else {
        PowIsMonotone(d.point, 126);
      }
    }
  }

  // ---- Reading the bytes ------------------------------------------------------------

  // Base-100 digits, and not only a zero.
  predicate Readable(ps: seq<int>) {
    (forall k | 0 <= k < |ps| :: 0 <= ps[k] < 100) && ps != [] && ps != [0]
  }

  // The pairs the decoder works with.
  function DecodedPairs(raw: seq<byte>): seq<byte>
    requires raw != []
  {
    NumberDecoding.PairsOf(WithoutTerminator(raw[1..], raw[0] >= 128), raw[0] >= 128)
  }

  lemma {:induction false} PairsUnbiased(bytes: seq<byte>, positive: bool)
    ensures forall k | 0 <= k < |bytes| :: var p := Unbiased(bytes, positive)[k];
      if 0 <= p < 100 then NumberDecoding.PairsOf(bytes, positive)[k] as int == p
      else NumberDecoding.PairsOf(bytes, positive)[k] >= 100
  {
  }

  lemma {:induction false} PairsAreRead(raw: seq<byte>)
    requires raw != []
    ensures |DecodedPairs(raw)| == |BytePairs(raw)|
    ensures forall k | 0 <= k < |BytePairs(raw)| ::
      if 0 <= BytePairs(raw)[k] < 100 then DecodedPairs(raw)[k] as int == BytePairs(raw)[k] else DecodedPairs(raw)[k] >= 100
  {
    PairsUnbiased(Body(raw), raw[0] >= 128);
    assert WithoutTerminator(raw[1..], raw[0] >= 128) == Body(raw) by {
      if |raw| > 1 {
        assert raw[1..][|raw| - 2] == raw[|raw| - 1];
        assert raw[1..][..|raw| - 2] == raw[1..|raw| - 1];
      }
    }
  }

  lemma {:induction false} ReadableUnpacks(ps: seq<byte>)
    requires AllPairs(ps)
    ensures DropBack(DropFront(Unpacked(ps))) == [] <==> ps == [] || ps == [0]
  {
    if |ps| == 1 {
      assert Unpacked(ps) == [HighDigit(ps[0]), LowDigit(ps[0])];
    }
  }

  lemma PairsOfUnpacked(ps: seq<pair>)
    ensures AllPairs(ps) && Pairs(Unpacked(ps)) == ps
  {
  }

  // Dropping a zero in front moves the point, dropping one at the back nothing.
  lemma {:induction false} DroppedKeepsValue(ds: seq<digit>, point: int)
    ensures Times(Fraction10(DropBack(DropFront(ds))), Pow10(if ds != [] && ds[0] == 0 then point - 1 else point)) ==
      Times(Fraction10(ds), Pow10(point))
  {
    var front := DropFront(ds);
    if front != [] && front[|front| - 1] == 0 {
      PaddingKeepsFraction(DropBack(front));
      assert front == DropBack(front) + [0];
    }
    if ds != [] && ds[0] == 0 {
      PaddingKeepsFraction(front);
      assert ds == [0] + front;
      PowStep(point - 1);
      Rescale(Fraction10(front), Pow10(point - 1));
    }
  }

  lemma {:induction false} PairsHoldValue(ps: seq<pair>, point: int)
    requires ps != []
    ensures AllPairs(ps)
    ensures Times(Fraction10(DropBack(DropFront(Unpacked(ps)))), Pow10(PairPoint(ps, point))) ==
      Times(Base100(ps), Pow10(point))
  {
    var ds := Unpacked(ps);
    PairsOfUnpacked(ps);
    PairsKeepFraction(ds);
    PairsInBase100(ps);
    FirstPair(ps);
    DroppedKeepsValue(ds, point);
  }

  // ---- Rendered digits ------------------------------------------------------------------

  // The two sides of the point as digits are rendered.
  function WholeSide(ds: seq<digit>, point: int): seq<digit> {
    if point <= 0 then [0] else if point >= |ds| then ds + Zeros(point - |ds|) else ds[..point]
  }

  function FractionSide(ds: seq<digit>, point: int): seq<digit> {
    if point <= 0 then Zeros(-point) + ds else if point >= |ds| then [] else ds[point..]
  }

  lemma {:induction false} RenderedIsPlain(ds: seq<digit>, point: int)
    requires ds != []
    ensures WholeSide(ds, point) != []
    ensures RenderMagnitude(ds, point) == Plain(WholeSide(ds, point), FractionSide(ds, point))
  {
    if point <= 0 {
      var zeros := Zeros(-point);
      TextConcat(zeros, ds);
      PlainSmall(zeros + ds);
      assert "0." + Text(zeros) + Text(ds) == "0." + (Text(zeros) + Text(ds));
    } else if point >= |ds| {
      var zeros := Zeros(point - |ds|);
      TextConcat(ds, zeros);
      assert Text(ds + zeros) + "" == Text(ds + zeros);
    } else {
      assert Text(ds[..point]) + ("." + Text(ds[point..])) == Text(ds[..point]) + "." + Text(ds[point..]);
    }
  }

  lemma {:induction false} RenderedValue(ds: seq<digit>, point: int)
    ensures PlainValue(WholeSide(ds, point), FractionSide(ds, point)) == Times(Fraction10(ds), Pow10(point))
  {
    if point <= 0 {
      SmallGroupsKeepValue(ds, -point);
    } else if point >= |ds| {
      AppendedZeros(ds, point - |ds|);
      assert ds + Zeros(point - |ds|) + [] == ds + Zeros(point - |ds|);
    } else {
      assert ds[..point] + ds[point..] == ds;
    }
  }

  // A text in plain notation denotes what its digits do.
  lemma {:induction false} PlainDenotes(negative: bool, whole: seq<digit>, fraction: seq<digit>)
    requires whole != []
    ensures var r := ParseDecimal((if negative then "-" else "") + Plain(whole, fraction));
      r.Success? && ValueOf(r.value) == SignedValue(negative, PlainValue(whole, fraction))
  {
    ParsePlain(negative, whole, fraction);
    NormalKeepsValue(negative, whole, fraction, 0);
    ZeroHasNoMagnitude();
  }

  lemma {:induction false} RenderedDenotes(negative: bool, ds: seq<digit>, point: int)
    requires ds != []
    ensures var r := ParseDecimal((if negative then "-" else "") + RenderMagnitude(ds, point));
      r.Success? && ValueOf(r.value) == SignedValue(negative, Times(Fraction10(ds), Pow10(point)))
  {
    RenderedIsPlain(ds, point);
    RenderedValue(ds, point);
    PlainDenotes(negative, WholeSide(ds, point), FractionSide(ds, point));
  }

  // The text parses, and to the number the bytes denote.
  ghost predicate ReadsAsDenoted(text: string, raw: seq<byte>)
    requires raw != []
  {
    ParseDecimal(text).Success? && ValueOf(ParseDecimal(text).value) == Denoted(raw)
  }

  // Bytes with an exponent and pairs that are base-100 digits are read as text
  // denoting their number; all others but those of zero fail.
  lemma {:induction false} DecodingDenotes(raw: seq<byte>)
    ensures Decoding(raw) == Failure(EmptyBind) <==> raw == []
    ensures Decoding(raw) == Failure(InvalidBind) <==> raw != [] && raw != [128] && !Readable(BytePairs(raw))
    ensures Decoding(raw).Success? ==> raw != [] && ReadsAsDenoted(Decoding(raw).value, raw)
  {
    if raw == [128] {
      ZeroIsRead();
    } else if raw != [] {
      var ps := DecodedPairs(raw);
      PairsAreRead(raw);
      if AllPairs(ps) {
        assert ps == BytePairs(raw);
        ReadableUnpacks(ps);
        if ps != [] && ps != [0] {
          PairsDenote(raw, ps);
        }
      }
    }
  }

  lemma {:induction false} ZeroIsRead()
    ensures ParseDecimal("0") == Success(ZERO) && ValueOf(ZERO) == 0.0
    ensures Denoted([128]) == 0.0
  {
    ParseInvertsRender(ZERO);
    ZeroHasNoMagnitude();
    assert BytePairs([128]) == [];
    NoDigitsNoValue(-128);
  }

  lemma {:induction false} PairsDenote(raw: seq<byte>, ps: seq<pair>)
    requires raw != [] && raw != [128] && ps == DecodedPairs(raw) == BytePairs(raw) && ps != [] && ps != [0]
    ensures Decoding(raw).Success? && ReadsAsDenoted(Decoding(raw).value, raw)
  {
    var positive := raw[0] >= 128;
    var point := 2 * (if positive then raw[0] as int - 192 else 63 - raw[0] as int);
    ReadableUnpacks(ps);
    PairsHoldValue(ps, point);
    var digits := DropBack(DropFront(Unpacked(ps)));
    RenderedDenotes(!positive, digits, PairPoint(ps, point));
    assert "" + RenderMagnitude(digits, PairPoint(ps, point)) == RenderMagnitude(digits, PairPoint(ps, point));
  }

  // ---- Integers -----------------------------------------------------------------------------

  lemma {:induction false} WholeValue(ds: seq<digit>)
    ensures PlainValue(ds, []) == NatOf(ds) as real
  {
    assert ds + [] == ds;
    if ds == [] {
      NoDigitsNoValue(0);
    } else {
      var init, d := ds[..|ds| - 1], ds[|ds| - 1];
      WholeValue(init);
      SplitValue(init, [d]);
      assert init + [d] == ds;
      PowStep(|init|);
      TenTimes(Fraction10(ds), Pow10(|init|));
      assert Fraction10([d]) == d as real / 10.0 by {
        assert Fraction10([d][1..]) == 0.0;
      }
    }
  }

  lemma TenTimes(x: real, p: real)
    ensures Times(x, 10.0 * p) == 10.0 * Times(x, p)
  {
  }

  lemma {:induction false} NatDigitsHold(n: nat)
    ensures NatOf(NatDigits(n)) == n
  {
    if n >= 10 {
      NatDigitsHold(n / 10);
      assert NatDigits(n)[..|NatDigits(n)| - 1] == NatDigits(n / 10);
    } else {
      assert NatDigits(n)[..0] == [];
    }
  }

  // The bytes of an integer denote that integer.
  lemma {:induction false} IntegerEncodingDenotes(v: int)
    requires IsI64(v)
    ensures IntegerEncoding(v) != [] && Denoted(IntegerEncoding(v)) == v as real
  {
    var ds := NatDigits(Abs(v));
    DecodeInvertsIntegerEncoding(v);
    DecodingDenotes(IntegerEncoding(v));
    PlainDenotes(v < 0, ds, []);
    assert Plain(ds, []) == Text(ds);
    WholeValue(ds);
    NatDigitsHold(Abs(v));
  }
}
