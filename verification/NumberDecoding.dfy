/** Reading NUMBER bytes back, and why that undoes both encoders. */
module NumberDecoding {
  import opened Wrappers
  import opened Machine
  import opened Decimals
  import opened OracleNumber

  // ---- Specification ------------------------------------------------------

  // The base-100 digit a mantissa byte stands for (`u8` subtraction wraps).
  function PairOf(b: byte, positive: bool): byte {
    if positive then (b + 255) % 256 else (357 - b) % 256
  }

  function PairsOf(mantissa: seq<byte>, positive: bool): (ps: seq<byte>)
    ensures |ps| == |mantissa|
  {
    seq(|mantissa|, k requires 0 <= k < |mantissa| => PairOf(mantissa[k], positive))
  }

  function WithoutTerminator(mantissa: seq<byte>, positive: bool): seq<byte> {
    if !positive && mantissa != [] && mantissa[|mantissa| - 1] == TERMINATOR
    then mantissa[..|mantissa| - 1] else mantissa
  }

  predicate AllPairs(ps: seq<byte>) {
    forall k | 0 <= k < |ps| :: ps[k] < 100
  }

  function HighDigit(p: byte): digit
    requires p < 100
  {
    p / 10
  }

  function LowDigit(p: byte): digit
    requires p < 100
  {
    p % 10
  }

  // Two decimal digits a pair.
  function Unpacked(ps: seq<byte>): (ds: seq<digit>)
    requires AllPairs(ps)
    ensures |ds| == 2 * |ps|
  {
    seq(2 * |ps|, i requires 0 <= i < 2 * |ps| =>
      if i % 2 == 0 then HighDigit(ps[i / 2]) else LowDigit(ps[i / 2]))
  }

  // Without the padding zeros alignment may have put at the two ends.
  function DropFront(ds: seq<digit>): seq<digit> {
    if ds != [] && ds[0] == 0 then ds[1..] else ds
  }

  function DropBack(ds: seq<digit>): seq<digit> {
    if ds != [] && ds[|ds| - 1] == 0 then ds[..|ds| - 1] else ds
  }

  // The digits the pairs hold, and where their point is.
  function PairDigits(ps: seq<byte>): Option<seq<digit>> {
    if AllPairs(ps) then
      var digits := DropBack(DropFront(Unpacked(ps)));
      if digits == [] then None else Some(digits)
    else None
  }

  function PairPoint(ps: seq<byte>, exponentPoint: int): int {
    exponentPoint - if ps != [] && ps[0] < 10 then 1 else 0
  }

  function DecodedMagnitude(ps: seq<byte>, exponent: byte): Result<string, Error> {
    match PairDigits(ps)
    case None => Failure(InvalidBind)
    case Some(digits) => Success(RenderMagnitude(digits, PairPoint(ps, 2 * (exponent as int - 192))))
  }

  function Signed(positive: bool, magnitude: Result<string, Error>): Result<string, Error> {
    if positive || magnitude.Failure? then magnitude else Success("-" + magnitude.value)
  }

  function Decoding(raw: seq<byte>): Result<string, Error> {
    if raw == [0x80] then Success("0")
    else if raw == [] then Failure(EmptyBind)
    else
      var positive := raw[0] >= 0x80;
      Signed(positive, DecodedMagnitude(
        PairsOf(WithoutTerminator(raw[1..], positive), positive),
        if positive then raw[0] else 255 - raw[0]))
  }

  // ---- Decoding -------------------------------------------------------------

  // The digits after one more pair, as the loop pushes them.
  function Push(digits: seq<digit>, high: digit, low: digit, last: bool): seq<digit> {
    (if high == 0 && digits == [] then digits else digits + [high]) + if low != 0 || !last then [low] else []
  }

  lemma PushExtends(ds: seq<digit>, high: digit, low: digit)
    requires |ds| % 2 == 0
    ensures Push(DropFront(ds), high, low, false) == DropFront(ds + [high, low])
    ensures Push(DropFront(ds), high, low, true) == DropBack(DropFront(ds + [high, low]))
  {
    if ds == [] {
      assert ds + [high, low] == [high, low];
    } else {
      assert DropFront(ds + [high, low]) == DropFront(ds) + [high, low];
    }
  }

  method PushPair(before: seq<digit>, high: digit, low: digit, last: bool) returns (digits: seq<digit>)
    ensures digits == Push(before, high, low, last)
  {
    digits := before;
    if !(high == 0 && digits == []) {
      digits := digits + [high];
    }
    if low != 0 || !last {
      digits := digits + [low];
    }
  }

  // What the loop has pushed once `index` of all the pairs are read.
  ghost function Pushed(ps: seq<byte>, index: nat): seq<digit>
    requires index <= |ps| && AllPairs(ps[..index])
  {
    var ds := DropFront(Unpacked(ps[..index]));
    if index == |ps| then DropBack(ds) else ds
  }

  lemma DecodeStep(ps: seq<byte>, index: nat)
    requires index < |ps| && AllPairs(ps[..index]) && ps[index] < 100
    ensures AllPairs(ps[..index + 1])
    ensures Pushed(ps, index + 1) ==
      Push(Pushed(ps, index), HighDigit(ps[index]), LowDigit(ps[index]), index + 1 == |ps|)
    ensures Pushed(ps, index) == [] <==> index == 0
  {
    assert ps[..index + 1] == ps[..index] + [ps[index]];
    UnpackOneMore(ps[..index], ps[index]);
    PushExtends(Unpacked(ps[..index]), HighDigit(ps[index]), LowDigit(ps[index]));
  }

  method DecodePairs(mantissa: seq<byte>, positive: bool, exponentPoint: int)
    returns (digits: Option<seq<digit>>, decimalPoint: int)
    ensures digits == PairDigits(PairsOf(mantissa, positive))
    ensures digits.Some? ==> decimalPoint == PairPoint(PairsOf(mantissa, positive), exponentPoint)
  {
    ghost var ps := PairsOf(mantissa, positive);
    var pushed: seq<digit> := [];
    decimalPoint := exponentPoint;
    var index := 0;
    while index < |mantissa|
      invariant 0 <= index <= |mantissa|
      invariant AllPairs(ps[..index])
      invariant pushed == Pushed(ps, index)
      invariant decimalPoint == if index > 0 then PairPoint(ps, exponentPoint) else exponentPoint
    {
      var pair := PairOf(mantissa[index], positive);
      if pair > 99 {
        assert ps[index] == pair;
        return None, decimalPoint;
      }
      DecodeStep(ps, index);
      var high, low := HighDigit(pair), LowDigit(pair);
      if high == 0 && pushed == [] {
        decimalPoint := decimalPoint - 1;
      }
      pushed := PushPair(pushed, high, low, index + 1 == |mantissa|);
      index := index + 1;
    }
    assert ps[..index] == ps;
    digits := if pushed == [] then None else Some(pushed);
  }

  method DecodeMagnitude(mantissa: seq<byte>, positive: bool, exponent: byte) returns (r: Result<string, Error>)
    ensures r == DecodedMagnitude(PairsOf(mantissa, positive), exponent)
  {
    var decimalPoint := (exponent as int - 193) * 2 + 2;
    var digits, point := DecodePairs(mantissa, positive, decimalPoint);
    if digits.None? {
      return Failure(InvalidBind);
    }
    r := Success(RenderMagnitude(digits.value, point));
  }

  method DecodeOracleNumber(raw: seq<byte>) returns (r: Result<string, Error>)
    ensures r == Decoding(raw)
  {
    if raw == [0x80] {
      return Success("0");
    }
    if raw == [] {
      return Failure(EmptyBind);
    }
    var exponent, mantissa := raw[0], raw[1..];
    var positive := exponent >= 0x80;
    if !positive && mantissa != [] && mantissa[|mantissa| - 1] == TERMINATOR {
      mantissa := mantissa[..|mantissa| - 1];
    }
    var magnitude := DecodeMagnitude(mantissa, positive, if positive then exponent else 255 - exponent);
    r := Signed(positive, magnitude);
  }

  lemma UnpackOneMore(ps: seq<byte>, pair: byte)
    requires AllPairs(ps) && pair < 100
    ensures AllPairs(ps + [pair])
    ensures Unpacked(ps + [pair]) == Unpacked(ps) + [HighDigit(pair), LowDigit(pair)]
  {
  }

  // ---- Round trips ------------------------------------------------------------

  lemma PairsOfMantissa(negative: bool, ps: seq<pair>)
    ensures PairsOf(Mantissa(negative, ps), !negative) == ps
    ensures forall b <- Mantissa(negative, ps) :: b != TERMINATOR
  {
  }

  lemma UnpackedPairs(ds: seq<digit>)
    requires |ds| % 2 == 0
    ensures AllPairs(Pairs(ds)) && Unpacked(Pairs(ds)) == ds
  {
  }

  lemma TerminatorComesOff(ps: seq<pair>, tail: seq<byte>)
    requires tail == [] || tail == [TERMINATOR]
    ensures WithoutTerminator(Mantissa(true, ps) + tail, false) == Mantissa(true, ps)
    ensures WithoutTerminator(Mantissa(false, ps), true) == Mantissa(false, ps)
  {
    var body := Mantissa(true, ps);
    PairsOfMantissa(true, ps);
    if tail != [] {
      assert (body + tail)[..|body|] == body;
    } else {
      assert body + tail == body;
    }
  }

  lemma AssembledParts(negative: bool, exponent: byte, ps: seq<pair>)
    requires exponent >= 0x80 && ps != []
    ensures var raw := Assemble(negative, exponent, ps);
      && |raw| > 1 && raw[0] == (if negative then 255 - exponent else exponent)
      && WithoutTerminator(raw[1..], !negative) == Mantissa(negative, ps)
  {
    var raw := Assemble(negative, exponent, ps);
    var tail := if negative && |ps| < 20 then [TERMINATOR] else [];
    TerminatorComesOff(ps, tail);
    assert raw[1..] == Mantissa(negative, ps) + tail;
    assert !negative ==> Mantissa(false, ps) + tail == Mantissa(false, ps);
  }

  lemma {:induction false} DecodeAssembled(negative: bool, exponent: byte, ps: seq<pair>)
    requires exponent >= 0x80 && ps != []
    ensures Decoding(Assemble(negative, exponent, ps)) == Signed(!negative, DecodedMagnitude(ps, exponent))
  {
    AssembledParts(negative, exponent, ps);
    PairsOfMantissa(negative, ps);
  }

  lemma AlignedEnds(d: Decimal)
    requires Canonical(d) && d != ZERO
    ensures var a := Aligned(d.digits, d.point);
      && DropBack(DropFront(a)) == d.digits
      && a != [] && (a[0] == 0 <==> d.point % 2 != 0)
  {
  }

  lemma EncodingFits(d: Decimal)
    requires Accepted(d)
    ensures |Encoding(d)| <= COLUMN_WIDTH
  {
    var a := Aligned(d.digits, d.point);
    assert |a| <= MAX_DIGITS + 2;
    assert |Mantissa(d.negative, Pairs(a))| == |a| / 2 <= 21;
  }

  // Every accepted text encodes to at most the 22 bytes of the column, and
  // decodes to the canonical text of the same number, which parses back to it.
  lemma DecodeInvertsEncode(d: Decimal)
    requires Canonical(d) && Accepted(d)
    ensures Decoding(Encoding(d)).Success? && Decoding(Encoding(d)).value == Render(d)
    ensures |Encoding(d)| <= COLUMN_WIDTH
    ensures ParseDecimal(Render(d)) == Success(d)
  {
    ParseInvertsRender(d);
    EncodingFits(d);
    if d != ZERO {
      var a := Aligned(d.digits, d.point);
      AlignedEnds(d);
      UnpackedPairs(a);
      MagnitudeOfAligned(d, Pairs(a));
      DecodeAssembled(d.negative, ExponentByte(d.point), Pairs(a));
    }
  }

  lemma PointOfAligned(point: int)
    requires -129 <= point <= 126
    ensures point == 2 * (ExponentByte(point) as int - 192) - if point % 2 != 0 then 1 else 0
  {
  }

  lemma MagnitudeOfAligned(d: Decimal, ps: seq<byte>)
    requires Canonical(d) && d != ZERO && Accepted(d)
    requires AllPairs(ps) && Unpacked(ps) == Aligned(d.digits, d.point)
    ensures DecodedMagnitude(ps, ExponentByte(d.point)).Success?
    ensures DecodedMagnitude(ps, ExponentByte(d.point)).value == RenderMagnitude(d.digits, d.point)
  {
    AlignedEnds(d);
    PointOfAligned(d.point);
    assert ps[0] < 10 <==> Unpacked(ps)[0] == 0;
    assert PairDigits(ps).Some? && PairDigits(ps).value == d.digits;
    assert PairPoint(ps, 2 * (ExponentByte(d.point) as int - 192)) == d.point;
  }

  // The bytes are a faithful key: two accepted numbers share them only if equal.
  lemma EncodingIsInjective(a: Decimal, b: Decimal)
    requires Canonical(a) && Accepted(a) && Canonical(b) && Accepted(b)
    requires Encoding(a) == Encoding(b)
    ensures a == b
  {
    DecodeInvertsEncode(a);
    DecodeInvertsEncode(b);
  }
}
