/** PostgreSQL's binary numeric as decimal text, and the whole way to NUMBER and back. */
module PgNumeric {
  import opened Wrappers
  import opened Machine
  import opened Decimals
  import opened OracleNumber
  import opened NumberDecoding
  import opened NumberOrder

  const NAN_SIGN: nat := 0xC000
  const NEGATIVE_SIGN: nat := 0x4000

  type u16 = x: int | 0 <= x < 65536

  datatype Numeric = Numeric(groups: seq<u16>, weight: int, sign: nat, scale: nat)

  datatype WireError = TooShort | Truncated

  // ---- Reading the payload ------------------------------------------------

  function U16(raw: seq<byte>, at: nat): (v: u16)
    requires at + 2 <= |raw|
  {
    256 * raw[at] as int + raw[at + 1] as int
  }

  function I16(raw: seq<byte>, at: nat): int
    requires at + 2 <= |raw|
  {
    if U16(raw, at) < 32768 then U16(raw, at) else U16(raw, at) as int - 65536
  }

  // The payload PostgreSQL sends for a value, its scale of either sign.
  function PayloadOf(groups: seq<u16>, weight: int, sign: nat, scale: int): (raw: seq<byte>)
    requires |groups| < 32768 && -32768 <= weight < 32768 && sign < 65536 && -32768 <= scale < 32768
    ensures |raw| == 8 + 2 * |groups|
  {
    Word(|groups|) + Word(weight % 65536) + Word(sign) + Word(scale % 65536) + GroupBytes(groups)
  }

  function Word(v: u16): (s: seq<byte>)
    ensures |s| == 2
  {
    [v / 256, v % 256]
  }

  function GroupBytes(groups: seq<u16>): (s: seq<byte>)
    ensures |s| == 2 * |groups|
    ensures forall k | 0 <= k < |groups| :: U16(s, 2 * k) == groups[k]
  {
    if groups == [] then []
    else
      var init, last := groups[..|groups| - 1], groups[|groups| - 1];
      GroupBytes(init) + Word(last)
  }

  predicate OnWire(x: Numeric) {
    |x.groups| < 32768 && -32768 <= x.weight < 32768 && x.sign < 65536 && x.scale < 32768
  }

  function GroupsAt(raw: seq<byte>, n: nat): (groups: seq<u16>)
    requires 8 + 2 * n <= |raw|
    ensures |groups| == n
  {
    seq(n, k requires 0 <= k < n => U16(raw, 8 + 2 * k))
  }

  // What a payload with all of its groups says, whatever bytes follow them; a
  // negative scale counts as none.
  function Parsed(raw: seq<byte>): Numeric
    requires |raw| >= 8 && |raw| >= 8 + 2 * U16(raw, 0)
  {
    Numeric(GroupsAt(raw, U16(raw, 0)), I16(raw, 2), U16(raw, 4), if U16(raw, 6) < 32768 then U16(raw, 6) else 0)
  }

  // A negative group count is not a payload PostgreSQL produces; converted to
  // `usize` it would not be a length any payload has.
  method FromSql(raw: seq<byte>) returns (r: Result<string, WireError>)
    requires |raw| >= 8 && U16(raw, 4) != 0xC000 ==> raw[0] < 128
    ensures |raw| < 8 ==> r == Failure(TooShort)
    ensures |raw| >= 8 && U16(raw, 4) == 0xC000 ==> r == Success("0")
    ensures |raw| >= 8 && U16(raw, 4) != 0xC000 ==>
      r == if |raw| < 8 + 2 * U16(raw, 0) then Failure(Truncated) else Success(NumericText(Parsed(raw)))
  {
    if |raw| < 8 {
      return Failure(TooShort);
    }
    var n: nat := U16(raw, 0);
    var weight := I16(raw, 2);
    var sign := U16(raw, 4);
    var scale := if I16(raw, 6) > 0 then I16(raw, 6) else 0;
    if sign == NAN_SIGN {
      return Success("0");
    }
    if |raw| < 8 + n * 2 {
      return Failure(Truncated);
    }
    var groups: seq<u16> := [];
    var i := 0;
    while i < n
      invariant 0 <= i <= n && groups == GroupsAt(raw, i)
    {
      groups := groups + [U16(raw, 8 + i * 2)];
      i := i + 1;
    }
    r := Success(NumericText(Numeric(groups, weight, sign, scale)));
  }

  // Reading a payload gives the value it was made from, with anything after it;
  // a negative scale is read as none.
  lemma {:induction false} ParsedInvertsPayload(groups: seq<u16>, weight: int, sign: nat, scale: int, suffix: seq<byte>)
    requires |groups| < 32768 && -32768 <= weight < 32768 && sign < 65536 && -32768 <= scale < 32768
    ensures var raw := PayloadOf(groups, weight, sign, scale) + suffix;
      && |raw| >= 8 && |raw| >= 8 + 2 * U16(raw, 0) && U16(raw, 4) == sign && raw[0] < 128
      && Parsed(raw) == Numeric(groups, weight, sign, if scale < 0 then 0 else scale)
  {
    var raw, bytes := PayloadOf(groups, weight, sign, scale) + suffix, GroupBytes(groups);
    assert U16(raw, 0) == |groups|;
    forall k | 0 <= k < |groups| ensures groups[k] == U16(raw, 8 + 2 * k) {
      assert raw[8 + 2 * k] == bytes[2 * k] && raw[8 + 2 * k + 1] == bytes[2 * k + 1];
    }
    assert GroupsAt(raw, |groups|) == groups;
  }

  // The infinities, which have signs of their own and no groups, read as zero.
  lemma NoGroupsReadAsZero(x: Numeric)
    requires x.groups == []
    ensures NumericText(x) == if x.sign == NEGATIVE_SIGN then "-0" else "0"
  {
    var point := x.weight + 1;
    if point > 0 {
      GroupDigitsPastEnd(x.groups, 0, point);
      assert LeadingZeros(Zeros(4 * point)) == 4 * point;
    } else {
      assert Zeros(4 * -point) + [] == Zeros(4 * -point);
      assert TrimZeros(Zeros(4 * -point)) == [];
    }
    assert Text([0]) == "0" && Plain([0], []) == "0";
  }

  // ---- The text -----------------------------------------------------------

  // `{:04}` of a base-10000 digit; only malformed groups need a fifth place.
  function Padded(g: u16): (ds: seq<digit>)
    ensures g < 10000 ==> |ds| == 4
  {
    (if g >= 10000 then [g / 10000] else []) + [g / 1000 % 10, g / 100 % 10, g / 10 % 10, g % 10]
  }

  // Even a malformed group keeps its number, in five digits.
  lemma {:induction false} PaddedHolds(g: u16)
    ensures |Padded(g)| == (if g < 10000 then 4 else 5) && NatOf(Padded(g)) == g as int
  {
    var n, ds := g as int, Padded(g);
    assert n / 100 == n / 10 / 10 && n / 1000 == n / 10 / 10 / 10 && n / 10000 == n / 10 / 10 / 10 / 10;
    NatOfFour(if n >= 10000 then [(n / 10000) as digit] else [], ds[|ds| - 4], ds[|ds| - 3], ds[|ds| - 2], ds[|ds| - 1]);
    assert ds == (if n >= 10000 then [(n / 10000) as digit] else []) + [ds[|ds| - 4], ds[|ds| - 3], ds[|ds| - 2], ds[|ds| - 1]];
    if n >= 10000 {
      assert [(n / 10000) as digit][..0] == [];
    }
  }

  lemma {:induction false} NatOfFour(front: seq<digit>, a: digit, b: digit, c: digit, d: digit)
    ensures NatOf(front + [a, b, c, d]) == 10000 * NatOf(front) + 1000 * a as int + 100 * b as int + 10 * c as int + d as int
  {
    var x, y, z, w := front + [a], front + [a, b], front + [a, b, c], front + [a, b, c, d];
    assert w[..|w| - 1] == z && z[..|z| - 1] == y && y[..|y| - 1] == x && x[..|x| - 1] == front;
    assert NatOf(x) == 10 * NatOf(front) + a as int;
    assert NatOf(y) == 10 * NatOf(x) + b as int;
    assert NatOf(z) == 10 * NatOf(y) + c as int;
  }

  // The digits of groups `from` up to `end`, groups past the end counting as zero.
  function GroupDigits(groups: seq<u16>, from: nat, end: nat): seq<digit>
    decreases end - from
  {
    if from >= end then []
    else GroupAt(groups, from) + GroupDigits(groups, from + 1, end)
  }

  function GroupAt(groups: seq<u16>, k: nat): seq<digit> {
    if k < |groups| then Padded(groups[k]) else Zeros(4)
  }

  function StripFront(ds: seq<digit>): (r: seq<digit>)
    ensures r != []
  {
    if LeadingZeros(ds) == |ds| then [0] else ds[LeadingZeros(ds)..]
  }

  function IntegerDigits(x: Numeric): (ds: seq<digit>)
    ensures ds != []
  {
    var point := x.weight + 1;
    if point <= 0 then [0] else StripFront(GroupDigits(x.groups, 0, point))
  }

  function FractionDigits(x: Numeric): seq<digit>
  {
    var point := x.weight + 1;
    if point <= 0 then Zeros(4 * -point) + GroupDigits(x.groups, 0, |x.groups|)
    else GroupDigits(x.groups, point, |x.groups|)
  }

  function KeptFraction(x: Numeric): seq<digit>
  {
    if x.scale == 0 then [] else TrimZeros(FractionDigits(x))
  }

  function NumericText(x: Numeric): string
  {
    (if x.sign == NEGATIVE_SIGN then "-" else "") + Plain(IntegerDigits(x), KeptFraction(x))
  }

  // ---- What the text denotes ------------------------------------------------

  predicate Base10000(groups: seq<u16>) {
    forall k | 0 <= k < |groups| :: groups[k] < 10000
  }

  predicate WellFormed(x: Numeric) {
    && OnWire(x) && (x.sign == 0 || x.sign == 0x4000)
    && Base10000(x.groups)
  }

  // The sum of g_i times 10000 to the power of weight - i.
  ghost function GroupSum(groups: seq<u16>, weight: int): real {
    if groups == [] then 0.0
    else Times(groups[0] as real, Pow10(4 * weight)) + GroupSum(groups[1..], weight - 1)
  }

  ghost function NumericValue(x: Numeric): real {
    if x.sign == 0x4000 then -GroupSum(x.groups, x.weight) else GroupSum(x.groups, x.weight)
  }

  // whole.fraction as a number.
  ghost function PlainValue(whole: seq<digit>, fraction: seq<digit>): real {
    Times(Fraction10(whole + fraction), Pow10(|whole|))
  }

  lemma {:induction false} AppendedZeros(ds: seq<digit>, k: nat)
    ensures Fraction10(ds + Zeros(k)) == Fraction10(ds)
  {
    if k == 0 {
      assert ds + Zeros(0) == ds;
    } else {
      AppendedZeros(ds, k - 1);
      assert ds + Zeros(k) == (ds + Zeros(k - 1)) + [0];
      PaddingKeepsFraction(ds + Zeros(k - 1));
    }
  }

  lemma {:induction false} PrependedZeros(k: nat, ds: seq<digit>, point: int)
    ensures Times(Fraction10(Zeros(k) + ds), Pow10(point + k)) == Times(Fraction10(ds), Pow10(point))
  {
    if k == 0 {
      assert Zeros(0) + ds == ds;
    } else {
      PrependedZeros(k - 1, ds, point);
      var inner := Zeros(k - 1) + ds;
      assert Zeros(k) + ds == [0] + inner;
      PaddingKeepsFraction(inner);
      PowStep(point + k - 1);
      Rescale(Fraction10(inner), Pow10(point + k - 1));
    }
  }

  lemma ZerosInFront(ds: seq<digit>)
    ensures ds == Zeros(LeadingZeros(ds)) + ds[LeadingZeros(ds)..]
  {
  }

  lemma ZerosAtBack(ds: seq<digit>)
    ensures ds == TrimZeros(ds) + Zeros(|ds| - |TrimZeros(ds)|)
  {
  }

  lemma TrimmingKeepsFraction(ds: seq<digit>)
    ensures Fraction10(TrimZeros(ds)) == Fraction10(ds)
  {
    ZerosAtBack(ds);
    AppendedZeros(TrimZeros(ds), |ds| - |TrimZeros(ds)|);
  }

  // Canonical form keeps the number.
  lemma NormalKeepsValue(negative: bool, whole: seq<digit>, fraction: seq<digit>, exponent: int)
    ensures Magnitude(Normal(negative, whole, fraction, exponent)) ==
      Times(Fraction10(whole + fraction), Pow10(|whole| + exponent))
  {
    var all := whole + fraction;
    var z := LeadingZeros(all);
    var rest, p := all[z..], |whole| - z + exponent;
    var t := TrimZeros(rest);
    NoDigitsNoValue(p);
    calc {
      Times(Fraction10(all), Pow10(|whole| + exponent));
      { ZerosInFront(all); assert |whole| + exponent == p + z; }
      Times(Fraction10(Zeros(z) + rest), Pow10(p + z));
      { PrependedZeros(z, rest, p); }
      Times(Fraction10(rest), Pow10(p));
      { TrimmingKeepsFraction(rest); }
      Times(Fraction10(t), Pow10(p));
      { NormalMagnitude(negative, whole, fraction, exponent, t, p); }
      Magnitude(Normal(negative, whole, fraction, exponent));
    }
  }

  lemma NormalMagnitude(negative: bool, whole: seq<digit>, fraction: seq<digit>, exponent: int, t: seq<digit>, p: int)
    requires t == TrimZeros((whole + fraction)[LeadingZeros(whole + fraction)..])
    requires p == |whole| - LeadingZeros(whole + fraction) + exponent
    ensures Magnitude(Normal(negative, whole, fraction, exponent)) == Times(Fraction10(t), Pow10(p))
  {
    NoDigitsNoValue(p);
    NoDigitsNoValue(ZERO.point);
  }

  lemma NoDigitsNoValue(e: int)
    ensures Times(Fraction10([]), Pow10(e)) == 0.0
  {
  }

  lemma StripKeepsValue(whole: seq<digit>, fraction: seq<digit>)
    ensures PlainValue(StripFront(whole), fraction) == PlainValue(whole, fraction)
  {
    var z := LeadingZeros(whole);
    ZerosInFront(whole);
    if z == |whole| {
      assert whole + fraction == Zeros(z) + fraction;
      assert [0] + fraction == Zeros(1) + fraction;
      PrependedZeros(z, fraction, 0);
      PrependedZeros(1, fraction, 0);
    } else {
      assert whole + fraction == Zeros(z) + (whole[z..] + fraction);
      PrependedZeros(z, whole[z..] + fraction, |whole| - z);
    }
  }

  lemma TrimKeepsValue(whole: seq<digit>, fraction: seq<digit>)
    ensures PlainValue(whole, TrimZeros(fraction)) == PlainValue(whole, fraction)
  {
    ZerosAtBack(fraction);
    var t := TrimZeros(fraction);
    assert whole + fraction == (whole + t) + Zeros(|fraction| - |t|);
    AppendedZeros(whole + t, |fraction| - |t|);
  }

  lemma {:induction false} SplitValue(whole: seq<digit>, fraction: seq<digit>)
    ensures PlainValue(whole, fraction) == PlainValue(whole, []) + Fraction10(fraction)
  {
    assert whole + [] == whole;
    if whole == [] {
      assert whole + fraction == fraction;
      assert Times(Fraction10(fraction), Pow10(0)) == Fraction10(fraction);
      assert Times(Fraction10([]), Pow10(0)) == 0.0;
    } else {
      var d, rest := whole[0], whole[1..];
      SplitValue(rest, fraction);
      assert rest + [] == rest;
      assert (whole + fraction)[1..] == rest + fraction;
      PowStep(|rest|);
      LeadDigit(d as real, Fraction10(rest + fraction), Pow10(|rest|));
      LeadDigit(d as real, Fraction10(rest), Pow10(|rest|));
    }
  }

  lemma LeadDigit(d: real, f: real, p: real)
    ensures Times((d + f) / 10.0, 10.0 * p) == Times(d, p) + Times(f, p)
  {
  }

  predicate AllZero(ds: seq<digit>) {
    forall k | 0 <= k < |ds| :: ds[k] == 0
  }

  lemma {:induction false} ZeroFraction(ds: seq<digit>)
    ensures Fraction10(ds) >= 0.0
    ensures Fraction10(ds) == 0.0 <==> AllZero(ds)
  {
    if ds != [] {
      ZeroFraction(ds[1..]);
      assert AllZero(ds) <==> ds[0] == 0 && AllZero(ds[1..]) by {
        assert forall k | 1 <= k < |ds| :: ds[k] == ds[1..][k - 1];
      }
    }
  }

  // ---- Groups and digits ----------------------------------------------------

  lemma PaddedDigits(g: u16)
    requires g < 10000
    ensures var p := Padded(g);
      g as int == 1000 * p[0] as int + 100 * p[1] as int + 10 * p[2] as int + p[3] as int
  {
    var n: int := g;
    assert n / 100 == n / 10 / 10 && n / 1000 == n / 10 / 10 / 10;
    assert n / 1000 % 10 == n / 1000;
  }

  lemma FourDigits(a: real, b: real, c: real, d: real, f: real)
    ensures (a + (b + (c + (d + f) / 10.0) / 10.0) / 10.0) / 10.0 ==
      (1000.0 * a + 100.0 * b + 10.0 * c + d + f) / 10000.0
  {
  }

  lemma FractionOfFour(ds: seq<digit>, rest: seq<digit>)
    requires |ds| >= 4 && ds[4..] == rest
    ensures Fraction10(ds) ==
      (ds[0] as real + (ds[1] as real + (ds[2] as real + (ds[3] as real + Fraction10(rest)) / 10.0) / 10.0) / 10.0) / 10.0
  {
    var x, y, z := ds[1..], ds[2..], ds[3..];
    assert x[1..] == y && y[1..] == z && z[1..] == rest;
    assert Fraction10(z) == (z[0] as real + Fraction10(rest)) / 10.0;
    assert Fraction10(y) == (y[0] as real + Fraction10(z)) / 10.0;
    assert Fraction10(x) == (x[0] as real + Fraction10(y)) / 10.0;
  }

  lemma FractionOfPadded(g: u16, rest: seq<digit>)
    requires g < 10000
    ensures Fraction10(Padded(g) + rest) == (g as real + Fraction10(rest)) / 10000.0
  {
    var p := Padded(g);
    PaddedDigits(g);
    assert (p + rest)[4..] == rest;
    FractionOfFour(p + rest, rest);
    FourDigits(p[0] as real, p[1] as real, p[2] as real, p[3] as real, Fraction10(rest));
  }

  lemma {:induction false} GroupDigitsLength(groups: seq<u16>, from: nat, end: nat)
    requires Base10000(groups) && from <= end
    ensures |GroupDigits(groups, from, end)| == 4 * (end - from)
    decreases end - from
  {
    if from < end {
      GroupDigitsLength(groups, from + 1, end);
    }
  }

  lemma Regrouped(a: seq<digit>, b: seq<digit>, c: seq<digit>)
    ensures a + (b + c) == a + b + c
  {
  }

  lemma {:induction false} GroupDigitsSplit(groups: seq<u16>, from: nat, mid: nat, end: nat)
    requires from <= mid <= end
    ensures GroupDigits(groups, from, end) == GroupDigits(groups, from, mid) + GroupDigits(groups, mid, end)
    decreases mid - from
  {
    if from < mid {
      GroupDigitsSplit(groups, from + 1, mid, end);
      Regrouped(GroupAt(groups, from), GroupDigits(groups, from + 1, mid), GroupDigits(groups, mid, end));
    }
  }

  lemma {:induction false} GroupDigitsPastEnd(groups: seq<u16>, from: nat, end: nat)
    requires |groups| <= from <= end
    ensures GroupDigits(groups, from, end) == Zeros(4 * (end - from))
    decreases end - from
  {
    if from < end {
      GroupDigitsPastEnd(groups, from + 1, end);
    }
  }

  lemma PowStep4(e: int)
    ensures Pow10(e + 4) == 10000.0 * Pow10(e)
  {
    PowStep(e);
    PowStep(e + 1);
    PowStep(e + 2);
    PowStep(e + 3);
  }

  lemma LeadGroup(g: real, f: real, p: real)
    ensures Times((g + f) / 10000.0, 10000.0 * p) == Times(g, p) + Times(f, p)
  {
  }

  lemma {:induction false} GroupDigitsValue(groups: seq<u16>, k: nat, weight: int)
    requires Base10000(groups) && k <= |groups|
    ensures Times(Fraction10(GroupDigits(groups, k, |groups|)), Pow10(4 * (weight + 1))) == GroupSum(groups[k..], weight)
    decreases |groups| - k
  {
    if k == |groups| {
      NoDigitsNoValue(4 * (weight + 1));
    } else {
      GroupDigitsValue(groups, k + 1, weight - 1);
      var rest := GroupDigits(groups, k + 1, |groups|);
      FractionOfPadded(groups[k], rest);
      PowStep4(4 * weight);
      LeadGroup(groups[k] as real, Fraction10(rest), Pow10(4 * weight));
      assert groups[k..][1..] == groups[k + 1..];
    }
  }

  // The integer digits of whole groups, cut short or filled up with zeros.
  lemma WholeGroupsKeepValue(groups: seq<u16>, point: nat, n: nat)
    requires Base10000(groups) && n == |groups|
    ensures PlainValue(GroupDigits(groups, 0, point), GroupDigits(groups, point, n)) ==
      Times(Fraction10(GroupDigits(groups, 0, n)), Pow10(4 * point))
  {
    var all, whole, fraction := GroupDigits(groups, 0, n), GroupDigits(groups, 0, point), GroupDigits(groups, point, n);
    GroupDigitsLength(groups, 0, point);
    if point <= n {
      GroupDigitsSplit(groups, 0, point, n);
    } else {
      GroupDigitsSplit(groups, 0, n, point);
      GroupDigitsPastEnd(groups, n, point);
      assert whole + fraction == all + Zeros(4 * (point - n));
      AppendedZeros(all, 4 * (point - n));
    }
  }

  lemma SmallGroupsKeepValue(all: seq<digit>, k: nat)
    ensures PlainValue([0], Zeros(k) + all) == Times(Fraction10(all), Pow10(-(k as int)))
  {
    var p := -(k as int);
    calc {
      PlainValue([0], Zeros(k) + all);
      { assert [0] + (Zeros(k) + all) == Zeros(1 + k) + all; assert |[0]| == p + (1 + k); }
      Times(Fraction10(Zeros(1 + k) + all), Pow10(p + (1 + k)));
      { PrependedZeros(1 + k, all, p); }
      Times(Fraction10(all), Pow10(p));
    }
  }

  lemma {:induction false} SmallSum(x: Numeric, k: nat, all: seq<digit>)
    requires WellFormed(x) && x.weight < 0 && k == 4 * (-1 - x.weight)
    requires all == GroupDigits(x.groups, 0, |x.groups|)
    ensures PlainValue([0], Zeros(k) + all) == GroupSum(x.groups, x.weight)
  {
    assert x.groups[0..] == x.groups;
    GroupDigitsValue(x.groups, 0, x.weight);
    SmallGroupsKeepValue(all, k);
  }

  lemma {:induction false} WholeSum(x: Numeric, point: nat, whole: seq<digit>, fraction: seq<digit>)
    requires WellFormed(x) && point == x.weight + 1
    requires whole == GroupDigits(x.groups, 0, point) && fraction == GroupDigits(x.groups, point, |x.groups|)
    ensures PlainValue(StripFront(whole), fraction) == GroupSum(x.groups, x.weight)
  {
    assert x.groups[0..] == x.groups;
    GroupDigitsValue(x.groups, 0, x.weight);
    StripKeepsValue(whole, fraction);
    WholeGroupsKeepValue(x.groups, point, |x.groups|);
  }

  lemma {:induction false} SmallDigits(x: Numeric, k: nat, all: seq<digit>)
    requires x.weight < 0 && k == 4 * (-1 - x.weight) && all == GroupDigits(x.groups, 0, |x.groups|)
    ensures IntegerDigits(x) == [0] && FractionDigits(x) == Zeros(k) + all
  {
  }

  lemma {:induction false} WholeDigits(x: Numeric, whole: seq<digit>, fraction: seq<digit>)
    requires x.weight >= 0 && whole == GroupDigits(x.groups, 0, x.weight + 1)
    requires fraction == GroupDigits(x.groups, x.weight + 1, |x.groups|)
    ensures IntegerDigits(x) == StripFront(whole) && FractionDigits(x) == fraction
  {
  }

  lemma {:induction false} DigitsHoldTheSum(x: Numeric)
    requires WellFormed(x)
    ensures PlainValue(IntegerDigits(x), FractionDigits(x)) == GroupSum(x.groups, x.weight)
  {
    var n, point := |x.groups|, x.weight + 1;
    if point <= 0 {
      var k, all := 4 * -point, GroupDigits(x.groups, 0, n);
      SmallDigits(x, k, all);
      SmallSum(x, k, all);
    } else {
      var whole, fraction := GroupDigits(x.groups, 0, point), GroupDigits(x.groups, point, n);
      WholeDigits(x, whole, fraction);
      WholeSum(x, point, whole, fraction);
    }
  }

  // The groups that stand after the point.
  predicate IntegerOnly(x: Numeric) {
    forall i | 0 <= i < |x.groups| && i > x.weight :: x.groups[i] == 0
  }

  predicate ZeroWithin(groups: seq<u16>, from: nat, end: nat) {
    forall i | from <= i < end && i < |groups| :: groups[i] == 0
  }

  lemma ZeroGroup(groups: seq<u16>, k: nat)
    requires Base10000(groups)
    ensures AllZero(GroupAt(groups, k)) <==> k >= |groups| || groups[k] == 0
  {
    if k < |groups| {
      PaddedZero(groups[k]);
    }
  }

  lemma {:induction false} ZeroGroups(groups: seq<u16>, from: nat, end: nat)
    requires Base10000(groups) && from <= end
    ensures AllZero(GroupDigits(groups, from, end)) <==> ZeroWithin(groups, from, end)
    decreases end - from
  {
    if from < end {
      ZeroGroups(groups, from + 1, end);
      AllZeroConcat(GroupAt(groups, from), GroupDigits(groups, from + 1, end));
      ZeroGroup(groups, from);
      assert ZeroWithin(groups, from, end) <==>
        (from >= |groups| || groups[from] == 0) && ZeroWithin(groups, from + 1, end);
    }
  }

  lemma PaddedZero(g: u16)
    requires g < 10000
    ensures AllZero(Padded(g)) <==> g == 0
  {
    PaddedDigits(g);
    var p := Padded(g);
    if AllZero(p) {
      assert p[0] == 0 && p[1] == 0 && p[2] == 0 && p[3] == 0;
    }
  }

  lemma AllZeroConcat(a: seq<digit>, b: seq<digit>)
    ensures AllZero(a + b) <==> AllZero(a) && AllZero(b)
  {
    assert forall k | 0 <= k < |b| :: (a + b)[|a| + k] == b[k];
    assert forall k | 0 <= k < |a| :: (a + b)[k] == a[k];
  }

  lemma SmallFractionVanishes(x: Numeric, k: nat)
    requires WellFormed(x) && x.weight < 0
    ensures AllZero(Zeros(k) + GroupDigits(x.groups, 0, |x.groups|)) <==> IntegerOnly(x)
  {
    ZeroGroups(x.groups, 0, |x.groups|);
    AllZeroConcat(Zeros(k), GroupDigits(x.groups, 0, |x.groups|));
  }

  lemma FractionVanishes(x: Numeric)
    requires WellFormed(x)
    ensures AllZero(FractionDigits(x)) <==> IntegerOnly(x)
  {
    var n, point := |x.groups|, x.weight + 1;
    if point <= 0 {
      SmallFractionVanishes(x, 4 * -point);
    } else if point <= n {
      ZeroGroups(x.groups, point, n);
    }
  }

  // The decimal the text is read as.
  function NumericDecimal(x: Numeric): Decimal {
    Normal(x.sign == NEGATIVE_SIGN, IntegerDigits(x), KeptFraction(x), 0)
  }

  // What a zero display scale cuts off.
  lemma KeptValue(x: Numeric)
    requires WellFormed(x)
    ensures PlainValue(IntegerDigits(x), KeptFraction(x)) == GroupSum(x.groups, x.weight) <==>
      x.scale > 0 || IntegerOnly(x)
  {
    var whole, fraction := IntegerDigits(x), FractionDigits(x);
    DigitsHoldTheSum(x);
    FractionVanishes(x);
    if x.scale > 0 {
      TrimKeepsValue(whole, fraction);
    } else {
      SplitValue(whole, fraction);
      ZeroFraction(fraction);
    }
  }

  lemma MagnitudeOfText(x: Numeric)
    ensures Magnitude(NumericDecimal(x)) == PlainValue(IntegerDigits(x), KeptFraction(x))
  {
    NormalKeepsValue(x.sign == NEGATIVE_SIGN, IntegerDigits(x), KeptFraction(x), 0);
  }

  lemma SignOfText(x: Numeric)
    ensures var d := NumericDecimal(x);
      ValueOf(d) == if x.sign == NEGATIVE_SIGN then -Magnitude(d) else Magnitude(d)
  {
    ZeroHasNoMagnitude();
  }

  // The text always parses, and denotes exactly the sum of the groups unless a
  // zero display scale cuts off a fraction that is there.
  lemma TextIsExact(x: Numeric)
    requires WellFormed(x)
    ensures ParseDecimal(NumericText(x)) == Success(NumericDecimal(x))
    ensures ValueOf(NumericDecimal(x)) == NumericValue(x) <==> x.scale > 0 || IntegerOnly(x)
  {
    ParsePlain(x.sign == NEGATIVE_SIGN, IntegerDigits(x), KeptFraction(x));
    KeptValue(x);
    MagnitudeOfText(x);
    SignOfText(x);
  }

  // The value without the groups behind its point.
  function BeforePoint(x: Numeric): Numeric {
    var n := if x.weight < 0 then 0 else if x.weight + 1 < |x.groups| then x.weight + 1 else |x.groups|;
    x.(groups := x.groups[..n])
  }

  lemma {:induction false} LaterGroupsDoNotShow(groups: seq<u16>, n: nat, from: nat, end: nat)
    requires n <= |groups| && (end <= n || n == |groups|)
    ensures GroupDigits(groups[..n], from, end) == GroupDigits(groups, from, end)
    decreases end - from
  {
    if from < end {
      LaterGroupsDoNotShow(groups, n, from + 1, end);
    }
  }

  // With no display scale the text is that of the integer part, cut off toward zero.
  lemma {:induction false} NoScaleCutsFraction(x: Numeric)
    requires WellFormed(x) && x.scale == 0
    ensures NumericText(x) == NumericText(BeforePoint(x))
    ensures ValueOf(NumericDecimal(x)) == NumericValue(BeforePoint(x))
  {
    var point, whole := x.weight + 1, BeforePoint(x);
    if point > 0 {
      LaterGroupsDoNotShow(x.groups, |whole.groups|, 0, point);
    }
    assert IntegerDigits(x) == IntegerDigits(whole) && KeptFraction(x) == KeptFraction(whole);
    TextIsExact(whole);
  }

  // ---- The text is already in canonical form ----------------------------------

  predicate TidyWhole(whole: seq<digit>) {
    whole == [0] || (whole != [] && whole[0] != 0)
  }

  predicate TidyFraction(fraction: seq<digit>) {
    fraction == [] || fraction[|fraction| - 1] != 0
  }

  lemma TidyIntegerIsRendered(whole: seq<digit>)
    requires whole != [] && whole[0] != 0
    ensures RenderMagnitude(TrimZeros(whole), |whole|) == Text(whole) && TrimZeros(whole) != []
  {
    ZerosAtBack(whole);
    var t := TrimZeros(whole);
    TextConcat(t, Zeros(|whole| - |t|));
  }

  lemma LeadingZerosEnd(fraction: seq<digit>)
    requires TidyFraction(fraction) && fraction != []
    ensures LeadingZeros(fraction) < |fraction|
  {
    assert fraction[|fraction| - 1] != 0;
  }

  lemma TidySmallIsRendered(fraction: seq<digit>)
    requires TidyFraction(fraction) && fraction != []
    ensures var z := LeadingZeros(fraction);
      RenderMagnitude(fraction[z..], -(z as int)) == "0." + Text(fraction)
  {
    var z := LeadingZeros(fraction);
    var rest := fraction[z..];
    ZerosInFront(fraction);
    JoinText(z, rest);
  }

  lemma JoinText(z: nat, ds: seq<digit>)
    ensures RenderMagnitude(ds, -(z as int)) == "0." + Text(Zeros(z) + ds)
  {
    TextConcat(Zeros(z), ds);
    assert "0." + Text(Zeros(z)) + Text(ds) == "0." + (Text(Zeros(z)) + Text(ds));
  }

  lemma TrimNothing(ds: seq<digit>)
    requires TidyFraction(ds)
    ensures TrimZeros(ds) == ds
  {
  }

  lemma TidyIsRendered(negative: bool, whole: seq<digit>, fraction: seq<digit>)
    requires TidyWhole(whole) && TidyFraction(fraction)
    ensures var d := Normal(negative, whole, fraction, 0);
      && (d == ZERO <==> whole == [0] && fraction == [])
      && (d != ZERO ==> d.negative == negative && RenderMagnitude(d.digits, d.point) == Plain(whole, fraction))
  {
    if whole == [0] {
      ZeroWholeIsRendered(negative, fraction);
    } else {
      NonzeroWholeIsRendered(negative, whole, fraction);
    }
  }

  lemma {:induction false} NormalOfSmall(negative: bool, fraction: seq<digit>)
    requires TidyFraction(fraction)
    ensures var z := LeadingZeros(fraction);
      Normal(negative, [0], fraction, 0) ==
        if fraction == [] then ZERO else Decimal(negative, fraction[z..], -(z as int))
  {
    var all, z := [0] + fraction, LeadingZeros(fraction);
    assert all[1..] == fraction;
    assert LeadingZeros(all) == 1 + z && all[1 + z..] == fraction[z..];
    if fraction != [] {
      LeadingZerosEnd(fraction);
    }
    TrimNothing(fraction[z..]);
  }

  lemma PlainSmall(fraction: seq<digit>)
    requires fraction != []
    ensures Plain([0], fraction) == "0." + Text(fraction)
  {
    assert Text([0]) == "0";
    assert "0" + ("." + Text(fraction)) == "0." + Text(fraction);
  }

  lemma ZeroWholeIsRendered(negative: bool, fraction: seq<digit>)
    requires TidyFraction(fraction)
    ensures var d := Normal(negative, [0], fraction, 0);
      && (d == ZERO <==> fraction == [])
      && (d != ZERO ==> d.negative == negative && RenderMagnitude(d.digits, d.point) == Plain([0], fraction))
  {
    NormalOfSmall(negative, fraction);
    if fraction != [] {
      LeadingZerosEnd(fraction);
      TidySmallIsRendered(fraction);
      PlainSmall(fraction);
    }
  }

  lemma NonzeroWholeIsRendered(negative: bool, whole: seq<digit>, fraction: seq<digit>)
    requires whole != [] && whole[0] != 0 && TidyFraction(fraction)
    ensures var d := Normal(negative, whole, fraction, 0);
      && d != ZERO && d.negative == negative
      && RenderMagnitude(d.digits, d.point) == Plain(whole, fraction)
  {
    var all := whole + fraction;
    assert LeadingZeros(all) == 0 && all[0..] == all;
    if fraction == [] {
      assert all == whole && Text(whole) + "" == Text(whole);
      TidyIntegerIsRendered(whole);
    } else {
      TrimNothing(all);
      assert all[..|whole|] == whole && all[|whole|..] == fraction;
      assert Text(whole) + ("." + Text(fraction)) == Text(whole) + "." + Text(fraction);
    }
  }

  lemma StripFrontIsTidy(ds: seq<digit>)
    ensures TidyWhole(StripFront(ds))
  {
  }

  // ---- When the text is that of zero ------------------------------------------------

  // Every group that the display scale keeps is zero.
  predicate KeptIsZero(x: Numeric) {
    forall i | 0 <= i < |x.groups| && (i <= x.weight || x.scale > 0) :: x.groups[i] == 0
  }

  lemma NormalIsZero(negative: bool, whole: seq<digit>, fraction: seq<digit>)
    ensures Normal(negative, whole, fraction, 0) == ZERO <==> AllZero(whole) && AllZero(fraction)
  {
    var all := whole + fraction;
    var rest := all[LeadingZeros(all)..];
    AllZeroConcat(whole, fraction);
    if rest != [] {
      assert rest[0] == all[LeadingZeros(all)] != 0;
    }
  }

  lemma StripKeepsZero(ds: seq<digit>)
    ensures AllZero(StripFront(ds)) <==> AllZero(ds)
  {
    var z := LeadingZeros(ds);
    if z < |ds| {
      assert StripFront(ds)[0] == ds[z];
    }
  }

  lemma TrimKeepsZero(ds: seq<digit>)
    ensures AllZero(TrimZeros(ds)) <==> AllZero(ds)
  {
    var t := TrimZeros(ds);
    assert forall k | 0 <= k < |t| :: t[k] == ds[k];
  }

  lemma IntegerVanishes(x: Numeric)
    requires WellFormed(x)
    ensures AllZero(IntegerDigits(x)) <==> forall i | 0 <= i < |x.groups| && i <= x.weight :: x.groups[i] == 0
  {
    var point := x.weight + 1;
    if point > 0 {
      ZeroGroups(x.groups, 0, point);
      StripKeepsZero(GroupDigits(x.groups, 0, point));
    }
  }

  lemma ZeroTextOfZeros(x: Numeric)
    requires WellFormed(x)
    ensures NumericDecimal(x) == ZERO <==> KeptIsZero(x)
  {
    NormalIsZero(x.sign == NEGATIVE_SIGN, IntegerDigits(x), KeptFraction(x));
    IntegerVanishes(x);
    FractionVanishes(x);
    TrimKeepsZero(FractionDigits(x));
  }

  // The canonical text of the decimal is PostgreSQL's own, "-0" alone excepted:
  // a negative sign before nothing but zeros.
  lemma TextIsRendered(x: Numeric)
    requires WellFormed(x)
    ensures Render(NumericDecimal(x)) == NumericText(x) <==> !(x.sign == NEGATIVE_SIGN && KeptIsZero(x))
  {
    var d, whole, kept := NumericDecimal(x), IntegerDigits(x), KeptFraction(x);
    if x.weight >= 0 {
      StripFrontIsTidy(GroupDigits(x.groups, 0, x.weight + 1));
    }
    TidyIsRendered(x.sign == NEGATIVE_SIGN, whole, kept);
    ZeroTextOfZeros(x);
    if d == ZERO {
      assert Text([0]) == "0";
      assert ("-" + "0")[0] == '-';
    } else {
      assert d.digits != [];
    }
  }

  // From PostgreSQL's groups to NUMBER bytes and back: the encoder refuses
  // exactly the numbers beyond 40 significant digits or the exponent range,
  // and otherwise decoding gives PostgreSQL's own text, "-0" alone excepted.
  lemma PipelineIsExact(x: Numeric)
    requires WellFormed(x)
    ensures var d := NumericDecimal(x);
      && ParseDecimal(NumericText(x)) == Success(d)
      && (Accepted(d) ==>
        && Decoding(Encoding(d)).Success?
        && (Decoding(Encoding(d)).value == NumericText(x) <==> !(x.sign == NEGATIVE_SIGN && KeptIsZero(x))))
  {
    TextIsExact(x);
    TextIsRendered(x);
    if Accepted(NumericDecimal(x)) {
      DecodeInvertsEncode(NumericDecimal(x));
    }
  }
}
