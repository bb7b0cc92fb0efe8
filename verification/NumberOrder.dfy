/** NUMBER bytes compare the way the numbers do, and exactly when they do not. */
module NumberOrder {
  import opened Machine
  import opened Decimals
  import opened OracleNumber

  // ---- The number a decimal denotes ----------------------------------------

  // 0.d1d2d3... in base ten, and 0.p1p2p3... in base one hundred.
  ghost function Fraction10(ds: seq<digit>): real {
    if ds == [] then 0.0 else (ds[0] as real + Fraction10(ds[1..])) / 10.0
  }

  ghost function Fraction100(ps: seq<pair>): real {
    if ps == [] then 0.0 else (ps[0] as real + Fraction100(ps[1..])) / 100.0
  }

  ghost function Pow10(e: int): (p: real)
    ensures p > 0.0
    decreases if e < 0 then -e else e
  {
    if e == 0 then 1.0 else if e > 0 then 10.0 * Pow10(e - 1) else Pow10(e + 1) / 10.0
  }

  ghost function Times(x: real, y: real): real {
    x * y
  }

  ghost function Magnitude(d: Decimal): real {
    Times(Fraction10(d.digits), Pow10(d.point))
  }

  ghost function ValueOf(d: Decimal): real {
    if d.negative then -Magnitude(d) else Magnitude(d)
  }

  lemma {:induction false} FractionBounds(ps: seq<pair>)
    ensures 0.0 <= Fraction100(ps) < 1.0
    ensures ps != [] && ps[0] > 0 ==> Fraction100(ps) >= 0.01
    ensures ps != [] && ps[|ps| - 1] > 0 ==> Fraction100(ps) > 0.0
  {
    if ps != [] {
      FractionBounds(ps[1..]);
      if |ps| > 1 {
        assert ps[1..][|ps| - 2] == ps[|ps| - 1];
      }
    }
  }

  lemma PowStep(e: int)
    ensures Pow10(e + 1) == 10.0 * Pow10(e)
  {
  }

  lemma {:induction false} PowIsMonotone(a: int, b: int)
    requires a <= b
    ensures Pow10(a) <= Pow10(b)
    decreases b - a
  {
    if a < b {
      PowStep(a);
      PowIsMonotone(a + 1, b);
    }
  }

  // Alignment to whole pairs does not change the number.
  lemma {:induction false} PairsKeepFraction(ds: seq<digit>)
    requires |ds| % 2 == 0
    ensures Fraction100(Pairs(ds)) == Fraction10(ds)
    decreases |ds|
  {
    if ds != [] {
      var rest := ds[2..];
      PairsKeepFraction(rest);
      assert Pairs(ds)[1..] == Pairs(rest);
      assert ds[1..][1..] == rest;
      assert Fraction10(ds) == (ds[0] as real + (ds[1] as real + Fraction10(rest)) / 10.0) / 10.0;
      var hi, lo := ds[0] as int, ds[1] as int;
      assert Pairs(ds)[0] as int == 10 * hi + lo;
      assert (10 * hi + lo) as real == 10.0 * hi as real + lo as real;
    }
  }

  lemma {:induction false} PaddingKeepsFraction(ds: seq<digit>)
    ensures Fraction10(ds + [0]) == Fraction10(ds)
    ensures Fraction10([0] + ds) == Fraction10(ds) / 10.0
  {
    assert ([0] + ds)[1..] == ds;
    if ds == [] {
      assert ds + [0] == [0];
      assert Fraction10([0][1..]) == 0.0;
    } else {
      assert (ds + [0])[1..] == ds[1..] + [0];
      PaddingKeepsFraction(ds[1..]);
    }
  }

  function PairsOf(d: Decimal): seq<pair> {
    Pairs(Aligned(d.digits, d.point))
  }

  // The even power of ten the exponent byte stands for.
  function EvenPoint(point: int): int {
    if point % 2 == 0 then point else point + 1
  }

  lemma MagnitudeFromPairs(d: Decimal)
    ensures Magnitude(d) == Times(Fraction100(PairsOf(d)), Pow10(EvenPoint(d.point)))
  {
    var ds := d.digits;
    var front := if d.point % 2 == 0 then ds else [0] + ds;
    PaddingKeepsFraction(ds);
    PaddingKeepsFraction(front);
    PairsKeepFraction(Aligned(ds, d.point));
    if d.point % 2 != 0 {
      PowStep(d.point);
      Rescale(Fraction10(ds), Pow10(d.point));
    }
  }

  lemma Rescale(f: real, p: real)
    ensures Times(f / 10.0, 10.0 * p) == Times(f, p)
  {
  }

  // ---- Pairs compare as fractions do ----------------------------------------

  // Base-100 digits without a zero at the end.
  predicate Trimmed(ps: seq<pair>) {
    ps != [] ==> ps[|ps| - 1] > 0
  }

  lemma {:induction false} PairsCompareAsFractions(a: seq<pair>, b: seq<pair>)
    requires Trimmed(a) && Trimmed(b)
    ensures LexLess(a, b) <==> Fraction100(a) < Fraction100(b)
    ensures a == b <==> Fraction100(a) == Fraction100(b)
  {
    FractionBounds(a);
    FractionBounds(b);
    if a != [] && b != [] {
      assert Trimmed(a[1..]) && Trimmed(b[1..]);
      FractionBounds(a[1..]);
      FractionBounds(b[1..]);
      PairsCompareAsFractions(a[1..], b[1..]);
      assert a == [a[0]] + a[1..] && b == [b[0]] + b[1..];
      if a[0] < b[0] {
        assert a[0] as real + 1.0 <= b[0] as real;
      } else if b[0] < a[0] {
        assert b[0] as real + 1.0 <= a[0] as real;
      }
    }
  }

  lemma {:induction false} PositiveMantissasCompare(a: seq<pair>, b: seq<pair>)
    ensures LexLess(Mantissa(false, a), Mantissa(false, b)) <==> LexLess(a, b)
  {
    if a != [] && b != [] {
      assert Mantissa(false, a)[1..] == Mantissa(false, a[1..]);
      assert Mantissa(false, b)[1..] == Mantissa(false, b[1..]);
      PositiveMantissasCompare(a[1..], b[1..]);
    }
  }

  // A negative mantissa with or without its terminator.
  function Complement(ps: seq<pair>, terminated: bool): seq<byte> {
    Mantissa(true, ps) + if terminated then [TERMINATOR] else []
  }

  // `a` runs out inside `b` with no terminator to sort it above `b`.
  predicate Unmarked(a: seq<pair>, b: seq<pair>, terminated: bool) {
    !terminated && a < b
  }

  lemma {:induction false} NegativeMantissasCompare(a: seq<pair>, aEnds: bool, b: seq<pair>, bEnds: bool)
    requires a == b ==> aEnds == bEnds
    ensures LexLess(Complement(a, aEnds), Complement(b, bEnds)) <==>
      if Unmarked(a, b, aEnds) then true else if Unmarked(b, a, bEnds) then false else LexLess(b, a)
  {
    var x, y := Complement(a, aEnds), Complement(b, bEnds);
    if a == [] || b == [] {
      if a == [] && aEnds {
        assert x == [TERMINATOR];
      }
      if b == [] && bEnds {
        assert y == [TERMINATOR];
      }
      assert !LexLess([], []);
    } else {
      assert x[1..] == Complement(a[1..], aEnds) && y[1..] == Complement(b[1..], bEnds);
      assert a == [a[0]] + a[1..] && b == [b[0]] + b[1..];
      if a[0] == b[0] {
        NegativeMantissasCompare(a[1..], aEnds, b[1..], bEnds);
        assert a < b <==> a[1..] < b[1..];
        assert b < a <==> b[1..] < a[1..];
      }
    }
  }

  // ---- Order of the encodings -------------------------------------------------

  // The only case in which byte order is wrong: a negative number of exactly
  // twenty pairs, too long for a terminator, that a longer one continues.
  predicate Clash(a: Decimal, b: Decimal) {
    && a.negative && b.negative
    && EvenPoint(a.point) == EvenPoint(b.point)
    && |PairsOf(a)| == 20
    && PairsOf(a) < PairsOf(b)
  }

  lemma EvenPointOfByte(a: int, b: int)
    requires -129 <= a <= 126 && -129 <= b <= 126
    ensures ExponentByte(a) == ExponentByte(b) <==> EvenPoint(a) == EvenPoint(b)
    ensures ExponentByte(a) < ExponentByte(b) <==> EvenPoint(a) + 2 <= EvenPoint(b)
    ensures ExponentByte(a) >= 128
  {
  }

  lemma PairsOfEnds(d: Decimal)
    requires Canonical(d) && d != ZERO && Accepted(d)
    ensures var ps := PairsOf(d); 0 < |ps| <= 21 && ps[0] > 0 && Trimmed(ps)
  {
  }

  // Magnitudes with different exponents.
  lemma ExponentDecides(f: real, g: real, p: real, q: real)
    requires f < 1.0 && g >= 0.01 && p > 0.0 && 100.0 * p <= q
    ensures f * p < g * q
  {
    ScaleStrictly(f, 1.0, p);
    Scale(0.01, g, q);
    var x, y := f * p, g * q;
    assert x < 1.0 * p && y >= 0.01 * q;
  }

  lemma TwoPlacesApart(e: int, h: int)
    requires e + 2 <= h
    ensures 100.0 * Pow10(e) <= Pow10(h)
  {
    PowIsMonotone(e + 2, h);
    PowStep(e);
    PowStep(e + 1);
  }

  lemma Scale(x: real, y: real, q: real)
    requires x <= y && q >= 0.0
    ensures x * q <= y * q
  {
  }

  lemma ScaleStrictly(x: real, y: real, q: real)
    requires q > 0.0
    ensures x * q < y * q <==> x < y
    ensures x * q == y * q <==> x == y
  {
    if x < y {
      assert (y - x) * q > 0.0;
    } else if y < x {
      assert (x - y) * q > 0.0;
    }
  }

  lemma MagnitudesCompare(a: Decimal, b: Decimal)
    requires Canonical(a) && a != ZERO && Accepted(a)
    requires Canonical(b) && b != ZERO && Accepted(b)
    ensures Magnitude(a) < Magnitude(b) <==>
      EvenPoint(a.point) < EvenPoint(b.point) ||
      (EvenPoint(a.point) == EvenPoint(b.point) && LexLess(PairsOf(a), PairsOf(b)))
    ensures Magnitude(a) > 0.0
  {
    var ps, qs, e, h := PairsOf(a), PairsOf(b), EvenPoint(a.point), EvenPoint(b.point);
    PairsOfEnds(a);
    PairsOfEnds(b);
    MagnitudeFromPairs(a);
    MagnitudeFromPairs(b);
    EvenPointsApart(a.point, b.point);
    if e < h {
      TwoPlacesApart(e, h);
    } else if h < e {
      TwoPlacesApart(h, e);
    }
    FractionBounds(ps);
    FractionBounds(qs);
    PairsCompareAsFractions(ps, qs);
    ScaledCompare(Magnitude(a), Fraction100(ps), Pow10(e), Magnitude(b), Fraction100(qs), Pow10(h));
  }

  lemma EvenPointsApart(p: int, q: int)
    ensures EvenPoint(p) < EvenPoint(q) ==> EvenPoint(p) + 2 <= EvenPoint(q)
    ensures EvenPoint(q) < EvenPoint(p) ==> EvenPoint(q) + 2 <= EvenPoint(p)
  {
  }

  lemma ScaledCompare(x: real, f: real, p: real, y: real, g: real, q: real)
    requires x == Times(f, p) && y == Times(g, q)
    requires 0.01 <= f < 1.0 && 0.01 <= g < 1.0 && p > 0.0 && q > 0.0
    ensures x > 0.0
    ensures 100.0 * p <= q ==> x < y
    ensures 100.0 * q <= p ==> y < x
    ensures p == q ==> (x < y <==> f < g)
  {
    ScaleStrictly(0.0, f, p);
    if 100.0 * p <= q {
      ExponentDecides(f, g, p, q);
    }
    if 100.0 * q <= p {
      ExponentDecides(g, f, q, p);
    }
    if p == q {
      ScaleStrictly(f, g, p);
    }
  }

  lemma PositivesCompare(a: Decimal, b: Decimal)
    requires Canonical(a) && a != ZERO && Accepted(a) && !a.negative
    requires Canonical(b) && b != ZERO && Accepted(b) && !b.negative
    ensures LexLess(Encoding(a), Encoding(b)) <==> Magnitude(a) < Magnitude(b)
  {
    MagnitudesCompare(a, b);
    EvenPointOfByte(a.point, b.point);
    EvenPointOfByte(b.point, a.point);
    PositiveMantissasCompare(PairsOf(a), PairsOf(b));
    assert Encoding(a)[1..] == Mantissa(false, PairsOf(a));
    assert Encoding(b)[1..] == Mantissa(false, PairsOf(b));
  }

  lemma NegativeEncoding(d: Decimal)
    requires Canonical(d) && d != ZERO && Accepted(d) && d.negative
    ensures Encoding(d) == [255 - ExponentByte(d.point)] + Complement(PairsOf(d), |PairsOf(d)| < 20)
    ensures Encoding(d)[1..] == Complement(PairsOf(d), |PairsOf(d)| < 20)
  {
    var ps := PairsOf(d);
    assert Encoding(d) == [255 - ExponentByte(d.point)] + Complement(ps, |ps| < 20);
  }

  lemma FirstByteDecides(x: byte, s: seq<byte>, y: byte, t: seq<byte>)
    ensures LexLess([x] + s, [y] + t) <==> x < y || (x == y && LexLess(s, t))
  {
    assert ([x] + s)[1..] == s && ([y] + t)[1..] == t;
  }

  lemma NegativeBytesCompare(a: Decimal, b: Decimal)
    requires Canonical(a) && a != ZERO && Accepted(a) && a.negative
    requires Canonical(b) && b != ZERO && Accepted(b) && b.negative
    ensures var ps, qs := PairsOf(a), PairsOf(b);
      LexLess(Encoding(a), Encoding(b)) <==>
        EvenPoint(b.point) < EvenPoint(a.point)
        || (EvenPoint(a.point) == EvenPoint(b.point) && LexLess(Complement(ps, |ps| < 20), Complement(qs, |qs| < 20)))
  {
    NegativeEncoding(a);
    NegativeEncoding(b);
    EvenPointOfByte(a.point, b.point);
    EvenPointOfByte(b.point, a.point);
    EvenPointsApart(a.point, b.point);
    FirstByteDecides(255 - ExponentByte(a.point), Complement(PairsOf(a), |PairsOf(a)| < 20),
      255 - ExponentByte(b.point), Complement(PairsOf(b), |PairsOf(b)| < 20));
  }

  // Two negatives with one exponent.
  lemma NegativePairsCompare(ps: seq<pair>, qs: seq<pair>)
    requires |ps| <= 21 && |qs| <= 21
    ensures LexLess(Complement(ps, |ps| < 20), Complement(qs, |qs| < 20)) <==>
      if |ps| == 20 && ps < qs then true else if |qs| == 20 && qs < ps then false else LexLess(qs, ps)
  {
    NegativeMantissasCompare(ps, |ps| < 20, qs, |qs| < 20);
    PrefixIsLess(ps, qs);
    PrefixIsLess(qs, ps);
  }

  lemma NegativesCompare(a: Decimal, b: Decimal)
    requires Canonical(a) && a != ZERO && Accepted(a) && a.negative
    requires Canonical(b) && b != ZERO && Accepted(b) && b.negative
    ensures LexLess(Encoding(a), Encoding(b)) <==>
      if Clash(a, b) then true else if Clash(b, a) then false else Magnitude(b) < Magnitude(a)
    ensures Clash(a, b) ==> Magnitude(a) < Magnitude(b)
  {
    PairsOfEnds(a);
    PairsOfEnds(b);
    MagnitudesCompare(a, b);
    MagnitudesCompare(b, a);
    NegativeBytesCompare(a, b);
    NegativePairsCompare(PairsOf(a), PairsOf(b));
    PrefixIsLess(PairsOf(a), PairsOf(b));
  }

  lemma {:induction false} PrefixIsLess(a: seq<pair>, b: seq<pair>)
    ensures a < b ==> LexLess(a, b) && !LexLess(b, a)
  {
    if a != [] && a < b {
      assert a[1..] < b[1..];
      PrefixIsLess(a[1..], b[1..]);
    }
  }

  lemma FirstByte(d: Decimal)
    requires Canonical(d) && Accepted(d)
    ensures Encoding(d) != []
    ensures d == ZERO ==> Encoding(d) == [0x80]
    ensures d.negative <==> Encoding(d)[0] < 0x80
    ensures d != ZERO && !d.negative ==> |Encoding(d)| > 1 && Encoding(d)[0] >= 0x80
  {
    if d != ZERO {
      EvenPointOfByte(d.point, d.point);
      PairsOfEnds(d);
    }
  }

  // Bytes sort as the numbers do, across signs, zero, exponents and prefixes,
  // except for a clash, where they sort the other way round.
  lemma EncodingOrder(a: Decimal, b: Decimal)
    requires Canonical(a) && Accepted(a) && Canonical(b) && Accepted(b)
    ensures LexLess(Encoding(a), Encoding(b)) <==>
      if Clash(a, b) || Clash(b, a) then ValueOf(b) < ValueOf(a) else ValueOf(a) < ValueOf(b)
  {
    FirstByte(a);
    FirstByte(b);
    ZeroHasNoMagnitude();
    if a != ZERO {
      MagnitudesCompare(a, a);
    }
    if b != ZERO {
      MagnitudesCompare(b, b);
    }
    if a == ZERO || b == ZERO {
      assert LexLess([], Encoding(b)[1..]) <==> Encoding(b)[1..] != [];
    } else if a.negative && b.negative {
      NegativesCompare(a, b);
      NegativesCompare(b, a);
    } else if !a.negative && !b.negative {
      PositivesCompare(a, b);
    }
  }

  lemma PrefixOfPairs(ds: seq<digit>, last: digit, point: int)
    requires |ds| == 39 && point % 2 != 0
    ensures |Pairs(Aligned(ds, point))| == 20 && Pairs(Aligned(ds, point)) < Pairs(Aligned(ds + [last], point))
  {
    var a, b := Aligned(ds, point), Aligned(ds + [last], point);
    assert a == [0] + ds && b == [0] + ds + [last] + [0];
    assert forall i | 0 <= i < 40 :: a[i] == b[i];
    var ps, qs := Pairs(a), Pairs(b);
    assert |qs| == 21 && forall k | 0 <= k < 20 :: ps[k] == qs[k];
    assert qs[..20] == ps;
  }

  // Every negative of 39 digits that start the odd half of a pair sorts on the
  // wrong side of the ones that continue it with a fortieth.
  lemma ContinuedNegativesClash(ds: seq<digit>, last: digit, point: int)
    requires |ds| == 39 && ds[0] != 0 && ds[38] != 0 && last != 0
    requires point % 2 != 0 && -129 <= point <= 126
    ensures var a, b := Decimal(true, ds, point), Decimal(true, ds + [last], point);
      && Canonical(a) && Accepted(a) && Canonical(b) && Accepted(b) && Clash(a, b)
      && ValueOf(b) < ValueOf(a) && LexLess(Encoding(a), Encoding(b))
  {
    var a, b := Decimal(true, ds, point), Decimal(true, ds + [last], point);
    PrefixOfPairs(ds, last, point);
    NegativesCompare(a, b);
  }

  // One such pair: minus 1.11... with 38 and with 39 ones after the point.
  lemma ClashExists()
    ensures var a, b := Decimal(true, seq(39, _ => 1), 1), Decimal(true, seq(39, _ => 1) + [1], 1);
      && Canonical(a) && Accepted(a) && Canonical(b) && Accepted(b) && Clash(a, b)
      && ValueOf(b) < ValueOf(a) && LexLess(Encoding(a), Encoding(b))
  {
    ContinuedNegativesClash(seq(39, _ => 1), 1, 1);
  }

  lemma ZeroHasNoMagnitude()
    ensures Magnitude(ZERO) == 0.0
  {
  }

  // A clash takes a number of twenty-one pairs: at most 39 digits, and so the
  // 38 a NUMBER column can declare, never see the exception.
  lemma EncodingOrderForColumns(a: Decimal, b: Decimal)
    requires Canonical(a) && Accepted(a) && Canonical(b) && Accepted(b)
    requires |a.digits| <= 39 && |b.digits| <= 39
    ensures LexLess(Encoding(a), Encoding(b)) <==> ValueOf(a) < ValueOf(b)
  {
    EncodingOrder(a, b);
  }
}
