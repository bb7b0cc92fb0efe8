/** Oracle BINARY_FLOAT and BINARY_DOUBLE: sign-adjusted IEEE 754 words that sort as bytes. */
module BinaryFloats {
  import opened Machine

  // An interchange format of section 3.4 of IEEE 754-2008: width in bytes and
  // width of the trailing significand in bits.
  datatype Format = Format(bytes: nat, fraction: nat)

  const SINGLE := Format(4, 23)
  const DOUBLE := Format(8, 52)

  function Inverted(s: seq<byte>): (r: seq<byte>) {
    seq(|s|, i requires 0 <= i < |s| => 255 - s[i])
  }

  function Encoded(s: seq<byte>): seq<byte>
    requires s != []
  {
    if s[0] < 128 then [s[0] + 128] + s[1..] else Inverted(s)
  }

  function Decoded(s: seq<byte>): seq<byte>
    requires s != []
  {
    if s[0] >= 128 then [s[0] - 128] + s[1..] else Inverted(s)
  }

  method InvertInPlace(b: array<byte>)
    modifies b
    ensures b[..] == Inverted(old(b[..]))
  {
    var i := 0;
    while i < b.Length
      invariant 0 <= i <= b.Length
      invariant forall k | 0 <= k < i :: b[k] == 255 - old(b[k])
      invariant forall k | i <= k < b.Length :: b[k] == old(b[k])
    {
      b[i] := 255 - b[i];
      i := i + 1;
    }
  }

  method EncodeInPlace(b: array<byte>)
    requires b.Length > 0
    modifies b
    ensures b[..] == Encoded(old(b[..]))
  {
    if b[0] < 128 {
      b[0] := b[0] + 128;
    } else {
      InvertInPlace(b);
    }
  }

  method DecodeInPlace(b: array<byte>)
    requires b.Length > 0
    modifies b
    ensures b[..] == Decoded(old(b[..]))
  {
    if b[0] >= 128 {
      b[0] := b[0] - 128;
    } else {
      InvertInPlace(b);
    }
  }

  // Both directions, on every bit pattern, NaNs and infinities included.
  lemma CodecsAreInverse(s: seq<byte>)
    requires s != []
    ensures Decoded(Encoded(s)) == s && Encoded(Decoded(s)) == s
  {
    assert Inverted(Inverted(s)) == s;
    assert [s[0]] + s[1..] == s;
  }

  // ---- What a bit pattern denotes ----------------------------------------

  // A finite value is `scaled` units of the format's smallest positive number.
  datatype Value = Value(negative: bool, infinite: bool, scaled: nat)

  function SignWeight(f: Format): nat
    requires f.bytes > 0
  {
    Pow(2, 8 * f.bytes - 1)
  }

  // Subnormals have exponent field 0; normals have a hidden leading bit.
  function FromFields(exponent: nat, significand: nat, unit: nat): nat {
    if exponent == 0 then significand else (unit + significand) * Pow(2, exponent - 1)
  }

  function Scaled(magnitude: nat, unit: nat): nat
    requires unit > 0
  {
    FromFields(magnitude / unit, magnitude % unit, unit)
  }

  predicate IsFormat(f: Format) {
    f.bytes > 0 && 0 < f.fraction < 8 * f.bytes - 1
  }

  // Magnitude of infinity: all exponent bits set, empty significand.
  function Infinity(f: Format): nat
    requires IsFormat(f)
  {
    (Pow(2, 8 * f.bytes - 1 - f.fraction) - 1) * Pow(2, f.fraction)
  }

  function Magnitude(s: seq<byte>, f: Format): nat
    requires IsFormat(f)
  {
    FromBigEndian(s) % SignWeight(f)
  }

  predicate IsNaN(s: seq<byte>, f: Format)
    requires IsFormat(f)
  {
    Magnitude(s, f) > Infinity(f)
  }

  function Denotation(s: seq<byte>, f: Format): Value
    requires IsFormat(f)
  {
    var m := Magnitude(s, f);
    Value(FromBigEndian(s) >= SignWeight(f), m == Infinity(f), Scaled(m, Pow(2, f.fraction)))
  }

  function Signed(v: Value): int {
    if v.negative then -(v.scaled as int) else v.scaled
  }

  // Numeric order with -0 below +0 (the total order of section 5.10).
  predicate Below(a: Value, b: Value) {
    if a.infinite && a.negative then !(b.infinite && b.negative)
    else if b.infinite && !b.negative then !(a.infinite && !a.negative)
    else if a.infinite || b.infinite then false
    else Signed(a) < Signed(b) || (Signed(a) == Signed(b) && a.negative && !b.negative)
  }

  // ---- Byte order is numeric order ----------------------------------------

  lemma FromFieldsIsMonotone(e: nat, m: nat, d: nat, n: nat, unit: nat)
    requires m < unit && n < unit
    requires e < d || (e == d && m < n)
    ensures FromFields(e, m, unit) < FromFields(d, n, unit)
  {
    if e == d {
      if e > 0 {
        TimesIsMonotone(unit + m, unit + n, Pow(2, e - 1));
      }
    } else {
      TimesIsMonotoneWeakly(unit, unit + n, Pow(2, d - 1));
      if e == 0 {
        TimesIsMonotoneWeakly(1, Pow(2, d - 1), unit);
      } else {
        var p := Pow(2, e - 1);
        TimesIsMonotone(unit + m, 2 * unit, p);
        PowIsMonotone(e, d - 1);
        assert Pow(2, e) == 2 * p;
        TimesIsMonotoneWeakly(2 * p, Pow(2, d - 1), unit);
        assert 2 * unit * p == 2 * p * unit;
      }
    }
  }

  lemma ScaledIsMonotone(x: nat, y: nat, unit: nat)
    requires unit > 0 && x < y
    ensures Scaled(x, unit) < Scaled(y, unit)
  {
    var e, d := x / unit, y / unit;
    assert x == e * unit + x % unit && y == d * unit + y % unit;
    if d < e {
      TimesIsMonotoneWeakly(d + 1, e, unit);
      assert false;
    }
    FromFieldsIsMonotone(e, x % unit, d, y % unit, unit);
  }

  lemma TimesIsMonotone(a: nat, b: nat, c: nat)
    requires a < b && c > 0
    ensures a * c < b * c
  {
  }

  lemma TimesIsMonotoneWeakly(a: nat, b: nat, c: nat)
    requires a <= b
    ensures a * c <= b * c
  {
  }

  lemma {:induction false} PowIsMonotone(a: nat, b: nat)
    requires a <= b
    ensures Pow(2, a) <= Pow(2, b)
  {
    if a < b {
      PowIsMonotone(a, b - 1);
    }
  }

  lemma {:induction false} PowBytes(n: nat)
    ensures Pow(256, n) == Pow(2, 8 * n)
  {
    if n > 0 {
      PowBytes(n - 1);
      var p := Pow(2, 8 * n - 8);
      assert Pow(2, 8 * n - 7) == 2 * p;
      assert Pow(2, 8 * n - 6) == 4 * p;
      assert Pow(2, 8 * n - 5) == 8 * p;
      assert Pow(2, 8 * n - 4) == 16 * p;
      assert Pow(2, 8 * n - 3) == 32 * p;
      assert Pow(2, 8 * n - 2) == 64 * p;
      assert Pow(2, 8 * n - 1) == 128 * p;
    }
  }

  lemma {:induction false} InvertedWord(s: seq<byte>)
    ensures FromBigEndian(Inverted(s)) == Pow(256, |s|) - 1 - FromBigEndian(s)
  {
    if s != [] {
      var n := |s| - 1;
      InvertedWord(s[..n]);
      assert Inverted(s)[..n] == Inverted(s[..n]);
    }
  }

  lemma SignBit(n: nat)
    ensures Pow(2, 8 * (n + 1) - 1) == 128 * Pow(256, n)
  {
    PowBytes(n + 1);
    var w := Pow(2, 8 * (n + 1) - 1);
    assert Pow(2, 8 * (n + 1)) == 2 * w && Pow(256, n + 1) == 256 * Pow(256, n);
  }

  lemma SplitFirst(s: seq<byte>)
    requires s != []
    ensures FromBigEndian(s) == s[0] as int * Pow(256, |s| - 1) + FromBigEndian(s[1..])
    ensures FromBigEndian(s) < Pow(256, |s|)
    ensures s[0] < 128 <==> FromBigEndian(s) < 128 * Pow(256, |s| - 1)
  {
    FromBigEndianSplit([s[0]], s[1..]);
    FromBigEndianWords([s[0]]);
    assert [s[0]] + s[1..] == s;
    FromBigEndianBound(s[1..]);
    FromBigEndianBound(s);
    HighDigitDecides(s[0], 128, FromBigEndian(s[1..]), 0, Pow(256, |s| - 1));
  }

  // Setting the sign bit adds half the range, whatever follows the first byte.
  lemma {:induction false} FirstAbove(first: byte, rest: seq<byte>)
    requires first < 128
    ensures FromBigEndian([first + 128] + rest) == FromBigEndian([first] + rest) + 128 * Pow(256, |rest|)
  {
    if rest == [] {
      FromBigEndianWords([first] + rest);
      FromBigEndianWords([first + 128] + rest);
    } else {
      var n := |rest| - 1;
      FirstAbove(first, rest[..n]);
      assert ([first] + rest)[..n + 1] == [first] + rest[..n];
      assert ([first + 128] + rest)[..n + 1] == [first + 128] + rest[..n];
    }
  }

  // The first byte says which half of the words of its length a word is in.
  lemma Halves(s: seq<byte>, w: nat)
    requires s != [] && w == 128 * Pow(256, |s| - 1)
    ensures FromBigEndian(s) < 2 * w && (s[0] < 128 <==> FromBigEndian(s) < w)
    ensures Pow(256, |s|) == 2 * w
  {
    SplitFirst(s);
  }

  lemma EncodedPositive(s: seq<byte>, rest: seq<byte>)
    requires s != [] && s[0] < 128 && rest == s[1..]
    ensures FromBigEndian(Encoded(s)) == FromBigEndian(s) + 128 * Pow(256, |rest|)
  {
    FirstAbove(s[0], rest);
    assert s == [s[0]] + rest;
  }

  lemma EncodedNegative(s: seq<byte>, w: nat)
    requires s != [] && s[0] >= 128 && w == 128 * Pow(256, |s| - 1)
    ensures FromBigEndian(Encoded(s)) == 2 * w - 1 - FromBigEndian(s)
  {
    InvertedWord(s);
  }

  // The encoded word of a magnitude, where `w` is the middle of the range.
  function Word(negative: bool, m: nat, w: nat): int {
    if negative then w - 1 - m else w + m
  }

  // The encoded word: the magnitude counted up from the middle of the range
  // for positives, down from it for negatives.
  lemma EncodedWord(s: seq<byte>, f: Format)
    requires IsFormat(f) && |s| == f.bytes
    ensures var v, m, w := FromBigEndian(s), Magnitude(s, f), SignWeight(f);
      && FromBigEndian(Encoded(s)) == Word(v >= w, m, w)
      && m == (if v >= w then v - w else v)
      && m < w
  {
    SignBit(|s| - 1);
    var w, v := SignWeight(f), FromBigEndian(s);
    Halves(s, w);
    HalfRange(v, w);
    if s[0] < 128 {
      EncodedPositive(s, s[1..]);
    } else {
      EncodedNegative(s, w);
    }
  }

  lemma HalfRange(v: nat, w: nat)
    requires v < 2 * w
    ensures v % w == if v >= w then v - w else v
  {
    if v >= w {
      var q := v / w;
      assert v == w * q + v % w;
      assert q >= 2 ==> w * q >= w * 2;
      assert q <= 0 ==> w * q <= 0;
    }
  }

  lemma WordOrder(na: bool, x: nat, nb: bool, y: nat, w: nat, top: nat, unit: nat)
    requires x < w && y < w && x <= top && y <= top && unit > 0
    ensures Word(na, x, w) < Word(nb, y, w) <==>
      Below(Value(na, x == top, Scaled(x, unit)), Value(nb, y == top, Scaled(y, unit)))
  {
    if x < y {
      ScaledIsMonotone(x, y, unit);
    } else if y < x {
      ScaledIsMonotone(y, x, unit);
    }
  }

  lemma ByteOrderIsNumericOrder(a: seq<byte>, b: seq<byte>, f: Format)
    requires IsFormat(f) && |a| == |b| == f.bytes
    requires !IsNaN(a, f) && !IsNaN(b, f)
    ensures LexLess(Encoded(a), Encoded(b)) <==> Below(Denotation(a, f), Denotation(b, f))
  {
    EncodedWord(a, f);
    EncodedWord(b, f);
    LexIsNumeric(Encoded(a), Encoded(b));
    var w := SignWeight(f);
    WordOrder(FromBigEndian(a) >= w, Magnitude(a, f), FromBigEndian(b) >= w, Magnitude(b, f), w,
      Infinity(f), Pow(2, f.fraction));
  }

  lemma Powers()
    ensures Pow(2, 8) == 256 && Pow(2, 11) == 2048 && Pow(2, 23) == 0x80_0000 && Pow(2, 52) == 0x10_0000_0000_0000
  {
    assert Pow(2, 4) == 16 && Pow(2, 8) == 256 && Pow(2, 11) == 2048;
    PowOfSum(11, 12);
    assert Pow(2, 12) == 4096;
    PowOfSum(23, 23);
    PowOfSum(46, 6);
    assert Pow(2, 6) == 64;
  }

  lemma {:induction false} PowOfSum(a: nat, b: nat)
    ensures Pow(2, a + b) == Pow(2, a) * Pow(2, b)
  {
    if a > 0 {
      PowOfSum(a - 1, b);
    }
  }

  // The formats of BINARY_FLOAT and BINARY_DOUBLE, with the bit patterns that
  // Oracle and PostgreSQL use for their infinities.
  lemma SinglesAndDoublesSort(a: seq<byte>, b: seq<byte>, f: Format)
    requires f == SINGLE || f == DOUBLE
    requires |a| == |b| == f.bytes && !IsNaN(a, f) && !IsNaN(b, f)
    ensures LexLess(Encoded(a), Encoded(b)) <==> Below(Denotation(a, f), Denotation(b, f))
    ensures Infinity(SINGLE) == 0x7F80_0000 && Infinity(DOUBLE) == 0x7FF0_0000_0000_0000
  {
    Powers();
    ByteOrderIsNumericOrder(a, b, f);
  }
}
