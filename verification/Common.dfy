/** Result types, bytes and the fixed-width arithmetic of the modelled program. */
module Wrappers {

  datatype Option<+T> = None | Some(value: T)

  datatype Result<+T, +E> = Success(value: T) | Failure(error: E) {
    predicate IsFailure() {
      Failure?
    }

    function PropagateFailure<U>(): Result<U, E>
      requires Failure?
    {
      Failure(error)
    }

    function Extract(): T
      requires Success?
    {
      value
    }
  }
}

/** Characters as Rust classifies them. */
module Characters {

  predicate IsDigit(c: char) {
    '0' <= c <= '9'
  }

  predicate AllDigits(s: string) {
    forall k | 0 <= k < |s| :: IsDigit(s[k])
  }

  // The characters with the Unicode White_Space property.
  predicate IsSpace(c: char) {
    var u := c as int;
    9 <= u <= 13 || u == 32 || u == 0x85 || u == 0xA0 || u == 0x1680 || 0x2000 <= u <= 0x200A
    || u == 0x2028 || u == 0x2029 || u == 0x202F || u == 0x205F || u == 0x3000
  }

  function TrimStart(s: string): string {
    if s != "" && IsSpace(s[0]) then TrimStart(s[1..]) else s
  }

  function TrimBack(s: string): string {
    if s != "" && IsSpace(s[|s| - 1]) then TrimBack(s[..|s| - 1]) else s
  }

  function Trim(s: string): string {
    TrimBack(TrimStart(s))
  }

  lemma TrimKeeps(s: string)
    requires s == "" || (!IsSpace(s[0]) && !IsSpace(s[|s| - 1]))
    ensures Trim(s) == s
  {
  }

  lemma {:induction false} TrimStartShortens(s: string)
    ensures |TrimStart(s)| <= |s|
    ensures TrimStart(s) == s[|s| - |TrimStart(s)|..]
  {
    if s == TrimStart(s) {
      assert s[0..] == s;
    } else {
      TrimStartShortens(s[1..]);
      var n := |s[1..]| - |TrimStart(s)|;
      assert s[1..][n..] == s[1 + n..];
    }
  }

  lemma TrimBackShortens(s: string)
    ensures |TrimBack(s)| <= |s|
  {
  }

  lemma TrimShortens(s: string)
    ensures |Trim(s)| <= |s|
  {
    TrimStartShortens(s);
    TrimBackShortens(TrimStart(s));
  }

  // ---- White space around a text ------------------------------------------------

  predicate Blank(s: string) {
    forall k | 0 <= k < |s| :: IsSpace(s[k])
  }

  lemma {:induction false} FrontComesOff(front: string, s: string)
    requires Blank(front) && (s != "" ==> !IsSpace(s[0]))
    ensures TrimStart(front + s) == s
  {
    if front != "" {
      assert (front + s)[1..] == front[1..] + s;
      assert IsSpace(front[0]);
      FrontComesOff(front[1..], s);
    } else {
      assert front + s == s;
    }
  }

  lemma {:induction false} BackComesOff(s: string, back: string)
    requires Blank(back) && (s != "" ==> !IsSpace(s[|s| - 1]))
    ensures TrimBack(s + back) == s
  {
    if back != "" {
      var init := back[..|back| - 1];
      assert (s + back)[..|s + back| - 1] == s + init;
      assert IsSpace(back[|back| - 1]);
      BackComesOff(s, init);
    } else {
      assert s + back == s;
    }
  }

  lemma {:induction false} BlanksComeOff(front: string, s: string, back: string)
    requires Blank(front) && Blank(back) && s != "" && !IsSpace(s[0]) && !IsSpace(s[|s| - 1])
    ensures Trim(front + s + back) == s
  {
    assert front + s + back == front + (s + back);
    FrontComesOff(front, s + back);
    BackComesOff(s, back);
  }

  lemma {:induction false} BlankFront(s: string) returns (front: string)
    ensures Blank(front) && s == front + TrimStart(s)
  {
    if s != "" && IsSpace(s[0]) {
      var more := BlankFront(s[1..]);
      front := [s[0]] + more;
      assert s == [s[0]] + s[1..];
    } else {
      front := "";
      assert s == "" + s;
    }
  }

  lemma {:induction false} BlankBack(s: string) returns (back: string)
    ensures Blank(back) && s == TrimBack(s) + back
  {
    if s != "" && IsSpace(s[|s| - 1]) {
      var more := BlankBack(s[..|s| - 1]);
      back := more + [s[|s| - 1]];
      assert s == s[..|s| - 1] + [s[|s| - 1]];
    } else {
      back := "";
      assert s == s + "";
    }
  }

  lemma {:induction false} Blanks(text: string) returns (front: string, back: string)
    ensures Blank(front) && Blank(back) && text == front + Trim(text) + back
  {
    front := BlankFront(text);
    back := BlankBack(TrimStart(text));
    assert text == front + (Trim(text) + back);
  }
}

/** Bytes, big-endian words, and Rust's truncating and wrapping integer operators. */
module Machine {

  type byte = x: int | 0 <= x < 256

  function Pow(base: nat, n: nat): (p: nat)
    ensures base > 0 ==> p > 0
  {
    if n == 0 then 1 else base * Pow(base, n - 1)
  }

  // Rust's `/` on signed integers: rounds toward zero.
  function TruncDiv(a: int, b: int): int
    requires b > 0
  {
    if a >= 0 then a / b else -((-a) / b)
  }

  // Rust's `%` on signed integers: takes the sign of the dividend.
  function TruncMod(a: int, b: int): int
    requires b > 0
  {
    if a >= 0 then a % b else -((-a) % b)
  }

  // The two's-complement value of the low 32 bits.
  function WrapI32(x: int): (r: int)
    ensures -0x8000_0000 <= r < 0x8000_0000
    ensures -0x8000_0000 <= x < 0x8000_0000 ==> r == x
  {
    (x + 0x8000_0000) % 0x1_0000_0000 - 0x8000_0000
  }

  // The `n` big-endian bytes of `v`; higher bytes are dropped, as by an `as` cast.
  function BigEndian(v: nat, n: nat): (s: seq<byte>)
    ensures |s| == n
  {
    if n == 0 then [] else BigEndian(v / 256, n - 1) + [v % 256]
  }

  function FromBigEndian(s: seq<byte>): nat {
    if s == [] then 0 else FromBigEndian(s[..|s| - 1]) * 256 + s[|s| - 1]
  }

  lemma {:induction false} BigEndianInverts(v: nat, n: nat)
    requires v < Pow(256, n)
    ensures FromBigEndian(BigEndian(v, n)) == v
  {
    if n > 0 {
      var high := BigEndian(v / 256, n - 1);
      assert BigEndian(v, n)[..n - 1] == high;
      QuotientBound(v, Pow(256, n - 1));
      BigEndianInverts(v / 256, n - 1);
    }
  }

  lemma QuotientBound(v: nat, p: nat)
    requires v < 256 * p
    ensures v / 256 < p
  {
  }

  lemma {:induction false} FromBigEndianBound(s: seq<byte>)
    ensures FromBigEndian(s) < Pow(256, |s|)
  {
    if s != [] {
      FromBigEndianBound(s[..|s| - 1]);
    }
  }

  // The decoded value of two and four bytes spelled out.
  lemma FromBigEndianWords(s: seq<byte>)
    ensures |s| == 1 ==> FromBigEndian(s) == s[0]
    ensures |s| == 2 ==> FromBigEndian(s) == s[0] as int * 256 + s[1] as int
    ensures |s| == 3 ==> FromBigEndian(s) == s[0] as int * 65536 + s[1] as int * 256 + s[2] as int
    ensures |s| == 4 ==> FromBigEndian(s) == s[0] as int * 0x100_0000 + s[1] as int * 65536 + s[2] as int * 256 + s[3] as int
  {
    if 1 <= |s| <= 4 {
      var t := s[..|s| - 1];
      if |s| > 1 {
        FromBigEndianWords(t);
      } else {
        assert t == [];
      }
    }
  }

  lemma Powers256()
    ensures Pow(256, 1) == 256 && Pow(256, 2) == 65536
    ensures Pow(256, 4) == 0x1_0000_0000 && Pow(256, 8) == 0x1_0000_0000_0000_0000
  {
    assert Pow(256, 2) == 65536;
    assert Pow(256, 3) == 256 * Pow(256, 2);
    assert Pow(256, 4) == 256 * Pow(256, 3);
    assert Pow(256, 5) == 256 * Pow(256, 4);
    assert Pow(256, 6) == 256 * Pow(256, 5);
    assert Pow(256, 7) == 256 * Pow(256, 6);
    assert Pow(256, 8) == 256 * Pow(256, 7);
  }

  // Unsigned lexicographic order, as a byte comparison sorts.
  predicate LexLess(a: seq<byte>, b: seq<byte>) {
    b != [] && (a == [] || a[0] < b[0] || (a[0] == b[0] && LexLess(a[1..], b[1..])))
  }

  lemma {:induction false} FromBigEndianSplit(a: seq<byte>, b: seq<byte>)
    ensures FromBigEndian(a + b) == FromBigEndian(a) * Pow(256, |b|) + FromBigEndian(b)
  {
    if b == [] {
      assert a + b == a;
    } else {
      var t, n := b[..|b| - 1], |b| - 1;
      FromBigEndianSplit(a, t);
      assert (a + b)[..|a + b| - 1] == a + t;
      calc {
        FromBigEndian(a + b);
        (FromBigEndian(a) * Pow(256, n) + FromBigEndian(t)) * 256 + b[n];
        FromBigEndian(a) * Pow(256, n) * 256 + FromBigEndian(b);
        { RegroupProduct(FromBigEndian(a), Pow(256, n)); }
        FromBigEndian(a) * Pow(256, n + 1) + FromBigEndian(b);
      }
    }
  }

  lemma RegroupProduct(x: nat, y: nat)
    ensures x * y * 256 == x * (256 * y)
  {
  }

  // On words of one width, byte order is numeric order.
  lemma {:induction false} LexIsNumeric(a: seq<byte>, b: seq<byte>)
    requires |a| == |b|
    ensures LexLess(a, b) <==> FromBigEndian(a) < FromBigEndian(b)
  {
    if a != [] {
      var n := |a| - 1;
      var x, y := a[1..], b[1..];
      FromBigEndianSplit([a[0]], x);
      FromBigEndianSplit([b[0]], y);
      assert [a[0]] + x == a && [b[0]] + y == b;
      FromBigEndianWords([a[0]]);
      FromBigEndianWords([b[0]]);
      FromBigEndianBound(x);
      FromBigEndianBound(y);
      LexIsNumeric(x, y);
      HighDigitDecides(a[0], b[0], FromBigEndian(x), FromBigEndian(y), Pow(256, n));
    }
  }

  lemma HighDigitDecides(h: nat, k: nat, x: nat, y: nat, p: nat)
    requires x < p && y < p
    ensures h * p + x < k * p + y <==> h < k || (h == k && x < y)
  {
    if h < k {
      assert (h + 1) * p <= k * p;
    } else if k < h {
      assert (k + 1) * p <= h * p;
    }
  }
}
