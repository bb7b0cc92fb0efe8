/** Decimal text: reading it, its canonical form, and printing that form. */
module Decimals {
  import opened Wrappers
  import opened Characters

  type digit = d: int | 0 <= d <= 9

  // plus or minus 0.d1d2d3... times ten to the power of `point`.
  datatype Decimal = Decimal(negative: bool, digits: seq<digit>, point: int)

  const ZERO := Decimal(false, [], 0)

  datatype Error =
    | EmptyNumber
    | InvalidExponent
    | InvalidNumber
    | OutOfRange
    | EmptyBind
    | InvalidBind

  // One representation per number: no zero digit at either end.
  predicate Canonical(d: Decimal) {
    if d.digits == [] then d == ZERO
    else d.digits[0] != 0 && d.digits[|d.digits| - 1] != 0
  }

  // ---- Reading ----------------------------------------------------------

  function DigitValue(c: char): digit
    requires IsDigit(c)
  {
    c as int - '0' as int
  }

  function DigitChar(d: digit): char {
    ('0' as int + d) as char
  }

  // Length of the run of digits `s` starts with.
  function DigitRun(s: string): (n: nat)
    ensures n <= |s| && (forall k | 0 <= k < n :: IsDigit(s[k])) && (n < |s| ==> !IsDigit(s[n]))
  {
    if s != [] && IsDigit(s[0]) then 1 + DigitRun(s[1..]) else 0
  }

  function Values(s: string): (ds: seq<digit>)
    requires AllDigits(s)
    ensures |ds| == |s|
  {
    seq(|s|, i requires 0 <= i < |s| => DigitValue(s[i]))
  }

  function Text(ds: seq<digit>): (s: string)
    ensures |s| == |ds| && AllDigits(s)
  {
    seq(|ds|, i requires 0 <= i < |ds| => DigitChar(ds[i]))
  }

  function NatOf(ds: seq<digit>): nat {
    if ds == [] then 0 else NatOf(ds[..|ds| - 1]) * 10 + ds[|ds| - 1]
  }

  // `parse::<i32>` on a run of digits.
  function ParseI32(s: string): Option<nat>
    requires AllDigits(s)
  {
    if s == "" || NatOf(Values(s)) >= 0x8000_0000 then None else Some(NatOf(Values(s)))
  }

  function LeadingZeros(ds: seq<digit>): (n: nat)
    ensures n <= |ds| && (forall k | 0 <= k < n :: ds[k] == 0) && (n < |ds| ==> ds[n] != 0)
  {
    if ds != [] && ds[0] == 0 then 1 + LeadingZeros(ds[1..]) else 0
  }

  function TrimZeros(ds: seq<digit>): (r: seq<digit>)
    ensures r <= ds && (r != [] ==> r[|r| - 1] != 0)
    ensures forall k | |r| <= k < |ds| :: ds[k] == 0
  {
    if ds != [] && ds[|ds| - 1] == 0 then TrimZeros(ds[..|ds| - 1]) else ds
  }

  // whole.fraction times ten to the exponent, in canonical form.
  function Normal(negative: bool, whole: seq<digit>, fraction: seq<digit>, exponent: int): (d: Decimal)
    ensures Canonical(d)
  {
    var all := whole + fraction;
    var z := LeadingZeros(all);
    var ds := TrimZeros(all[z..]);
    if ds == [] then ZERO else Decimal(negative, ds, |whole| - z + exponent)
  }

  function AfterSign(s: string): string {
    if s != "" && (s[0] == '-' || s[0] == '+') then s[1..] else s
  }

  predicate Negative(s: string) {
    s != "" && s[0] == '-'
  }

  // The fractional digits when `s` continues with a point, and what follows.
  function Fraction(s: string): (r: (string, string))
    ensures AllDigits(r.0)
  {
    if s != "" && s[0] == '.' then
      var n := DigitRun(s[1..]);
      (s[1..][..n], s[1..][n..])
    else ("", s)
  }

  // An unsigned number's digits before the point, those after it, and the rest.
  function WholeText(s: string): (r: string)
    ensures AllDigits(r)
  {
    s[..DigitRun(s)]
  }

  function FractionText(s: string): (r: string)
    ensures AllDigits(r)
  {
    Fraction(s[DigitRun(s)..]).0
  }

  function Tail(s: string): string {
    Fraction(s[DigitRun(s)..]).1
  }

  // The exponent when `s` continues with one, and what follows.
  function Exponent(s: string): Result<(int, string), Error> {
    if s != "" && (s[0] == 'e' || s[0] == 'E') then
      var t := AfterSign(s[1..]);
      var n := DigitRun(t);
      match ParseI32(t[..n])
      case None => Failure(InvalidExponent)
      case Some(e) => Success((if Negative(s[1..]) then -(e as int) else e, t[n..]))
    else Success((0, s))
  }

  // What the accepted notation denotes; a lone sign or point counts as zero.
  function ParseDecimal(text: string): (r: Result<Decimal, Error>)
    ensures r.Success? ==> Canonical(r.value)
  {
    var value := Trim(text);
    if value == "" then Failure(EmptyNumber)
    else
      var s := AfterSign(value);
      var (exponent, rest) :- Exponent(Tail(s));
      if rest != "" then Failure(InvalidNumber)
      else Success(Normal(Negative(value), Values(WholeText(s)), Values(FractionText(s)), exponent))
  }

  // ---- Printing ---------------------------------------------------------

  function Zeros(n: nat): (s: seq<digit>)
    ensures |s| == n && forall d <- s :: d == 0
  {
    seq(n, _ => 0)
  }

  function RenderMagnitude(ds: seq<digit>, point: int): string {
    if point <= 0 then "0." + Text(Zeros(-point)) + Text(ds)
    else if point >= |ds| then Text(ds) + Text(Zeros(point - |ds|))
    else Text(ds[..point]) + "." + Text(ds[point..])
  }

  // Plain positional notation, as short as it can be.
  function Render(d: Decimal): string {
    if d.digits == [] then "0"
    else (if d.negative then "-" else "") + RenderMagnitude(d.digits, d.point)
  }

  // ---- Parsing inverts printing -------------------------------------------

  lemma {:induction false} DigitRunAt(a: string, rest: string)
    requires AllDigits(a) && (rest == "" || !IsDigit(rest[0]))
    ensures DigitRun(a + rest) == |a|
    ensures (a + rest)[..|a|] == a && (a + rest)[|a|..] == rest
  {
    if a != "" {
      assert (a + rest)[1..] == a[1..] + rest;
      assert IsDigit(a[0]);
      assert AllDigits(a[1..]);
      DigitRunAt(a[1..], rest);
    } else {
      assert a + rest == rest;
    }
  }

  lemma ValuesOfText(ds: seq<digit>)
    ensures Values(Text(ds)) == ds
  {
  }

  lemma TextConcat(a: seq<digit>, b: seq<digit>)
    ensures Text(a + b) == Text(a) + Text(b)
  {
  }

  // Plain notation whole[.fraction] without sign or exponent.
  function Plain(whole: seq<digit>, fraction: seq<digit>): string {
    Text(whole) + if fraction == [] then "" else "." + Text(fraction)
  }

  lemma PlainEdges(whole: seq<digit>, fraction: seq<digit>)
    requires whole != []
    ensures var s := Plain(whole, fraction); s != "" && IsDigit(s[0]) && IsDigit(s[|s| - 1])
  {
    var s := Plain(whole, fraction);
    assert s[0] == Text(whole)[0];
    if fraction != [] {
      assert s[|s| - 1] == Text(fraction)[|fraction| - 1];
    }
  }

  lemma PlainSigns(s: string)
    requires s != "" && IsDigit(s[0]) && IsDigit(s[|s| - 1])
    ensures "" + s == s && Trim(s) == s && AfterSign(s) == s && !Negative(s)
    ensures Trim("-" + s) == "-" + s && AfterSign("-" + s) == s && Negative("-" + s)
  {
    TrimKeeps(s);
    TrimKeeps("-" + s);
    assert s[0] != '-' && s[0] != '+';
    var signed := "-" + s;
    assert signed[0] == '-' && signed[1..] == s;
  }

  lemma FractionOf(fraction: seq<digit>)
    ensures var tail := if fraction == [] then "" else "." + Text(fraction);
      (tail == "" || !IsDigit(tail[0])) && Fraction(tail) == (Text(fraction), "")
  {
    if fraction != [] {
      var tail := "." + Text(fraction);
      assert tail[1..] == Text(fraction) + "";
      DigitRunAt(Text(fraction), "");
    }
  }

  lemma ParseUnsigned(s: string, whole: seq<digit>, fraction: seq<digit>)
    requires s == Plain(whole, fraction)
    ensures WholeText(s) == Text(whole) && FractionText(s) == Text(fraction) && Tail(s) == ""
  {
    FractionOf(fraction);
    DigitRunAt(Text(whole), if fraction == [] then "" else "." + Text(fraction));
  }

  lemma ParseWithoutExponent(text: string, s: string, whole: seq<digit>, fraction: seq<digit>)
    requires text != "" && Trim(text) == text && AfterSign(text) == s
    requires WholeText(s) == Text(whole) && FractionText(s) == Text(fraction) && Tail(s) == ""
    ensures ParseDecimal(text) == Success(Normal(Negative(text), whole, fraction, 0))
  {
    ValuesOfText(whole);
    ValuesOfText(fraction);
  }

  lemma ParsePlain(negative: bool, whole: seq<digit>, fraction: seq<digit>)
    requires whole != []
    ensures ParseDecimal((if negative then "-" else "") + Plain(whole, fraction))
         == Success(Normal(negative, whole, fraction, 0))
  {
    var body := Plain(whole, fraction);
    PlainEdges(whole, fraction);
    ParseUnsigned(body, whole, fraction);
    PlainSigns(body);
    ParseWithoutExponent((if negative then "-" else "") + body, body, whole, fraction);
  }

  lemma {:induction false} LeadingZerosOf(n: nat, ds: seq<digit>)
    requires ds != [] && ds[0] != 0
    ensures LeadingZeros(Zeros(n) + ds) == n && (Zeros(n) + ds)[n..] == ds
  {
    if n > 0 {
      assert (Zeros(n) + ds)[1..] == Zeros(n - 1) + ds;
      LeadingZerosOf(n - 1, ds);
    } else {
      assert Zeros(n) + ds == ds;
    }
  }

  lemma {:induction false} TrimZerosOf(ds: seq<digit>, n: nat)
    requires ds != [] && ds[|ds| - 1] != 0
    ensures TrimZeros(ds + Zeros(n)) == ds
  {
    if n > 0 {
      assert (ds + Zeros(n))[..|ds| + n - 1] == ds + Zeros(n - 1);
      TrimZerosOf(ds, n - 1);
    } else {
      assert ds + Zeros(n) == ds;
    }
  }

  // The printed form split at its point.
  function WholePart(d: Decimal): seq<digit> {
    if d.point <= 0 then [0]
    else if d.point >= |d.digits| then d.digits + Zeros(d.point - |d.digits|)
    else d.digits[..d.point]
  }

  function FractionPart(d: Decimal): seq<digit> {
    if d.point <= 0 then Zeros(-d.point) + d.digits
    else if d.point >= |d.digits| then []
    else d.digits[d.point..]
  }

  lemma RenderIsPlain(d: Decimal)
    requires Canonical(d) && d != ZERO
    ensures Render(d) == (if d.negative then "-" else "") + Plain(WholePart(d), FractionPart(d))
    ensures Normal(d.negative, WholePart(d), FractionPart(d), 0) == d
  {
    if d.point <= 0 {
      SmallIsPlain(d);
    } else if d.point >= |d.digits| {
      IntegerIsPlain(d);
    } else {
      SplitIsPlain(d);
    }
  }

  lemma SplitIsPlain(d: Decimal)
    requires Canonical(d) && 0 < d.point < |d.digits|
    ensures RenderMagnitude(d.digits, d.point) == Plain(d.digits[..d.point], d.digits[d.point..])
    ensures Normal(d.negative, d.digits[..d.point], d.digits[d.point..], 0) == d
  {
    var ds := d.digits;
    var whole, fraction := ds[..d.point], ds[d.point..];
    assert whole + fraction == ds && ds[0..] == ds && ds + Zeros(0) == ds;
    assert Text(whole) + ("." + Text(fraction)) == Text(whole) + "." + Text(fraction);
    TrimZerosOf(ds, 0);
  }

  lemma {:induction false} SmallIsPlain(d: Decimal)
    requires Canonical(d) && d != ZERO && d.point <= 0
    ensures RenderMagnitude(d.digits, d.point) == Plain([0], Zeros(-d.point) + d.digits)
    ensures Normal(d.negative, [0], Zeros(-d.point) + d.digits, 0) == d
  {
    var ds, n: nat := d.digits, -d.point;
    TextConcat(Zeros(n), ds);
    assert Text([0]) == "0";
    assert Text([0]) + ("." + (Text(Zeros(n)) + Text(ds))) == "0." + Text(Zeros(n)) + Text(ds);
    assert [0] + (Zeros(n) + ds) == Zeros(n + 1) + ds;
    LeadingZerosOf(n + 1, ds);
    TrimZerosOf(ds, 0);
    assert ds + Zeros(0) == ds;
  }

  lemma IntegerIsPlain(d: Decimal)
    requires Canonical(d) && d != ZERO && d.point >= |d.digits|
    ensures var whole := d.digits + Zeros(d.point - |d.digits|);
      && RenderMagnitude(d.digits, d.point) == Plain(whole, [])
      && Normal(d.negative, whole, [], 0) == d
  {
    var ds, n: nat := d.digits, d.point - |d.digits|;
    TextConcat(ds, Zeros(n));
    var whole := ds + Zeros(n);
    assert whole + [] == whole && whole[0..] == whole;
    assert Text(whole) + "" == Text(whole);
    TrimZerosOf(ds, n);
  }

  // Every canonical decimal is what its own printed form parses to.
  lemma ParseInvertsRender(d: Decimal)
    requires Canonical(d)
    ensures ParseDecimal(Render(d)) == Success(d)
  {
    if d == ZERO {
      assert Plain([0], []) == "0" by {
        assert Text([0]) == "0";
      }
      ParsePlain(false, [0], []);
      assert "" + "0" == "0";
    } else {
      RenderIsPlain(d);
      ParsePlain(d.negative, WholePart(d), FractionPart(d));
    }
  }
}

/** Oracle's base-100 NUMBER form. */
module OracleNumber {
  import opened Wrappers
  import opened Machine
  import opened Characters
  import opened Decimals

  const TERMINATOR: byte := 102
  const MAX_DIGITS: nat := 40
  const COLUMN_WIDTH: nat := 22

  type pair = p: int | 0 <= p < 100

  // ---- Specification ------------------------------------------------------

  predicate Accepted(d: Decimal) {
    |d.digits| <= MAX_DIGITS && -129 <= d.point <= 126
  }

  // The digits aligned to whole base-100 places.
  function Aligned(ds: seq<digit>, point: int): (r: seq<digit>)
    ensures |r| % 2 == 0
  {
    var front := if point % 2 == 0 then ds else [0] + ds;
    if |front| % 2 == 0 then front else front + [0]
  }

  function Pairs(ds: seq<digit>): (ps: seq<pair>)
    requires |ds| % 2 == 0
    ensures |ps| == |ds| / 2
  {
    seq(|ds| / 2, k requires 0 <= k < |ds| / 2 => 10 * ds[2 * k] as int + ds[2 * k + 1] as int)
  }

  // The biased base-100 exponent of the decimal point `point`.
  function ExponentByte(point: int): byte
    requires -129 <= point <= 126
  {
    192 + (point + 1) / 2
  }

  function Mantissa(negative: bool, ps: seq<pair>): (s: seq<byte>)
    ensures |s| == |ps|
  {
    seq(|ps|, k requires 0 <= k < |ps| => if negative then 101 - ps[k] as int else ps[k] as int + 1)
  }

  function Assemble(negative: bool, exponent: byte, ps: seq<pair>): seq<byte> {
    if negative then [255 - exponent] + Mantissa(true, ps) + if |ps| < 20 then [TERMINATOR] else []
    else [exponent] + Mantissa(false, ps)
  }

  function Encoding(d: Decimal): seq<byte>
    requires Accepted(d)
  {
    if d.digits == [] then [0x80]
    else Assemble(d.negative, ExponentByte(d.point), Pairs(Aligned(d.digits, d.point)))
  }

  // ---- Encoding -------------------------------------------------------------

  // The digits pushed so far and the point they imply, for the digits read so
  // far: leading zeros are skipped, before and after the point.
  ghost predicate Scanned(digits: seq<digit>, point: int, whole: nat, all: seq<digit>) {
    digits == all[LeadingZeros(all)..] && point == whole - LeadingZeros(all)
  }

  // Texts longer than 2^30 characters could overflow the `i32` digit count;
  // no packet can carry one.
  method EncodeOracleNumberDecimal(text: string) returns (r: Result<seq<byte>, Error>)
    requires |text| <= 0x4000_0000
    ensures match ParseDecimal(text)
      case Failure(e) => r == Failure(e)
      case Success(d) => r == if Accepted(d) then Success(Encoding(d)) else Failure(OutOfRange)
  {
    var value := Trim(text);
    TrimShortens(text);
    if value == "" {
      return Failure(EmptyNumber);
    }
    var pos := 0;
    var negative := value[0] == '-';
    if negative || value[0] == '+' {
      pos := pos + 1;
    }
    assert AfterSign(value) == value[pos..];
    var scanned := ScanUnsigned(value, negative, pos);
    if scanned.Failure? {
      return Failure(scanned.error);
    }
    var (digits, point) := scanned.value;
    if digits == [] {
      return Success([0x80]);
    }
    if |digits| > MAX_DIGITS || !(-129 <= point <= 126) {
      return Failure(OutOfRange);
    }
    var encoded := EncodePairs(negative, digits, point);
    r := Success(encoded);
  }

  // The digits and point up to an exponent, if there is one.
  method ScanNumber(value: string, start: nat)
    returns (digits: seq<digit>, point: int, pos: nat, ghost whole: seq<digit>, ghost fraction: seq<digit>)
    requires start <= |value|
    ensures start <= pos <= |value| && -(pos - start) <= point <= pos - start
    ensures var s := value[start..];
      Tail(s) == value[pos..] && whole == Values(WholeText(s)) && fraction == Values(FractionText(s))
    ensures Scanned(digits, point, |whole|, whole + fraction)
  {
    digits, pos, whole := ScanWhole(value, start);
    digits, point, pos, fraction := ScanPoint(value, pos, digits, whole);
  }

  lemma ExponentAt(s: string, negative: bool, t: string, n: nat, digits: string, rest: string)
    requires s != "" && (s[0] == 'e' || s[0] == 'E') && t == AfterSign(s[1..]) && n == DigitRun(t)
    requires negative == Negative(s[1..]) && digits == t[..n] && rest == t[n..]
    ensures Exponent(s) == match ParseI32(digits)
      case None => Failure(InvalidExponent)
      case Some(e) => Success((if negative then -(e as int) else e, rest))
  {
  }

  method ScanExponent(value: string, start: nat) returns (r: Result<int, Error>, pos: nat)
    requires start <= |value|
    ensures start <= pos <= |value|
    ensures match Exponent(value[start..])
      case Failure(e) => r == Failure(e)
      case Success(read) => r == Success(read.0) && value[pos..] == read.1 && -0x8000_0000 < read.0 < 0x8000_0000
  {
    pos := start;
    if pos == |value| || (value[pos] != 'e' && value[pos] != 'E') {
      return Success(0), pos;
    }
    assert value[start..][1..] == value[pos + 1..];
    var negative, first := SkipSign(value, pos + 1);
    pos := SkipDigits(value, first);
    ExponentAt(value[start..], negative, value[first..], pos - first, value[first..pos], value[pos..]);
    match ParseI32(value[first..pos])
    case None => r := Failure(InvalidExponent);
    case Some(exponent) => r := Success(if negative then -(exponent as int) else exponent);
  }

  // The `i32` addition of the exponent can only wrap far outside the range.
  lemma WrapIsHarmless(point: int, exponent: int)
    requires -0x4000_0000 <= point <= 0x4000_0000 && -0x8000_0000 < exponent < 0x8000_0000
    ensures -129 <= WrapI32(point + exponent) <= 126 <==> -129 <= point + exponent <= 126
    ensures -129 <= point + exponent <= 126 ==> WrapI32(point + exponent) == point + exponent
  {
  }

  lemma TerminatorGoesOn(negative: bool, exponent: byte, ps: seq<pair>, encoded: seq<byte>)
    requires encoded == [if negative then 255 - exponent else exponent] + Mantissa(negative, ps)
    ensures Assemble(negative, exponent, ps) == if negative && |encoded| < 21 then encoded + [TERMINATOR] else encoded
  {
  }

  method BiasedExponent(dp: int, prependZero: bool) returns (exponent: byte)
    requires -129 <= dp <= 126 && (prependZero <==> dp % 2 != 0)
    ensures exponent == ExponentByte(dp)
  {
    var point := dp;
    ParityOfTruncation(dp);
    if prependZero {
      point := point + 1;
    }
    // `((point / 2) + 192) as i8` and back to an unsigned byte
    exponent := (TruncDiv(point, 2) + 192) % 256;
  }

  method EncodePairs(negative: bool, ds: seq<digit>, dp: int) returns (encoded: seq<byte>)
    requires 0 < |ds| <= MAX_DIGITS && -129 <= dp <= 126
    ensures encoded == Assemble(negative, ExponentByte(dp), Pairs(Aligned(ds, dp)))
  {
    ParityOfTruncation(dp);
    var prependZero := TruncMod(dp, 2) != 0;
    var digits := Pad(ds, prependZero, dp);
    var exponent := BiasedExponent(dp, prependZero);
    var first: byte := if negative then 255 - exponent else exponent;
    ghost var ps := Pairs(Aligned(ds, dp));
    AlignedPairs(ds, dp);
    var body := EncodeBody(negative, digits, prependZero, ps);
    encoded := [first] + body;
    TerminatorGoesOn(negative, exponent, ps, encoded);
    if negative && |encoded| < 21 {
      encoded := encoded + [TERMINATOR];
    }
  }

  // ---- The steps of encoding ---------------------------------------------------

  lemma {:induction false} LeadingZerosSnoc(ds: seq<digit>, d: digit)
    ensures LeadingZeros(ds + [d]) ==
      if LeadingZeros(ds) == |ds| && d == 0 then |ds| + 1 else LeadingZeros(ds)
  {
    if ds == [] {
      assert ds + [d] == [d];
      assert LeadingZeros([d][1..]) == 0;
    } else {
      assert (ds + [d])[1..] == ds[1..] + [d];
      LeadingZerosSnoc(ds[1..], d);
    }
  }

  // A digit is pushed unless it is a leading zero.
  function PushDigit(digits: seq<digit>, d: digit): seq<digit> {
    if d != 0 || digits != [] then digits + [d] else digits
  }

  lemma ScanFractionDigit(digits: seq<digit>, point: int, whole: nat, all: seq<digit>, d: digit)
    requires Scanned(digits, point, whole, all)
    ensures Scanned(PushDigit(digits, d), if d == 0 && digits == [] then point - 1 else point, whole, all + [d])
  {
    LeadingZerosSnoc(all, d);
  }

  lemma ScanWholeDigit(digits: seq<digit>, whole: seq<digit>, d: digit)
    requires Scanned(digits, |digits|, |whole|, whole)
    ensures Scanned(PushDigit(digits, d), |PushDigit(digits, d)|, |whole + [d]|, whole + [d])
  {
    LeadingZerosSnoc(whole, d);
  }

  // The digits from `start` are read as far as `pos`.
  ghost predicate ReadTo(value: string, start: nat, pos: nat, digits: seq<digit>) {
    && start <= pos <= |value| && AllDigits(value[start..pos])
    && digits == Values(value[start..pos])
    && DigitRun(value[start..]) == pos - start + DigitRun(value[pos..])
  }

  lemma NextDigit(value: string, start: nat, pos: nat, digits: seq<digit>)
    requires ReadTo(value, start, pos, digits) && pos < |value| && IsDigit(value[pos])
    ensures ReadTo(value, start, pos + 1, digits + [DigitValue(value[pos])])
  {
    assert value[start..pos + 1] == value[start..pos] + [value[pos]];
    assert value[pos..][1..] == value[pos + 1..];
  }

  lemma NothingRead(value: string, start: nat)
    requires start <= |value|
    ensures ReadTo(value, start, start, [])
  {
    assert value[start..start] == "";
  }

  lemma ReadAll(value: string, start: nat, pos: nat, digits: seq<digit>)
    requires ReadTo(value, start, pos, digits) && (pos < |value| ==> !IsDigit(value[pos]))
    ensures start <= pos <= |value| && pos - start == DigitRun(value[start..])
    ensures value[start..][pos - start..] == value[pos..] && digits == Values(WholeText(value[start..]))
  {
    assert value[start..][..pos - start] == value[start..pos];
  }

  method ScanWhole(value: string, start: nat) returns (digits: seq<digit>, pos: nat, ghost whole: seq<digit>)
    requires start <= |value|
    ensures start <= pos <= |value| && pos - start == DigitRun(value[start..])
    ensures value[start..][pos - start..] == value[pos..]
    ensures whole == Values(WholeText(value[start..]))
    ensures Scanned(digits, |digits|, |whole|, whole)
  {
    digits, pos, whole := [], start, [];
    NothingRead(value, start);
    while pos < |value| && IsDigit(value[pos])
      invariant ReadTo(value, start, pos, whole)
      invariant Scanned(digits, |digits|, |whole|, whole)
    {
      var digit := DigitValue(value[pos]);
      ScanWholeDigit(digits, whole, digit);
      NextDigit(value, start, pos, whole);
      digits := PushDigit(digits, digit);
      whole, pos := whole + [digit], pos + 1;
    }
    ReadAll(value, start, pos, whole);
  }

  // The fraction read as far as `pos`, and the number scanned with it.
  ghost predicate FractionTo(value: string, start: nat, pos: nat, digits: seq<digit>, point: int, pointBefore: int,
    whole: seq<digit>, fraction: seq<digit>)
  {
    && ReadTo(value, start, pos, fraction)
    && pointBefore - (pos - start) <= point <= pointBefore
    && Scanned(digits, point, |whole|, whole + fraction)
  }

  lemma NextFractionDigit(value: string, start: nat, pos: nat, digits: seq<digit>, point: int, pointBefore: int,
    whole: seq<digit>, fraction: seq<digit>, d: digit)
    requires FractionTo(value, start, pos, digits, point, pointBefore, whole, fraction)
    requires pos < |value| && IsDigit(value[pos]) && d == DigitValue(value[pos])
    ensures FractionTo(value, start, pos + 1, PushDigit(digits, d), if d == 0 && digits == [] then point - 1 else point,
      pointBefore, whole, fraction + [d])
  {
    NextDigit(value, start, pos, fraction);
    ScanFractionDigit(digits, point, |whole|, whole + fraction, d);
    assert whole + fraction + [d] == whole + (fraction + [d]);
  }

  method ScanFraction(value: string, start: nat, before: seq<digit>, pointBefore: int, ghost whole: seq<digit>)
    returns (digits: seq<digit>, point: int, pos: nat, ghost fraction: seq<digit>)
    requires start <= |value| && Scanned(before, pointBefore, |whole|, whole)
    ensures start <= pos <= |value| && pos - start == DigitRun(value[start..])
    ensures value[start..][pos - start..] == value[pos..]
    ensures fraction == Values(WholeText(value[start..]))
    ensures pointBefore - (pos - start) <= point <= pointBefore
    ensures Scanned(digits, point, |whole|, whole + fraction)
  {
    digits, point, pos, fraction := before, pointBefore, start, [];
    NothingRead(value, start);
    assert whole + [] == whole;
    while pos < |value| && IsDigit(value[pos])
      invariant FractionTo(value, start, pos, digits, point, pointBefore, whole, fraction)
    {
      var digit := DigitValue(value[pos]);
      NextFractionDigit(value, start, pos, digits, point, pointBefore, whole, fraction, digit);
      point := if digit == 0 && digits == [] then point - 1 else point;
      digits, fraction, pos := PushDigit(digits, digit), fraction + [digit], pos + 1;
    }
    ReadAll(value, start, pos, fraction);
  }

  method SkipDigits(value: string, start: nat) returns (pos: nat)
    requires start <= |value|
    ensures start <= pos <= |value| && pos - start == DigitRun(value[start..])
    ensures value[start..][..pos - start] == value[start..pos] && value[start..][pos - start..] == value[pos..]
  {
    ghost var digits := [];
    pos := start;
    NothingRead(value, start);
    while pos < |value| && IsDigit(value[pos])
      invariant ReadTo(value, start, pos, digits)
    {
      NextDigit(value, start, pos, digits);
      digits, pos := digits + [DigitValue(value[pos])], pos + 1;
    }
    ReadAll(value, start, pos, digits);
  }

  method SkipSign(value: string, start: nat) returns (negative: bool, pos: nat)
    requires start <= |value|
    ensures start <= pos <= |value|
    ensures AfterSign(value[start..]) == value[pos..] && Negative(value[start..]) == negative
  {
    pos := start;
    negative := pos < |value| && value[pos] == '-';
    if negative || (pos < |value| && value[pos] == '+') {
      assert value[start..][1..] == value[pos + 1..];
      pos := pos + 1;
    }
  }

  lemma FractionAt(value: string, pos: nat)
    requires pos < |value| && value[pos] == '.'
    ensures var m := DigitRun(value[pos + 1..]);
      Fraction(value[pos..]) == (WholeText(value[pos + 1..]), value[pos + 1 + m..])
  {
    assert value[pos..][1..] == value[pos + 1..];
    var m := DigitRun(value[pos + 1..]);
    assert value[pos + 1..][m..] == value[pos + 1 + m..];
  }

  lemma NoFractionAt(value: string, pos: nat)
    requires pos <= |value| && (pos < |value| ==> value[pos] != '.')
    ensures Fraction(value[pos..]).0 == "" && Fraction(value[pos..]).1 == value[pos..]
  {
  }

  // The point and what follows it, if there is one.
  method ScanPoint(value: string, start: nat, before: seq<digit>, ghost whole: seq<digit>)
    returns (digits: seq<digit>, point: int, pos: nat, ghost fraction: seq<digit>)
    requires start <= |value| && Scanned(before, |before|, |whole|, whole)
    ensures start <= pos <= |value| && |before| - (pos - start) <= point <= |before|
    ensures Fraction(value[start..]).1 == value[pos..] && fraction == Values(Fraction(value[start..]).0)
    ensures Scanned(digits, point, |whole|, whole + fraction)
  {
    if start < |value| && value[start] == '.' {
      FractionAt(value, start);
      digits, point, pos, fraction := ScanFraction(value, start + 1, before, |before|, whole);
    } else {
      NoFractionAt(value, start);
      digits, point, pos, fraction := before, |before|, start, [];
      assert whole + [] == whole;
    }
  }

  lemma NormalOfScan(negative: bool, whole: seq<digit>, fraction: seq<digit>, exponent: int, digits: seq<digit>, point: int)
    requires Scanned(digits, point, |whole|, whole + fraction)
    ensures Normal(negative, whole, fraction, exponent) ==
      if TrimZeros(digits) == [] then ZERO else Decimal(negative, TrimZeros(digits), point + exponent)
  {
  }

  // The scanned number; its point has gone through the `i32` addition, which
  // shows only far outside the range.
  ghost predicate ReadsAs(negative: bool, digits: seq<digit>, point: int, d: Decimal) {
    && digits == d.digits
    && (digits != [] ==>
      && negative == d.negative
      && (-129 <= point <= 126 <==> -129 <= d.point <= 126)
      && (-129 <= d.point <= 126 ==> point == d.point))
  }

  lemma NormalReadsAs(negative: bool, whole: seq<digit>, fraction: seq<digit>, exponent: int, digits: seq<digit>, point: int)
    requires Scanned(digits, point, |whole|, whole + fraction)
    requires -0x4000_0000 <= point <= 0x4000_0000 && -0x8000_0000 < exponent < 0x8000_0000
    ensures ReadsAs(negative, TrimZeros(digits), WrapI32(point + exponent), Normal(negative, whole, fraction, exponent))
  {
    NormalOfScan(negative, whole, fraction, exponent, digits, point);
    WrapIsHarmless(point, exponent);
  }

  // What an unsigned number is read as, or why it is none.
  ghost predicate UnsignedRead(s: string, negative: bool, r: Result<(seq<digit>, int), Error>) {
    match Exponent(Tail(s))
    case Failure(e) => r == Failure(e)
    case Success((exponent, rest)) =>
      if rest != "" then r == Failure(InvalidNumber)
      else r.Success? && ReadsAs(negative, r.value.0, r.value.1,
        Normal(negative, Values(WholeText(s)), Values(FractionText(s)), exponent))
  }

  lemma BadExponentRead(s: string, negative: bool, e: Error)
    requires Exponent(Tail(s)) == Failure(e)
    ensures UnsignedRead(s, negative, Failure(e))
  {
  }

  lemma TrailingTextRead(s: string, negative: bool, read: (int, string))
    requires Exponent(Tail(s)) == Success(read) && read.1 != ""
    ensures UnsignedRead(s, negative, Failure(InvalidNumber))
  {
  }

  lemma WholeNumberRead(s: string, negative: bool, exponent: int, whole: seq<digit>, fraction: seq<digit>,
    digits: seq<digit>, point: int)
    requires Exponent(Tail(s)) == Success((exponent, ""))
    requires whole == Values(WholeText(s)) && fraction == Values(FractionText(s))
    requires ReadsAs(negative, digits, point, Normal(negative, whole, fraction, exponent))
    ensures UnsignedRead(s, negative, Success((digits, point)))
  {
  }

  method Normalize(negative: bool, before: seq<digit>, pointBefore: int, exponent: int,
    ghost whole: seq<digit>, ghost fraction: seq<digit>)
    returns (digits: seq<digit>, point: int)
    requires Scanned(before, pointBefore, |whole|, whole + fraction)
    requires -0x4000_0000 <= pointBefore <= 0x4000_0000 && -0x8000_0000 < exponent < 0x8000_0000
    ensures ReadsAs(negative, digits, point, Normal(negative, whole, fraction, exponent))
  {
    NormalReadsAs(negative, whole, fraction, exponent, before, pointBefore);
    point := WrapI32(pointBefore + exponent);
    digits := PopZeros(before);
  }

  method ScanUnsigned(value: string, negative: bool, start: nat)
    returns (r: Result<(seq<digit>, int), Error>)
    requires start <= |value| <= 0x4000_0000
    ensures UnsignedRead(value[start..], negative, r)
  {
    var digits, point, pos, whole, fraction := ScanNumber(value, start);
    var exponent;
    exponent, pos := ScanExponent(value, pos);
    if exponent.Failure? {
      BadExponentRead(value[start..], negative, exponent.error);
      return Failure(exponent.error);
    }
    if pos != |value| {
      TrailingTextRead(value[start..], negative, (exponent.value, value[pos..]));
      return Failure(InvalidNumber);
    }
    digits, point := Normalize(negative, digits, point, exponent.value, whole, fraction);
    assert value[pos..] == "";
    WholeNumberRead(value[start..], negative, exponent.value, whole, fraction, digits, point);
    r := Success((digits, point));
  }

  method PopZeros(ds: seq<digit>) returns (digits: seq<digit>)
    ensures digits == TrimZeros(ds)
  {
    digits := ds;
    while digits != [] && digits[|digits| - 1] == 0
      invariant TrimZeros(ds) == TrimZeros(digits)
    {
      digits := digits[..|digits| - 1];
    }
  }

  // The digits as the source pads them: it makes room for a zero digit in
  // front by pushing one at the back and reading a single digit for the first
  // pair.
  function Pushed(ds: seq<digit>, point: int): seq<digit> {
    var digits := if point % 2 == 0 then ds else ds + [0];
    if |digits| % 2 == 0 then digits else digits + [0]
  }

  lemma AlignedPairs(ds: seq<digit>, point: int)
    ensures var digits, ps := Pushed(ds, point), Pairs(Aligned(ds, point));
      && |digits| == 2 * |ps|
      && (point % 2 == 0 ==> forall k | 0 <= k < |ps| ::
          ps[k] as int == 10 * digits[2 * k] as int + digits[2 * k + 1] as int)
      && (point % 2 != 0 && |ps| > 0 ==> ps[0] as int == digits[0] as int)
      && (point % 2 != 0 ==> forall k | 1 <= k < |ps| ::
          ps[k] as int == 10 * digits[2 * k - 1] as int + digits[2 * k] as int)
  {
  }

  lemma ParityOfTruncation(point: int)
    requires -129 <= point <= 126
    ensures TruncMod(point, 2) != 0 <==> point % 2 != 0
    ensures point % 2 == 0 ==> TruncDiv(point, 2) + 192 == ExponentByte(point) as int
    ensures point % 2 != 0 ==> TruncDiv(point + 1, 2) + 192 == ExponentByte(point) as int
  {
  }

  method Pad(ds: seq<digit>, prependZero: bool, ghost point: int) returns (digits: seq<digit>)
    requires prependZero <==> point % 2 != 0
    ensures digits == Pushed(ds, point)
  {
    digits := ds;
    if prependZero {
      digits := digits + [0];
    }
    if |digits| % 2 != 0 {
      digits := digits + [0];
    }
  }

  method EncodeBody(negative: bool, digits: seq<digit>, prependZero: bool, ghost ps: seq<pair>) returns (body: seq<byte>)
    requires |digits| == 2 * |ps|
    requires !prependZero ==> forall k | 0 <= k < |ps| ::
      ps[k] as int == 10 * digits[2 * k] as int + digits[2 * k + 1] as int
    requires prependZero && |ps| > 0 ==> ps[0] as int == digits[0] as int
    requires prependZero ==> forall k | 1 <= k < |ps| ::
      ps[k] as int == 10 * digits[2 * k - 1] as int + digits[2 * k] as int
    ensures body == Mantissa(negative, ps)
  {
    body := [];
    var position := 0;
    var pairIndex := 0;
    while pairIndex < |digits| / 2
      invariant 0 <= pairIndex <= |ps|
      invariant position == if prependZero && pairIndex > 0 then 2 * pairIndex - 1 else 2 * pairIndex
      invariant body == Mantissa(negative, ps)[..pairIndex]
    {
      var pair: int;
      if pairIndex == 0 && prependZero {
        pair := digits[position];
        position := position + 1;
      } else {
        pair := 10 * digits[position] as int + digits[position + 1] as int;
        position := position + 2;
      }
      assert pair == ps[pairIndex] as int;
      body := body + [if negative then 101 - pair else pair + 1];
      pairIndex := pairIndex + 1;
    }
  }
}
