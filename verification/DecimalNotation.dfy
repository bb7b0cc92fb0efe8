/** The notation a decimal text is accepted in, and the number it stands for. */
module DecimalNotation {
  import opened Wrappers
  import opened Characters
  import opened Decimals
  import opened NumberOrder
  import opened PgNumeric
  import opened NumberMeaning

  // A power of ten after its mark, `e` or `E`.
  datatype Power = Power(mark: char, sign: string, digits: string)

  datatype Notation = Notation(sign: string, whole: string, fraction: Option<string>, power: Option<Power>)

  predicate IsSign(s: string) {
    s == "" || s == "+" || s == "-"
  }

  // Nothing, or a power that fits 31 bits.
  predicate FormedPower(p: Option<Power>) {
    p.Some? ==>
      && (p.value.mark == 'e' || p.value.mark == 'E') && IsSign(p.value.sign)
      && p.value.digits != "" && AllDigits(p.value.digits) && NatOf(Values(p.value.digits)) < 0x8000_0000
  }

  // Some parts may be missing, even all of the digits.
  predicate Formed(n: Notation) {
    && IsSign(n.sign) && AllDigits(n.whole)
    && (n.fraction.Some? ==> AllDigits(n.fraction.value))
    && FormedPower(n.power)
  }

  function PowerText(p: Option<Power>): string {
    if p.None? then "" else [p.value.mark] + (p.value.sign + p.value.digits)
  }

  function FractionalText(f: Option<string>): string {
    if f.None? then "" else "." + f.value
  }

  function Unsigned(n: Notation): string {
    n.whole + (FractionalText(n.fraction) + PowerText(n.power))
  }

  function Written(n: Notation): string {
    n.sign + Unsigned(n)
  }

  function Places(f: Option<string>): string {
    if f.Some? then f.value else ""
  }

  function PowerOf(p: Option<Power>): int
    requires FormedPower(p)
  {
    if p.None? then 0
    else if p.value.sign == "-" then -(NatOf(Values(p.value.digits)) as int)
    else NatOf(Values(p.value.digits))
  }

  // The digits as an integer, times the power of ten less the places after the point.
  ghost function Amount(n: Notation): real
    requires Formed(n)
  {
    AmountOf(n.sign == "-", Values(n.whole), Values(Places(n.fraction)), PowerOf(n.power))
  }

  ghost function AmountOf(negative: bool, whole: seq<digit>, places: seq<digit>, power: int): real {
    SignedValue(negative, Times(NatOf(whole + places) as real, Pow10(power - |places|)))
  }

  // ---- Reading what is written ------------------------------------------------------

  lemma {:induction false} SignComesOff(sign: string, rest: string)
    requires IsSign(sign) && (rest != "" ==> rest[0] != '+' && rest[0] != '-')
    ensures AfterSign(sign + rest) == rest && Negative(sign + rest) == (sign == "-")
  {
    if sign == "" {
      assert sign + rest == rest;
    } else {
      assert (sign + rest)[0] == sign[0] && (sign + rest)[1..] == rest;
    }
  }

  lemma {:induction false} PowerIsRead(p: Option<Power>)
    requires FormedPower(p)
    ensures Exponent(PowerText(p)) == Success((PowerOf(p), ""))
  {
    if p.Some? {
      var s, digits := PowerText(p), p.value.digits;
      assert s[0] == p.value.mark && s[1..] == p.value.sign + digits;
      assert IsDigit(digits[0]);
      SignComesOff(p.value.sign, digits);
      DigitRunAt(digits, "");
      assert digits + "" == digits;
    }
  }

  // Where a power may start.
  predicate AtPower(s: string) {
    s != "" ==> s[0] == 'e' || s[0] == 'E'
  }

  lemma {:induction false} FractionIsRead(f: Option<string>, power: string)
    requires (f.Some? ==> AllDigits(f.value)) && AtPower(power)
    ensures AllDigits(Places(f)) && Fraction(FractionalText(f) + power) == (Places(f), power)
    ensures f.Some? || AtPower(FractionalText(f) + power)
    ensures f.Some? ==> (FractionalText(f) + power)[0] == '.'
  {
    if f.Some? {
      var tail := FractionalText(f) + power;
      assert tail[0] == '.' && tail[1..] == f.value + power;
      DigitRunAt(f.value, power);
    } else {
      assert "" + power == power;
    }
  }

  lemma {:induction false} WholeIsRead(whole: string, tail: string)
    requires AllDigits(whole) && (tail != "" ==> tail[0] == '.' || tail[0] == 'e' || tail[0] == 'E')
    ensures WholeText(whole + tail) == whole && FractionText(whole + tail) == Fraction(tail).0
    ensures Tail(whole + tail) == Fraction(tail).1
    ensures whole + tail != "" ==> (whole + tail)[0] != '+' && (whole + tail)[0] != '-'
  {
    DigitRunAt(whole, tail);
    if whole != "" {
      assert (whole + tail)[0] == whole[0] && IsDigit(whole[0]);
    } else {
      assert whole + tail == tail;
    }
  }

  lemma {:induction false} UnsignedIsRead(n: Notation)
    requires Formed(n)
    ensures var s := Unsigned(n);
      && WholeText(s) == n.whole && FractionText(s) == Places(n.fraction) && Tail(s) == PowerText(n.power)
      && (s != "" ==> s[0] != '+' && s[0] != '-')
  {
    FractionIsRead(n.fraction, PowerText(n.power));
    WholeIsRead(n.whole, FractionalText(n.fraction) + PowerText(n.power));
  }

  predicate EndsBare(s: string) {
    s == "" || !IsSpace(s[|s| - 1])
  }

  lemma {:induction false} BareEnd(s: string, t: string)
    requires EndsBare(s) && EndsBare(t)
    ensures EndsBare(s + t)
  {
    if t != "" {
      assert (s + t)[|s + t| - 1] == t[|t| - 1];
    } else {
      assert s + t == s;
    }
  }

  lemma DigitsEndBare(s: string)
    requires AllDigits(s)
    ensures EndsBare(s) && (s == "" || !IsSpace(s[0]))
  {
    if s != "" {
      assert IsDigit(s[|s| - 1]) && IsDigit(s[0]);
    }
  }

  lemma {:induction false} PowerEndsBare(p: Option<Power>)
    requires FormedPower(p)
    ensures EndsBare(PowerText(p))
  {
    if p.Some? {
      DigitsEndBare(p.value.digits);
      assert PowerText(p)[|PowerText(p)| - 1] == p.value.digits[|p.value.digits| - 1];
    }
  }

  lemma {:induction false} FractionEndsBare(f: Option<string>)
    requires f.Some? ==> AllDigits(f.value)
    ensures EndsBare(FractionalText(f))
  {
    if f.Some? {
      DigitsEndBare(f.value);
      BareEnd(".", f.value);
    }
  }

  lemma {:induction false} WrittenEndsBare(n: Notation)
    requires Formed(n)
    ensures EndsBare(Written(n))
  {
    PowerEndsBare(n.power);
    FractionEndsBare(n.fraction);
    BareEnd(FractionalText(n.fraction), PowerText(n.power));
    DigitsEndBare(n.whole);
    BareEnd(n.whole, FractionalText(n.fraction) + PowerText(n.power));
    BareEnd(n.sign, Unsigned(n));
  }

  lemma {:induction false} WrittenStartsBare(n: Notation)
    requires Formed(n) && Written(n) != ""
    ensures !IsSpace(Written(n)[0])
  {
    DigitsEndBare(n.whole);
    FractionIsRead(n.fraction, PowerText(n.power));
    if n.sign != "" {
      assert Written(n)[0] == n.sign[0];
    } else if n.whole != "" {
      assert Written(n)[0] == n.whole[0];
    } else {
      assert Written(n) == FractionalText(n.fraction) + PowerText(n.power);
    }
  }

  // ---- The number ---------------------------------------------------------------------

  lemma {:induction false} PowSum(a: nat, e: int)
    ensures Pow10(a + e) == Times(Pow10(a), Pow10(e))
  {
    if a > 0 {
      PowSum(a - 1, e);
      PowStep(a - 1 + e);
      PowStep(a - 1);
      Tenfold(Pow10(a - 1), Pow10(e));
    }
  }

  lemma Tenfold(x: real, y: real)
    ensures Times(10.0 * x, y) == 10.0 * Times(x, y)
  {
  }

  lemma Regroup(x: real, y: real, z: real)
    ensures Times(x, Times(y, z)) == Times(Times(x, y), z)
  {
  }

  lemma {:induction false} DigitsScaled(whole: seq<digit>, fraction: seq<digit>, e: int)
    ensures Times(Fraction10(whole + fraction), Pow10(|whole| + e)) ==
      Times(NatOf(whole + fraction) as real, Pow10(e - |fraction|))
  {
    var all := whole + fraction;
    WholeValue(all);
    assert all + [] == all;
    assert |whole| + e == |all| + (e - |fraction|);
    PowSum(|all|, e - |fraction|);
    Regroup(Fraction10(all), Pow10(|all|), Pow10(e - |fraction|));
  }

  lemma {:induction false} NormalDenotes(negative: bool, whole: seq<digit>, fraction: seq<digit>, e: int)
    ensures ValueOf(Normal(negative, whole, fraction, e)) == AmountOf(negative, whole, fraction, e)
  {
    NormalKeepsValue(negative, whole, fraction, e);
    DigitsScaled(whole, fraction, e);
    ZeroHasNoMagnitude();
  }

  lemma {:induction false} PartsParse(text: string, value: string, s: string, whole: string, places: string, e: int)
    requires Trim(text) == value && value != "" && AfterSign(value) == s
    requires WholeText(s) == whole && FractionText(s) == places && Exponent(Tail(s)) == Success((e, ""))
    ensures ParseDecimal(text) == Success(Normal(Negative(value), Values(whole), Values(places), e))
  {
  }

  // The canonical number of a notation.
  function NumberOf(n: Notation): Decimal
    requires Formed(n)
  {
    Normal(n.sign == "-", Values(n.whole), Values(Places(n.fraction)), PowerOf(n.power))
  }

  lemma {:induction false} NumberDenotes(n: Notation)
    requires Formed(n)
    ensures ValueOf(NumberOf(n)) == Amount(n)
  {
    NormalDenotes(n.sign == "-", Values(n.whole), Values(Places(n.fraction)), PowerOf(n.power));
  }

  lemma {:induction false} WrittenParses(text: string, n: Notation)
    requires Formed(n) && Written(n) != "" && Trim(text) == Written(n)
    ensures ParseDecimal(text) == Success(NumberOf(n))
  {
    UnsignedIsRead(n);
    SignComesOff(n.sign, Unsigned(n));
    PowerIsRead(n.power);
    PartsParse(text, Written(n), Unsigned(n), n.whole, Places(n.fraction), PowerOf(n.power));
  }

  // A notation with white space around it.
  predicate IsWritten(text: string, front: string, n: Notation, back: string) {
    Blank(front) && Blank(back) && Formed(n) && Written(n) != "" && text == front + Written(n) + back
  }

  // Whatever is written in the notation is accepted as the number it stands for.
  lemma {:induction false} NotationIsRead(text: string, front: string, n: Notation, back: string)
    requires IsWritten(text, front, n, back)
    ensures ParseDecimal(text) == Success(NumberOf(n)) && Canonical(NumberOf(n)) && ValueOf(NumberOf(n)) == Amount(n)
  {
    WrittenStartsBare(n);
    WrittenEndsBare(n);
    BlanksComeOff(front, Written(n), back);
    WrittenParses(text, n);
    NumberDenotes(n);
  }

  // ---- Nothing else is accepted -----------------------------------------------------------

  lemma {:induction false} ReadSign(value: string) returns (sign: string)
    ensures IsSign(sign) && value == sign + AfterSign(value)
  {
    if value != "" && (value[0] == '-' || value[0] == '+') {
      sign := [value[0]];
      assert value == [value[0]] + value[1..];
    } else {
      sign := "";
      assert value == "" + value;
    }
  }

  lemma {:induction false} PowerIsFormed(s: string, sign: string, t: string)
    requires Exponent(s).Success? && Exponent(s).value.1 == "" && s != "" && IsSign(sign) && t == AfterSign(s[1..])
    ensures FormedPower(Some(Power(s[0], sign, t)))
  {
    assert t[DigitRun(t)..] == "";
    assert t[..DigitRun(t)] == t;
  }

  lemma {:induction false} PowerIsWhole(s: string, sign: string, t: string)
    requires s != "" && s[1..] == sign + t
    ensures PowerText(Some(Power(s[0], sign, t))) == s
  {
    assert s == [s[0]] + s[1..];
  }

  lemma {:induction false} ReadPower(s: string) returns (p: Option<Power>)
    requires Exponent(s).Success? && Exponent(s).value.1 == ""
    ensures FormedPower(p) && s == PowerText(p)
  {
    if s == "" {
      p := None;
    } else {
      var sign := ReadSign(s[1..]);
      var t := AfterSign(s[1..]);
      PowerIsFormed(s, sign, t);
      PowerIsWhole(s, sign, t);
      p := Some(Power(s[0], sign, t));
    }
  }

  lemma {:induction false} ReadFraction(s: string) returns (f: Option<string>)
    ensures (f.Some? ==> AllDigits(f.value)) && s == FractionalText(f) + Fraction(s).1
  {
    if s != "" && s[0] == '.' {
      f := Some(s[1..][..DigitRun(s[1..])]);
      assert s == "." + s[1..];
    } else {
      f := None;
      assert s == "" + s;
    }
  }

  lemma WholeComesFirst(s: string)
    ensures s == WholeText(s) + s[DigitRun(s)..]
  {
  }

  lemma {:induction false} UnsignedParts(s: string, whole: string, rest: string, after: string, fraction: Option<string>,
    power: Option<Power>)
    requires s == whole + rest && rest == FractionalText(fraction) + after && after == PowerText(power)
    ensures s == Unsigned(Notation("", whole, fraction, power))
  {
  }

  lemma {:induction false} ReadUnsigned(s: string) returns (n: Notation)
    requires Exponent(Tail(s)).Success? && Exponent(Tail(s)).value.1 == ""
    ensures Formed(n) && n.sign == "" && s == Unsigned(n)
  {
    var rest := s[DigitRun(s)..];
    var fraction := ReadFraction(rest);
    var power := ReadPower(Tail(s));
    WholeComesFirst(s);
    UnsignedParts(s, WholeText(s), rest, Tail(s), fraction, power);
    n := Notation("", WholeText(s), fraction, power);
  }

  // Only what is written in the notation is accepted.
  lemma {:induction false} AcceptedIsWritten(text: string) returns (front: string, n: Notation, back: string)
    requires ParseDecimal(text).Success?
    ensures IsWritten(text, front, n, back)
  {
    front, back := Blanks(text);
    var sign := ReadSign(Trim(text));
    n := ReadUnsigned(AfterSign(Trim(text)));
    n := n.(sign := sign);
  }

  // So a text is accepted if and only if it is in the notation, and is empty
  // if and only if it is blank.
  lemma {:induction false} AcceptsTheNotation(text: string)
    ensures ParseDecimal(text).Success? <==> exists front, n, back :: IsWritten(text, front, n, back)
    ensures ParseDecimal(text) == Failure(EmptyNumber) <==> Blank(text)
  {
    if ParseDecimal(text).Success? {
      var front, n, back := AcceptedIsWritten(text);
    }
    if front, n, back :| IsWritten(text, front, n, back) {
      NotationIsRead(text, front, n, back);
    }
    if Blank(text) {
      FrontComesOff(text, "");
      assert text + "" == text;
    } else if Trim(text) == "" {
      var front, back := Blanks(text);
    }
  }

  lemma {:induction false} ExponentIsBad(power: string, sign: string, digits: string, rest: string)
    requires power != "" && AtPower(power) && power[1..] == sign + (digits + rest) && IsSign(sign) && AllDigits(digits)
    requires rest != "" ==> !IsDigit(rest[0]) && rest[0] != '+' && rest[0] != '-'
    requires digits == "" || NatOf(Values(digits)) >= 0x8000_0000
    ensures Exponent(power) == Failure(InvalidExponent)
  {
    if digits != "" {
      assert (digits + rest)[0] == digits[0] && IsDigit(digits[0]);
    } else {
      assert digits + rest == rest;
    }
    SignComesOff(sign, digits + rest);
    DigitRunAt(digits, rest);
  }

  lemma {:induction false} SplitFails(text: string, s: string)
    requires Trim(text) == text != "" && AfterSign(text) == s && Exponent(Tail(s)) == Failure(InvalidExponent)
    ensures ParseDecimal(text) == Failure(InvalidExponent)
  {
  }

  // A power without digits, or beyond 31 bits, is an error of its own,
  // whatever follows it.
  lemma {:induction false} PowersAreBounded(text: string, n: Notation, power: string, sign: string, digits: string, rest: string)
    requires Formed(n) && Trim(text) == text == n.sign + (n.whole + (FractionalText(n.fraction) + power))
    requires power != "" && AtPower(power) && power[1..] == sign + (digits + rest) && IsSign(sign) && AllDigits(digits)
    requires rest != "" ==> !IsDigit(rest[0]) && rest[0] != '+' && rest[0] != '-'
    requires digits == "" || NatOf(Values(digits)) >= 0x8000_0000
    ensures ParseDecimal(text) == Failure(InvalidExponent)
  {
    var tail := FractionalText(n.fraction) + power;
    FractionIsRead(n.fraction, power);
    WholeIsRead(n.whole, tail);
    SignComesOff(n.sign, n.whole + tail);
    ExponentIsBad(power, sign, digits, rest);
    SplitFails(text, n.whole + tail);
  }

  // Text that can continue no number: no digit, no point, no power, no sign.
  predicate Foreign(rest: string) {
    rest != "" && !IsDigit(rest[0]) && rest[0] !in ".eE+-"
  }

  lemma ForeignStarts(rest: string)
    requires Foreign(rest)
    ensures rest[0] != '.' && rest[0] != 'e' && rest[0] != 'E' && rest[0] != '+' && rest[0] != '-'
  {
    assert ".eE+-"[0] == '.' && ".eE+-"[1] == 'e' && ".eE+-"[2] == 'E' && ".eE+-"[3] == '+' && ".eE+-"[4] == '-';
  }

  lemma {:induction false} PowerDigits(s: string, sign: string, digits: string, rest: string)
    requires s != "" && AtPower(s) && s[1..] == sign + (digits + rest) && IsSign(sign)
    requires digits != "" && AllDigits(digits) && NatOf(Values(digits)) < 0x8000_0000
    requires rest != "" && !IsDigit(rest[0])
    ensures Exponent(s) ==
      Success((if sign == "-" then -(NatOf(Values(digits)) as int) else NatOf(Values(digits)) as int, rest))
  {
    assert (digits + rest)[0] == digits[0] && IsDigit(digits[0]);
    SignComesOff(sign, digits + rest);
    DigitRunAt(digits, rest);
  }

  lemma {:induction false} PowerStarts(p: Power, rest: string)
    requires FormedPower(Some(p))
    ensures var s := PowerText(Some(p)) + rest;
      s != "" && s[0] == p.mark && AtPower(s) && s[1..] == p.sign + (p.digits + rest)
  {
    var tail := p.sign + p.digits;
    assert PowerText(Some(p)) == [p.mark] + tail;
    assert ([p.mark] + tail + rest)[1..] == tail + rest;
    assert tail + rest == p.sign + (p.digits + rest);
  }

  lemma {:induction false} NoPower(rest: string)
    requires rest != "" && rest[0] != 'e' && rest[0] != 'E'
    ensures Exponent(rest) == Success((0, rest))
  {
  }

  lemma {:induction false} PowerBeforeForeign(p: Option<Power>, rest: string)
    requires FormedPower(p) && Foreign(rest)
    ensures Exponent(PowerText(p) + rest) == Success((PowerOf(p), rest))
    ensures PowerText(p) + rest != "" && ((PowerText(p) + rest)[0] == if p.Some? then p.value.mark else rest[0])
  {
    ForeignStarts(rest);
    match p
    case Some(power) =>
      PowerStarts(power, rest);
      PowerDigits(PowerText(p) + rest, power.sign, power.digits, rest);
    case None =>
      assert PowerText(p) + rest == rest;
      NoPower(rest);
  }

  lemma {:induction false} FractionBeforeTail(f: Option<string>, tail: string)
    requires (f.Some? ==> AllDigits(f.value)) && tail != "" && !IsDigit(tail[0]) && tail[0] != '.'
    ensures Fraction(FractionalText(f) + tail).1 == tail
    ensures FractionalText(f) + tail != "" && ((FractionalText(f) + tail)[0] == if f.Some? then '.' else tail[0])
  {
    if f.Some? {
      var s := FractionalText(f) + tail;
      assert s[0] == '.' && s[1..] == f.value + tail;
      DigitRunAt(f.value, tail);
    } else {
      assert "" + tail == tail;
    }
  }

  lemma {:induction false} RestIsInvalid(text: string, s: string, e: int, rest: string)
    requires Trim(text) == text != "" && AfterSign(text) == s && Exponent(Tail(s)) == Success((e, rest)) && rest != ""
    ensures ParseDecimal(text) == Failure(InvalidNumber)
  {
  }

  // A number followed by anything else is invalid.
  lemma {:induction false} NothingMayFollow(text: string, n: Notation, rest: string)
    requires Formed(n) && Foreign(rest)
    requires Trim(text) == text == n.sign + (n.whole + (FractionalText(n.fraction) + (PowerText(n.power) + rest)))
    ensures ParseDecimal(text) == Failure(InvalidNumber)
  {
    var power := PowerText(n.power) + rest;
    var tail := FractionalText(n.fraction) + power;
    ForeignStarts(rest);
    PowerBeforeForeign(n.power, rest);
    FractionBeforeTail(n.fraction, power);
    DigitRunAt(n.whole, tail);
    if n.whole != "" {
      assert (n.whole + tail)[0] == n.whole[0] && IsDigit(n.whole[0]);
    } else {
      assert n.whole + tail == tail;
    }
    SignComesOff(n.sign, n.whole + tail);
    RestIsInvalid(text, n.whole + tail, PowerOf(n.power), rest);
  }
}
