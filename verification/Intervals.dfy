/** Oracle INTERVAL encodings of a PostgreSQL interval. */
module Intervals {
  import opened Machine

  datatype PgInterval = PgInterval(months: int, days: int, micros: int)

  predicate InRange(i: PgInterval) {
    && -0x8000_0000 <= i.months < 0x8000_0000
    && -0x8000_0000 <= i.days < 0x8000_0000
    && -0x8000_0000_0000_0000 <= i.micros < 0x8000_0000_0000_0000
  }

  const WORD_BIAS: int := 0x8000_0000
  const BYTE_BIAS: int := 60

  // `(v + bias) as u32` and `(v + bias) as u8`.
  function BiasedWord(v: int): (s: seq<byte>)
    ensures |s| == 4
  {
    BigEndian((v + WORD_BIAS) % 0x1_0000_0000, 4)
  }

  function BiasedByte(v: int): byte {
    (v + BYTE_BIAS) % 256
  }

  function Word(s: seq<byte>): int
    requires |s| == 4
  {
    FromBigEndian(s) - 0x8000_0000
  }

  lemma WordInvertsBias(v: int)
    ensures Word(BiasedWord(v)) == WrapI32(v)
  {
    Powers256();
    BigEndianInverts((v + WORD_BIAS) % 0x1_0000_0000, 4);
  }

  // What a client makes of the eleven bytes: the fields' biases removed.
  datatype DayToSecond = DayToSecond(days: int, hours: int, minutes: int, seconds: int, nanos: int)

  function ReadDayToSecond(b: seq<byte>): DayToSecond
    requires |b| == 11
  {
    DayToSecond(Word(b[..4]), b[4] as int - 60, b[5] as int - 60, b[6] as int - 60, Word(b[7..11]))
  }

  function Recombined(d: DayToSecond): int {
    (((d.days * 24 + d.hours) * 60 + d.minutes) * 60 + d.seconds) * 1_000_000_000 + d.nanos
  }

  function ReadYearToMonth(b: seq<byte>): int
    requires |b| == 5
  {
    Word(b[..4]) * 12 + (b[4] as int - 60)
  }

  // The interval in nanoseconds, a month counted as thirty days.
  function Duration(i: PgInterval): int {
    (i.days + i.months * 30) * 86_400_000_000_000 + i.micros * 1000
  }

  // Whole days once the sub-day part is carried out of them.
  function CarriedDays(i: PgInterval): int {
    i.days + i.months * 30 + TruncDiv(i.micros, 86_400_000_000)
  }

  // All components of the sub-day part lean the way the interval's own does,
  // and each fits its field: nothing but the day count can be cut off.
  predicate FieldsFit(d: DayToSecond, micros: int) {
    && -24 < d.hours < 24 && -60 < d.minutes < 60 && -60 < d.seconds < 60
    && -1_000_000_000 < d.nanos < 1_000_000_000
    && (micros >= 0 ==> d.hours >= 0 && d.minutes >= 0 && d.seconds >= 0 && d.nanos >= 0)
    && (micros <= 0 ==> d.hours <= 0 && d.minutes <= 0 && d.seconds <= 0 && d.nanos <= 0)
  }

  // The fields before they are biased, the carried days in full.
  function Parts(i: PgInterval): DayToSecond {
    var allSecs := TruncDiv(i.micros, 1_000_000);
    var secs := TruncMod(allSecs, 86_400);
    DayToSecond(
      i.days + i.months * 30 + TruncDiv(allSecs, 86_400),
      TruncDiv(secs, 3600), TruncDiv(TruncMod(secs, 3600), 60), TruncMod(secs, 60),
      TruncMod(i.micros, 1_000_000) * 1000)
  }

  lemma PartsConserve(i: PgInterval)
    requires InRange(i)
    ensures FieldsFit(Parts(i), i.micros)
    ensures Recombined(Parts(i)) == Duration(i)
    ensures Parts(i).days == CarriedDays(i)
  {
    CarryInTwoSteps(i.micros);
    SplitSeconds(TruncMod(TruncDiv(i.micros, 1_000_000), 86_400));
  }

  function Assembled(d: DayToSecond): (out: seq<byte>)
    ensures |out| == 11
  {
    BiasedWord(d.days) + [BiasedByte(d.hours), BiasedByte(d.minutes), BiasedByte(d.seconds)] + BiasedWord(d.nanos)
  }

  lemma AssembledReadsBack(d: DayToSecond, micros: int)
    requires FieldsFit(d, micros)
    ensures ReadDayToSecond(Assembled(d)) == d.(days := WrapI32(d.days))
  {
    var out := Assembled(d);
    assert out[..4] == BiasedWord(d.days) && out[7..11] == BiasedWord(d.nanos);
    WordInvertsBias(d.days);
    WordInvertsBias(d.nanos);
  }

  lemma CutDays(d: DayToSecond, days: int)
    ensures Recombined(d.(days := days)) == Recombined(d) + (days - d.days) * 86_400_000_000_000
  {
  }

  // Conserves the duration exactly when the carried day count fits 32 bits.
  method EncodeDayToSecond(i: PgInterval) returns (out: seq<byte>)
    requires InRange(i)
    ensures |out| == 11
    ensures FieldsFit(ReadDayToSecond(out), i.micros)
    ensures ReadDayToSecond(out).days == WrapI32(CarriedDays(i))
    ensures Recombined(ReadDayToSecond(out)) == Duration(i) <==> -0x8000_0000 <= CarriedDays(i) < 0x8000_0000
  {
    var totalDays := i.days + i.months * 30;
    var secs := TruncDiv(i.micros, 1_000_000);
    var nanos := TruncMod(i.micros, 1_000_000) * 1000;
    var days := totalDays + TruncDiv(secs, 86_400);
    secs := TruncMod(secs, 86_400);
    var hours := TruncDiv(secs, 3600);
    var minutes := TruncDiv(TruncMod(secs, 3600), 60);
    var seconds := TruncMod(secs, 60);
    out := BiasedWord(days);
    out := out + [BiasedByte(hours)];
    out := out + [BiasedByte(minutes)];
    out := out + [BiasedByte(seconds)];
    out := out + BiasedWord(nanos);
    ghost var d := DayToSecond(days, hours, minutes, seconds, nanos);
    assert out == Assembled(d) && d == Parts(i);
    PartsConserve(i);
    AssembledReadsBack(d, i.micros);
    CutDays(d, WrapI32(days));
  }

  lemma CarryInTwoSteps(micros: int)
    ensures var secs := TruncDiv(micros, 1_000_000);
      && TruncDiv(secs, 86_400) == TruncDiv(micros, 86_400_000_000)
      && micros == (TruncDiv(secs, 86_400) * 86_400 + TruncMod(secs, 86_400)) * 1_000_000 + TruncMod(micros, 1_000_000)
      && -86_400 < TruncMod(secs, 86_400) < 86_400 && -1_000_000 < TruncMod(micros, 1_000_000) < 1_000_000
  {
  }

  lemma SplitForward(n: nat)
    requires n < 86_400
    ensures n == (n / 3600 * 60 + n % 3600 / 60) * 60 + n % 60
    ensures n / 3600 < 24 && n % 3600 / 60 < 60
  {
    var r := n % 3600;
    assert n == n / 3600 * 3600 + r && r == r / 60 * 60 + r % 60;
    assert r % 60 == n % 60;
  }

  lemma SplitSeconds(secs: int)
    requires -86_400 < secs < 86_400
    ensures var h, m, s := TruncDiv(secs, 3600), TruncDiv(TruncMod(secs, 3600), 60), TruncMod(secs, 60);
      && secs == (h * 60 + m) * 60 + s
      && -24 < h < 24 && -60 < m < 60 && -60 < s < 60
      && (secs >= 0 ==> h >= 0 && m >= 0 && s >= 0)
      && (secs <= 0 ==> h <= 0 && m <= 0 && s <= 0)
  {
    SplitForward(if secs < 0 then -secs else secs);
  }

  // The five-byte form recombines to the interval's months, whatever they are.
  method EncodeYearToMonth(i: PgInterval) returns (out: seq<byte>)
    requires InRange(i)
    ensures |out| == 5
    ensures ReadYearToMonth(out) == i.months
    ensures -12 < out[4] as int - 60 < 12 && (i.months > 0 ==> out[4] >= 60) && (i.months < 0 ==> out[4] <= 60)
  {
    var years := TruncDiv(i.months, 12);
    var remMonths := TruncMod(i.months, 12);
    out := BiasedWord(years);
    out := out + [BiasedByte(remMonths)];
    assert out[..4] == BiasedWord(years);
    WordInvertsBias(years);
  }
}
