/** The values MariaDB is given, and the plain time in a timestamp literal. */
module MariaDbValues {
  import opened Characters
  import opened Machine
  import opened BindSyntax
  import opened BindRewriting

  datatype MariaDbValue = NullValue | Chars(text: string) | Octets(bytes: seq<byte>) | Whole(n: int) | Double(text: string)

  // ---- The conversion -------------------------------------------------------------

  predicate EachFinite(values: seq<BindValue>) {
    forall k | 0 <= k < |values| :: Finite(values[k])
  }

  function ValueOf(value: BindValue): MariaDbValue
    requires Finite(value)
  {
    match value
    case Null => NullValue
    case String(text) => Chars(text)
    case Number(text) => Chars(text)
    case Bytes(bytes) => Octets(bytes)
    case Temporal(text) => Chars(PlainTime(text))
    case Boolean(flag) => Whole(if flag then 1 else 0)
    case BinaryDouble(text, _) => Double(text)
  }

  function Converted(values: seq<BindValue>): (r: seq<MariaDbValue>)
    requires EachFinite(values)
    ensures |r| == |values|
  {
    seq(|values|, k requires 0 <= k < |values| => ValueOf(values[k]))
  }

  lemma ConvertedOneMore(values: seq<BindValue>, value: BindValue)
    requires EachFinite(values) && Finite(value)
    ensures EachFinite(values + [value]) && Converted(values + [value]) == Converted(values) + [ValueOf(value)]
  {
  }

  // ---- Timestamp literals ------------------------------------------------------------

  // Without the keyword, one of four spellings, and trimmed if there was one.
  function WithoutKeyword(t: string): string {
    if "TIMESTAMPTZ " <= t then Trim(t[12..])
    else if "TIMESTAMP " <= t then Trim(t[10..])
    else if "DATE " <= t then Trim(t[5..])
    else if "TIMESTAMP'" <= t then Trim(t[10..])
    else t
  }

  function WithoutQuotesInFront(s: string): string {
    if s != "" && s[0] == '\'' then WithoutQuotesInFront(s[1..]) else s
  }

  function WithoutQuotesBehind(s: string): string {
    if s != "" && s[|s| - 1] == '\'' then WithoutQuotesBehind(s[..|s| - 1]) else s
  }

  function LastSpace(s: string): (k: int)
    ensures -1 <= k < |s| && (k >= 0 ==> s[k] == ' ') && forall j | k < j < |s| :: s[j] != ' '
  {
    if s == "" then -1
    else if s[|s| - 1] == ' ' then |s| - 1
    else LastSpace(s[..|s| - 1])
  }

  predicate IsOffset(s: string) {
    s != "" && (s[0] == '+' || s[0] == '-') && forall k | 1 <= k < |s| :: IsDigit(s[k]) || s[k] == ':'
  }

  // MariaDB has no times with a zone: a numeric offset at the end is dropped.
  function WithoutOffset(s: string): string {
    var k := LastSpace(s);
    if k >= 0 && IsOffset(s[k + 1..]) then TrimBack(s[..k]) else s
  }

  function PlainTime(literal: string): string {
    WithoutOffset(Trim(WithoutQuotesBehind(WithoutQuotesInFront(WithoutKeyword(Trim(literal))))))
  }

  // A part of a literal as the decoder of Oracle's bytes writes them.
  predicate IsPart(s: string) {
    s != "" && forall c <- s :: c != '\'' && !IsSpace(c)
  }

  lemma {:induction false} QuotesComeOff(body: string)
    requires body != "" && body[0] != '\'' && body[|body| - 1] != '\''
    ensures WithoutQuotesBehind(WithoutQuotesInFront("'" + body + "'")) == body
    ensures WithoutQuotesBehind(WithoutQuotesInFront("" + body + "'")) == body
  {
    var quoted := "'" + body + "'";
    assert quoted[1..] == body + "'" && "" + body + "'" == body + "'";
    assert WithoutQuotesInFront(body + "'") == body + "'";
    assert (body + "'")[..|body|] == body && (body + "'")[|body|] == '\'';
    assert WithoutQuotesBehind(body + "'") == WithoutQuotesBehind(body);
  }

  // The spellings of a literal: with a keyword, or with none.
  predicate IsKeyword(keyword: string) {
    || keyword == "TIMESTAMP " || keyword == "TIMESTAMPTZ " || keyword == "DATE " || keyword == "TIMESTAMP" || keyword == ""
  }

  // Text with neither quotes nor white space at its ends.
  predicate IsBare(body: string) {
    body != "" && body[0] != '\'' && body[|body| - 1] != '\'' && !IsSpace(body[0]) && !IsSpace(body[|body| - 1])
  }

  // Its keyword is told by where the quote or the blank comes.
  lemma {:induction false} KeywordIsTold(keyword: string, quoted: string)
    requires IsKeyword(keyword) && quoted != "" && quoted[0] == '\''
    ensures "TIMESTAMPTZ " <= keyword + quoted <==> keyword == "TIMESTAMPTZ "
    ensures "TIMESTAMP " <= keyword + quoted <==> keyword == "TIMESTAMP "
    ensures "DATE " <= keyword + quoted <==> keyword == "DATE "
    ensures "TIMESTAMP'" <= keyword + quoted <==> keyword == "TIMESTAMP"
  {
    var literal := keyword + quoted;
    assert literal[0] == if keyword == "" then '\'' else keyword[0];
    assert literal[..|keyword|] == keyword && literal[|keyword|] == '\'';
    if keyword == "TIMESTAMP" {
      assert literal[..10] == "TIMESTAMP'";
    } else if keyword == "TIMESTAMPTZ " {
      assert literal[9] == 'T';
    } else if keyword == "TIMESTAMP " {
      assert literal[9] == ' ';
    }
  }

  // The keyword goes, and with no blank before it the opening quote too.
  lemma {:induction false} KeywordComesOff(keyword: string, body: string)
    requires IsKeyword(keyword) && IsBare(body)
    ensures WithoutKeyword(keyword + ("'" + body + "'")) == (if keyword == "TIMESTAMP" then "" else "'") + body + "'"
  {
    var quoted := "'" + body + "'";
    var literal := keyword + quoted;
    KeywordIsTold(keyword, quoted);
    TrimKeeps(quoted);
    TrimKeeps(body + "'");
    assert literal[|keyword|..] == quoted && quoted[1..] == body + "'";
    assert "" + body + "'" == body + "'";
    if keyword == "TIMESTAMP" {
      assert literal[10..] == body + "'";
    }
  }

  lemma {:induction false} LiteralIsTrimmed(keyword: string, quoted: string)
    requires IsKeyword(keyword) && quoted != "" && quoted[0] == '\'' && quoted[|quoted| - 1] == '\''
    ensures Trim(keyword + quoted) == keyword + quoted
  {
    var literal := keyword + quoted;
    assert literal[0] == (if keyword == "" then '\'' else keyword[0]) && literal[|literal| - 1] == '\'';
    TrimKeeps(literal);
  }

  lemma {:induction false} LiteralHolds(keyword: string, body: string)
    requires IsKeyword(keyword) && IsBare(body)
    ensures PlainTime(keyword + ("'" + body + "'")) == WithoutOffset(body)
  {
    LiteralIsTrimmed(keyword, "'" + body + "'");
    KeywordComesOff(keyword, body);
    QuotesComeOff(body);
    TrimKeeps(body);
  }

  lemma {:induction false} SplitsAtLastSpace(head: string, tail: string)
    requires ' ' !in tail
    ensures LastSpace(head + " " + tail) == |head|
    ensures (head + " " + tail)[..|head|] == head && (head + " " + tail)[|head| + 1..] == tail
  {
    var s := head + " " + tail;
    assert s[|head|] == ' ';
    assert forall j | |head| < j < |s| :: s[j] == tail[j - |head| - 1];
  }

  lemma EdgesOfTwo(head: string, tail: string)
    requires head != "" && tail != ""
    ensures var s := head + " " + tail; s[0] == head[0] && s[|s| - 1] == tail[|tail| - 1]
  {
  }

  lemma PartsAreBare(s: string)
    requires IsPart(s)
    ensures s[0] != '\'' && s[|s| - 1] != '\'' && !IsSpace(s[0]) && !IsSpace(s[|s| - 1]) && ' ' !in s
  {
    assert s[0] in s && s[|s| - 1] in s && IsSpace(' ');
  }

  lemma NoOffsetToDrop(date: string, time: string)
    requires IsPart(date) && IsPart(time) && time[0] != '+' && time[0] != '-'
    ensures WithoutOffset(date + " " + time) == date + " " + time
  {
    PartsAreBare(time);
    SplitsAtLastSpace(date, time);
  }

  lemma OffsetIsDropped(plain: string, zone: string)
    requires plain != "" && !IsSpace(plain[|plain| - 1]) && IsPart(zone) && IsOffset(zone)
    ensures WithoutOffset(plain + " " + zone) == plain
  {
    PartsAreBare(zone);
    SplitsAtLastSpace(plain, zone);
  }

  lemma OffsetIsKept(plain: string, zone: string)
    requires IsPart(zone) && !IsOffset(zone)
    ensures WithoutOffset(plain + " " + zone) == plain + " " + zone
  {
    PartsAreBare(zone);
    SplitsAtLastSpace(plain, zone);
  }

  // A zone given in figures: a sign, then digits and colons.
  predicate InFigures(zone: string) {
    zone != "" && zone[0] in "+-" && forall k | 1 <= k < |zone| :: zone[k] in "0123456789:"
  }

  lemma {:induction false} FiguresAreOffset(zone: string)
    requires zone != ""
    ensures IsOffset(zone) <==> InFigures(zone)
  {
    assert "+-"[0] == '+' && "+-"[1] == '-';
    forall k | 1 <= k < |zone| ensures zone[k] in "0123456789:" <==> IsDigit(zone[k]) || zone[k] == ':' {
      FigureIsDigit(zone[k]);
    }
  }

  lemma FigureIsDigit(c: char)
    ensures c in "0123456789:" <==> IsDigit(c) || c == ':'
  {
    if IsDigit(c) {
      assert "0123456789:"[c as int - '0' as int] == c;
    } else if c == ':' {
      assert "0123456789:"[10] == c;
    }
  }

  // Whatever bytes a timestamp bind came from, and however its literal is
  // spelled, MariaDB is given the date and the time as they stand, without
  // keyword or quotes, and without a zone in figures.
  lemma {:induction false} PlainTimeOfBind(keyword: string, date: string, time: string, zone: string)
    requires IsKeyword(keyword) && IsPart(date) && IsPart(time) && IsPart(zone) && time[0] != '+' && time[0] != '-'
    ensures PlainTime(keyword + ("'" + (date + " " + time) + "'")) == date + " " + time
    ensures PlainTime(keyword + ("'" + (date + " " + time + " " + zone) + "'")) ==
      if InFigures(zone) then date + " " + time else date + " " + time + " " + zone
  {
    var plain := date + " " + time;
    PartsAreBare(date);
    PartsAreBare(time);
    PartsAreBare(zone);
    EdgesOfTwo(date, time);
    EdgesOfTwo(plain, zone);
    LiteralHolds(keyword, plain);
    LiteralHolds(keyword, plain + " " + zone);
    NoOffsetToDrop(date, time);
    FiguresAreOffset(zone);
    if IsOffset(zone) {
      OffsetIsDropped(plain, zone);
    } else {
      OffsetIsKept(plain, zone);
    }
  }
}
