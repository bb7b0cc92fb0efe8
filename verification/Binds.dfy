/** Bind values, the lexical structure of a statement, and what its placeholders stand for. */
module BindSyntax {
  import opened Wrappers
  import opened Characters
  import opened Machine

  datatype BindValue =
    | Null
    | String(text: string)
    | Number(text: string)
    | Bytes(bytes: seq<byte>)
    | Temporal(text: string)
    | Boolean(flag: bool)
    | BinaryDouble(text: string, finite: bool)  // the value as Rust displays it

  datatype Error =
    | InvalidPlaceholder(name: string)
    | MissingValue(name: string)
    | NonFinite
    | UnknownParameter(number: nat)

  // ---- Lexemes ------------------------------------------------------------

  datatype Lexeme = Verbatim(text: string) | Placeholder(name: string)

  predicate IsWord(c: char) {
    'a' <= c <= 'z' || 'A' <= c <= 'Z' || IsDigit(c) || c == '_'
  }

  // Where the literal or quoted identifier that is open at `i` ends: a doubled
  // quote does not close it, and nothing need close it.
  function QuoteEnd(s: string, i: nat, quote: char): (end: nat)
    requires i <= |s|
    ensures i <= end <= |s|
    decreases |s| - i
  {
    if i == |s| then i
    else if s[i] != quote then QuoteEnd(s, i + 1, quote)
    else if i + 1 < |s| && s[i + 1] == quote then QuoteEnd(s, i + 2, quote)
    else i + 1
  }

  // The first line feed, if there is one.
  function LineEnd(s: string, i: nat): (end: nat)
    requires i <= |s|
    ensures i <= end <= |s| && (end < |s| ==> s[end] == '\n')
    ensures forall k | i <= k < end :: s[k] != '\n'
    decreases |s| - i
  {
    if i == |s| || s[i] == '\n' then i else LineEnd(s, i + 1)
  }

  // Behind the first `*/`, if there is one.
  function BlockEnd(s: string, i: nat): (end: nat)
    requires i <= |s|
    ensures i <= end <= |s|
    ensures if exists k :: i <= k && At(s, k, '*', '/') then
        i + 2 <= end && At(s, end - 2, '*', '/') && forall k | i <= k < end - 2 :: !At(s, k, '*', '/')
      else end == |s|
    decreases |s| - i
  {
    if i + 1 >= |s| then |s| else if s[i] == '*' && s[i + 1] == '/' then i + 2 else BlockEnd(s, i + 1)
  }

  function WordEnd(s: string, i: nat): (end: nat)
    requires i <= |s|
    ensures i <= end <= |s| && (end < |s| ==> !IsWord(s[end]))
    ensures forall k | i <= k < end :: IsWord(s[k])
    decreases |s| - i
  {
    if i == |s| || !IsWord(s[i]) then i else WordEnd(s, i + 1)
  }

  predicate At(s: string, i: nat, a: char, b: char) {
    i + 1 < |s| && s[i] == a && s[i + 1] == b
  }

  // The lexeme at `i` and where the next one starts.
  function NextLexeme(s: string, i: nat): (r: (Lexeme, nat))
    requires i < |s|
    ensures i < r.1 <= |s|
    ensures r.0.Verbatim? ==> r.0.text == s[i..r.1]
    ensures r.0.Placeholder? ==> s[i] == ':' && r.0.name == s[i + 1..r.1] && r.1 == WordEnd(s, i + 1) && r.1 > i + 1
  {
    if s[i] == '\'' || s[i] == '"' then
      var end := QuoteEnd(s, i + 1, s[i]);
      (Verbatim(s[i..end]), end)
    else if At(s, i, '-', '-') then
      var end := LineEnd(s, i + 2);
      (Verbatim(s[i..end]), end)
    else if At(s, i, '/', '*') then
      var end := BlockEnd(s, i + 2);
      (Verbatim(s[i..end]), end)
    else if s[i] == ':' && !At(s, i, ':', ':') && WordEnd(s, i + 1) > i + 1 then
      (Placeholder(s[i + 1..WordEnd(s, i + 1)]), WordEnd(s, i + 1))
    else
      (Verbatim(s[i..i + 1]), i + 1)
  }

  // A placeholder is a colon before a word, and nothing else about it matters:
  // the lexer's look at a second colon never decides.
  lemma PlaceholdersAreColonWords(s: string, i: nat)
    requires i < |s|
    ensures NextLexeme(s, i).0.Placeholder? <==> s[i] == ':' && i + 1 < |s| && IsWord(s[i + 1])
  {
    assert s[i] == ':' && i + 1 < |s| && IsWord(s[i + 1]) ==> WordEnd(s, i + 1) >= i + 2;
  }

  // So the second colon of a cast starts one.
  lemma CastNamesAreBound(s: string, i: nat)
    requires i + 2 < |s| && s[i] == ':' && s[i + 1] == ':' && IsWord(s[i + 2])
    ensures NextLexeme(s, i) == (Verbatim(":"), i + 1)
    ensures NextLexeme(s, i + 1) == (Placeholder(s[i + 2..WordEnd(s, i + 2)]), WordEnd(s, i + 2))
  {
    PlaceholdersAreColonWords(s, i);
    PlaceholdersAreColonWords(s, i + 1);
    assert s[i..i + 1] == ":";
  }

  function Lexemes(s: string, i: nat): seq<Lexeme>
    requires i <= |s|
    decreases |s| - i
  {
    if i == |s| then []
    else
      var (lexeme, next) := NextLexeme(s, i);
      [lexeme] + Lexemes(s, next)
  }

  // ---- Which bind a placeholder means ---------------------------------------

  // Named placeholders met so far, and the position the next new one gets.
  datatype Scope = Scope(named: map<string, nat>, next: nat)

  const EMPTY := Scope(map[], 0)

  function Decimal(s: string): nat
    requires AllDigits(s)
  {
    if s == "" then 0 else Decimal(s[..|s| - 1]) * 10 + (s[|s| - 1] as int - '0' as int)
  }

  // `parse::<usize>` of a nonempty run of digits.
  function ParseUsize(s: string): Option<nat>
    requires AllDigits(s)
  {
    if s == "" || Decimal(s) >= 0x1_0000_0000_0000_0000 then None else Some(Decimal(s))
  }

  function Upper(c: char): char {
    if 'a' <= c <= 'z' then (c as int - 32) as char else c
  }

  function UpperCase(s: string): (r: string)
    ensures |r| == |s|
  {
    seq(|s|, i requires 0 <= i < |s| => Upper(s[i]))
  }

  // A numeral names a position; any other word is numbered at first sight.
  function ResolveName(scope: Scope, name: string): (Scope, Option<nat>) {
    if AllDigits(name) then
      match ParseUsize(name)
      case None => (scope, None)
      case Some(n) =>
        if n == 0 then (scope, None)
        else (scope.(next := if scope.next > n then scope.next else n), Some(n - 1))
    else
      var key := UpperCase(name);
      if key in scope.named then (scope, Some(scope.named[key]))
      else (Scope(scope.named[key := scope.next], scope.next + 1), Some(scope.next))
  }

  // A statement with every placeholder resolved to the bind it means.
  datatype Piece = Text(text: string) | Value(index: nat)

  function Resolve(lexemes: seq<Lexeme>, scope: Scope, count: nat): Result<seq<Piece>, Error> {
    if lexemes == [] then Success([])
    else match lexemes[0]
      case Verbatim(text) =>
        var rest :- Resolve(lexemes[1..], scope, count);
        Success([Text(text)] + rest)
      case Placeholder(name) =>
        var (after, index) := ResolveName(scope, name);
        if index.None? then Failure(InvalidPlaceholder(name))
        else if index.value >= count then Failure(MissingValue(name))
        else
          var rest :- Resolve(lexemes[1..], after, count);
          Success([Value(index.value)] + rest)
  }

  function Resolved(sql: string, count: nat): Result<seq<Piece>, Error> {
    Resolve(Lexemes(sql, 0), EMPTY, count)
  }

  predicate Within(pieces: seq<Piece>, count: nat) {
    forall k | 0 <= k < |pieces| && pieces[k].Value? :: pieces[k].index < count
  }

  // The text with the bind at each position written as its token.
  function Fill(pieces: seq<Piece>, tokens: seq<string>): string
    requires Within(pieces, |tokens|)
  {
    if pieces == [] then ""
    else
      var last := pieces[|pieces| - 1];
      Fill(pieces[..|pieces| - 1], tokens) + if last.Text? then last.text else tokens[last.index]
  }

  lemma {:induction false} ResolveStaysWithin(lexemes: seq<Lexeme>, scope: Scope, count: nat)
    ensures var r := Resolve(lexemes, scope, count); r.Success? ==> Within(r.value, count) && |r.value| == |lexemes|
  {
    if lexemes != [] {
      match lexemes[0]
      case Verbatim(text) => ResolveStaysWithin(lexemes[1..], scope, count);
      case Placeholder(name) => ResolveStaysWithin(lexemes[1..], ResolveName(scope, name).0, count);
    }
  }

  // A resolution continued by what is already resolved.
  function Prepend(head: seq<Piece>, r: Result<seq<Piece>, Error>): Result<seq<Piece>, Error> {
    match r
    case Failure(e) => Failure(e)
    case Success(tail) => Success(head + tail)
  }

  lemma ResolveStep(sql: string, i: nat, scope: Scope, count: nat, head: seq<Piece>)
    requires i < |sql|
    ensures var (lexeme, next) := NextLexeme(sql, i);
      var r := Prepend(head, Resolve(Lexemes(sql, i), scope, count));
      match lexeme
      case Verbatim(text) => r == Prepend(head + [Text(text)], Resolve(Lexemes(sql, next), scope, count))
      case Placeholder(name) =>
        var (after, index) := ResolveName(scope, name);
        if index.None? then r == Failure(InvalidPlaceholder(name))
        else if index.value >= count then r == Failure(MissingValue(name))
        else r == Prepend(head + [Value(index.value)], Resolve(Lexemes(sql, next), after, count))
  {
    var (lexeme, next) := NextLexeme(sql, i);
    var rest := Lexemes(sql, next);
    assert ([lexeme] + rest)[1..] == rest;
    match lexeme
    case Verbatim(text) =>
      PrependStep(head, Text(text), Resolve(rest, scope, count));
    case Placeholder(name) =>
      var (after, index) := ResolveName(scope, name);
      if index.Some? && index.value < count {
        PrependStep(head, Value(index.value), Resolve(rest, after, count));
      }
  }

  lemma PrependStep(head: seq<Piece>, p: Piece, r: Result<seq<Piece>, Error>)
    ensures Prepend(head, Prepend([p], r)) == Prepend(head + [p], r)
  {
    if r.Success? {
      assert head + ([p] + r.value) == head + [p] + r.value;
    }
  }

  lemma FillOneMore(pieces: seq<Piece>, p: Piece, tokens: seq<string>)
    requires Within(pieces, |tokens|) && (p.Value? ==> p.index < |tokens|)
    ensures Within(pieces + [p], |tokens|)
    ensures Fill(pieces + [p], tokens) == Fill(pieces, tokens) + if p.Text? then p.text else tokens[p.index]
  {
    assert (pieces + [p])[..|pieces|] == pieces;
  }
}

/** The two statement rewriters of the wire layer: real parameters, and interpolation. */
module BindRewriting {
  import opened Wrappers
  import opened Characters
  import opened Machine
  import opened BindSyntax

  datatype BindStyle = Postgres | MariaDb

  datatype BoundSql = BoundSql(sql: string, binds: seq<BindValue>)

  // ---- Tokens ---------------------------------------------------------------

  function NatText(n: nat): (s: string)
    ensures s != "" && AllDigits(s)
  {
    var last := ['0' + (n % 10) as char];
    if n < 10 then last else NatText(n / 10) + last
  }

  lemma {:induction false} NatTextReadsBack(n: nat)
    ensures Decimal(NatText(n)) == n
  {
    var t := NatText(n);
    if n >= 10 {
      NatTextReadsBack(n / 10);
      assert t[..|t| - 1] == NatText(n / 10);
    } else {
      assert t[..0] == "";
    }
  }

  predicate IsPrefix(p: string, s: string) {
    p <= s
  }

  // The PostgreSQL casts that give a text parameter its type.
  function CastChain(value: BindValue): string {
    match value
    case Null => "::text"
    case String(_) => "::text"
    case Number(_) => "::text::numeric"
    case Bytes(_) => "::bytea"
    case Temporal(text) =>
      if IsPrefix("TIMESTAMPTZ '", text) then "::text::timestamptz" else "::text::timestamp"
    case Boolean(_) => "::boolean"
    case BinaryDouble(_, _) => "::text::double precision"
  }

  // A timestamp literal is cast to the type its keyword names.
  lemma TimestampsKeepTheirType(body: string)
    ensures CastChain(Temporal("TIMESTAMP '" + body)) == "::text::timestamp"
    ensures CastChain(Temporal("TIMESTAMPTZ '" + body)) == "::text::timestamptz"
  {
    assert ("TIMESTAMP '" + body)[9] == ' ';
    assert ("TIMESTAMPTZ '" + body)[..13] == "TIMESTAMPTZ '";
  }

  function PostgresToken(number: nat, value: BindValue): string {
    "$" + NatText(number) + CastChain(value)
  }

  function MariaDbToken(value: BindValue): string {
    match value
    case Bytes(_) => "CAST(? AS BINARY)"
    case Null => "CAST(? AS CHAR(4000))"
    case String(_) => "CAST(? AS CHAR(4000))"
    case _ => "?"
  }

  function DoubleQuotes(s: string): string {
    if s == "" then "" else (if s[0] == '\'' then "''" else [s[0]]) + DoubleQuotes(s[1..])
  }

  function HexDigit(n: nat): char
    requires n < 16
  {
    if n < 10 then '0' + n as char else 'a' + (n - 10) as char
  }

  function Hex(bytes: seq<byte>): string {
    if bytes == [] then "" else [HexDigit(bytes[0] / 16), HexDigit(bytes[0] % 16)] + Hex(bytes[1..])
  }

  function Finite(value: BindValue): bool {
    !value.BinaryDouble? || value.finite
  }

  function Literal(value: BindValue): Result<string, Error> {
    match value
    case Null => Success("NULL")
    case String(text) => Success("'" + DoubleQuotes(text) + "'")
    case Number(text) => Success(text)
    case Bytes(bytes) => Success("decode('" + Hex(bytes) + "', 'hex')")
    case Temporal(text) => Success(text)
    case Boolean(flag) => Success(if flag then "TRUE" else "FALSE")
    case BinaryDouble(text, finite) => if finite then Success(text) else Failure(NonFinite)
  }

  // ---- PL/SQL definitions pass through untouched -----------------------------

  function FirstWord(s: string): (n: nat)
    ensures n <= |s|
  {
    if s == "" || IsSpace(s[0]) then 0 else 1 + FirstWord(s[1..])
  }

  // The first `n` words, in upper case.
  function UpperWords(s: string, n: nat): seq<string>
    decreases n
  {
    var t := TrimStart(s);
    if n == 0 || t == "" then []
    else [UpperCase(t[..FirstWord(t)])] + UpperWords(t[FirstWord(t)..], n - 1)
  }

  function SkipModifiers(words: seq<string>): seq<string> {
    if words != [] && words[0] in ["OR", "REPLACE", "EDITIONABLE", "NONEDITIONABLE"]
    then SkipModifiers(words[1..]) else words
  }

  predicate IsPlsqlDefinition(sql: string) {
    var words := UpperWords(sql, 5);
    words != [] &&
    if words[0] == "CREATE" then
      var kind := SkipModifiers(words[1..]);
      kind != [] && kind[0] in ["TRIGGER", "FUNCTION", "PROCEDURE", "PACKAGE"]
    else words[0] == "BEGIN" || words[0] == "DECLARE"
  }

  // ---- Occurrences and parameter numbers ---------------------------------------

  // The bind of each placeholder, in order of appearance.
  function Occurrences(pieces: seq<Piece>): seq<nat> {
    if pieces == [] then []
    else
      var last := pieces[|pieces| - 1];
      Occurrences(pieces[..|pieces| - 1]) + if last.Value? then [last.index] else []
  }

  // The same without repetitions, in order of first use.
  function FirstUses(uses: seq<nat>): (order: seq<nat>)
    ensures forall i | 0 <= i < |order| :: order[i] in uses
    ensures forall x <- uses :: x in order
    ensures forall i, j | 0 <= i < j < |order| :: order[i] != order[j]
  {
    if uses == [] then []
    else
      var last, before := uses[|uses| - 1], FirstUses(uses[..|uses| - 1]);
      if last in before then before else before + [last]
  }

  function IndexOf(order: seq<nat>, x: nat): (k: nat)
    requires x in order
    ensures k < |order| && order[k] == x
  {
    if order[0] == x then 0 else 1 + IndexOf(order[1..], x)
  }

  // The parameter number of a bind: its place, from one, in first-use order.
  function NumberOf(order: seq<nat>, index: nat): nat {
    if index in order then IndexOf(order, index) + 1 else 0
  }

  // The binds at the given positions; a position past the end reads as NULL.
  function Select(binds: seq<BindValue>, indices: seq<nat>): (r: seq<BindValue>)
    ensures |r| == |indices|
  {
    seq(|indices|, k requires 0 <= k < |indices| => if indices[k] < |binds| then binds[indices[k]] else Null)
  }

  function PostgresTokens(order: seq<nat>, binds: seq<BindValue>): (tokens: seq<string>)
    ensures |tokens| == |binds|
  {
    seq(|binds|, i requires 0 <= i < |binds| => PostgresToken(NumberOf(order, i), binds[i]))
  }

  function MariaDbTokens(binds: seq<BindValue>): (tokens: seq<string>)
    ensures |tokens| == |binds|
  {
    seq(|binds|, i requires 0 <= i < |binds| => MariaDbToken(binds[i]))
  }

  function LiteralTokens(binds: seq<BindValue>): (tokens: seq<string>)
    ensures |tokens| == |binds|
  {
    seq(|binds|, i requires 0 <= i < |binds| => if Literal(binds[i]).Success? then Literal(binds[i]).value else "")
  }

  predicate AllFinite(pieces: seq<Piece>, binds: seq<BindValue>)
    requires Within(pieces, |binds|)
  {
    forall k | 0 <= k < |pieces| && pieces[k].Value? :: Finite(binds[pieces[k].index])
  }

  lemma {:induction false} OccurrencesWithin(pieces: seq<Piece>, count: nat)
    requires Within(pieces, count)
    ensures forall x <- Occurrences(pieces) :: x < count
    ensures forall x <- FirstUses(Occurrences(pieces)) :: x < count
  {
    if pieces != [] {
      OccurrencesWithin(pieces[..|pieces| - 1], count);
    }
    assert forall x <- FirstUses(Occurrences(pieces)) :: x in Occurrences(pieces);
  }

  lemma OneMoreOccurrence(pieces: seq<Piece>, p: Piece)
    ensures Occurrences(pieces + [p]) == Occurrences(pieces) + if p.Value? then [p.index] else []
    ensures p.Value? ==> var order := FirstUses(Occurrences(pieces));
      FirstUses(Occurrences(pieces + [p])) == if p.index in order then order else order + [p.index]
    ensures p.Text? ==> Occurrences(pieces + [p]) == Occurrences(pieces)
  {
    assert (pieces + [p])[..|pieces|] == pieces;
    if p.Value? {
      var uses := Occurrences(pieces);
      assert (uses + [p.index])[..|uses|] == uses;
    }
  }

  // What the rewriters answer, in terms of the resolved statement.
  ghost predicate BindsTo(pieces: seq<Piece>, binds: seq<BindValue>, style: BindStyle, bound: BoundSql)
    requires Within(pieces, |binds|)
  {
    var uses := Occurrences(pieces);
    match style
    case MariaDb =>
      bound == BoundSql(Fill(pieces, MariaDbTokens(binds)), Select(binds, uses))
    case Postgres =>
      bound == BoundSql(Fill(pieces, PostgresTokens(FirstUses(uses), binds)), Select(binds, FirstUses(uses)))
  }

  // ---- The rewriters ------------------------------------------------------------

  method ScanQuoted(sql: string, start: nat) returns (end: nat)
    requires start < |sql|
    ensures end == QuoteEnd(sql, start + 1, sql[start])
  {
    var quote := sql[start];
    end := start + 1;
    while end < |sql|
      invariant start < end <= |sql|
      invariant QuoteEnd(sql, start + 1, quote) == QuoteEnd(sql, end, quote)
    {
      if sql[end] == quote {
        if end + 1 < |sql| && sql[end + 1] == quote {
          end := end + 2;
        } else {
          end := end + 1;
          return;
        }
      } else {
        end := end + 1;
      }
    }
  }

  method ScanWord(sql: string, start: nat) returns (end: nat)
    requires start <= |sql|
    ensures end == WordEnd(sql, start)
  {
    end := start;
    while end < |sql| && IsWord(sql[end])
      invariant start <= end <= |sql| && WordEnd(sql, start) == WordEnd(sql, end)
    {
      end := end + 1;
    }
  }

  method ScanLexeme(sql: string, i: nat) returns (lexeme: Lexeme, next: nat)
    requires i < |sql|
    ensures (lexeme, next) == NextLexeme(sql, i)
  {
    if sql[i] == '\'' || sql[i] == '"' {
      next := ScanQuoted(sql, i);
      return Verbatim(sql[i..next]), next;
    }
    if At(sql, i, '-', '-') {
      next := LineEnd(sql, i + 2);
      return Verbatim(sql[i..next]), next;
    }
    if At(sql, i, '/', '*') {
      next := BlockEnd(sql, i + 2);
      return Verbatim(sql[i..next]), next;
    }
    if sql[i] == ':' && !At(sql, i, ':', ':') {
      next := ScanWord(sql, i + 1);
      if next > i + 1 {
        return Placeholder(sql[i + 1..next]), next;
      }
    }
    return Verbatim(sql[i..i + 1]), i + 1;
  }

  lemma {:induction false} FillDependsOnUses(pieces: seq<Piece>, a: seq<string>, b: seq<string>)
    requires Within(pieces, |a|) && Within(pieces, |b|)
    requires forall x <- Occurrences(pieces) :: x < |a| && x < |b| && a[x] == b[x]
    ensures Fill(pieces, a) == Fill(pieces, b)
  {
    if pieces != [] {
      var init, last := pieces[..|pieces| - 1], pieces[|pieces| - 1];
      assert last.Value? ==> last.index in Occurrences(pieces);
      FillDependsOnUses(init, a, b);
    }
  }

  lemma {:induction false} IndexInLonger(order: seq<nat>, x: nat, y: nat)
    requires x !in order
    ensures IndexOf(order + [x], x) == |order|
    ensures y in order ==> IndexOf(order + [x], y) == IndexOf(order, y)
  {
    if order != [] {
      assert (order + [x])[1..] == order[1..] + [x];
      if y in order[1..] {
        IndexInLonger(order[1..], x, y);
      } else {
        IndexInLonger(order[1..], x, x);
      }
    }
  }

  // A bind used for the first time does not renumber the others.
  lemma NewNumberKeepsText(pieces: seq<Piece>, order: seq<nat>, x: nat, binds: seq<BindValue>)
    requires Within(pieces, |binds|) && x < |binds| && x !in order
    requires order == FirstUses(Occurrences(pieces))
    ensures Fill(pieces, PostgresTokens(order + [x], binds)) == Fill(pieces, PostgresTokens(order, binds))
  {
    OccurrencesWithin(pieces, |binds|);
    var a, b := PostgresTokens(order + [x], binds), PostgresTokens(order, binds);
    forall y | y in Occurrences(pieces) ensures y < |a| && a[y] == b[y] {
      IndexInLonger(order, x, y);
    }
    FillDependsOnUses(pieces, a, b);
  }

  // What the Postgres-style loop knows of the numbers it has given out.
  ghost predicate Numbered(numbers: map<nat, nat>, order: seq<nat>) {
    (forall x :: x in numbers <==> x in order) && forall x <- order :: numbers[x] == NumberOf(order, x)
  }

  lemma {:induction false} NumberOneMore(numbers: map<nat, nat>, order: seq<nat>, x: nat)
    requires Numbered(numbers, order) && x !in order
    ensures Numbered(numbers[x := |order| + 1], order + [x])
  {
    forall y | y in order + [x] ensures numbers[x := |order| + 1][y] == NumberOf(order + [x], y) {
      IndexInLonger(order, x, y);
    }
  }

  lemma SelectOneMore(binds: seq<BindValue>, order: seq<nat>, x: nat)
    requires x < |binds|
    ensures Select(binds, order + [x]) == Select(binds, order) + [binds[x]]
  {
  }

  // The state of the loop against what is resolved so far.
  ghost predicate Rewritten(done: seq<Piece>, binds: seq<BindValue>, style: BindStyle, out: string,
    ordered: seq<BindValue>, numbers: map<nat, nat>)
  {
    && Within(done, |binds|)
    && BindsTo(done, binds, style, BoundSql(out, ordered))
    && (style.Postgres? ==> Numbered(numbers, FirstUses(Occurrences(done))))
  }

  lemma RewriteText(done: seq<Piece>, text: string, binds: seq<BindValue>, style: BindStyle, out: string,
    ordered: seq<BindValue>, numbers: map<nat, nat>)
    requires Rewritten(done, binds, style, out, ordered, numbers)
    ensures Rewritten(done + [Text(text)], binds, style, out + text, ordered, numbers)
  {
    OneMoreOccurrence(done, Text(text));
    FillOneMore(done, Text(text), MariaDbTokens(binds));
    FillOneMore(done, Text(text), PostgresTokens(FirstUses(Occurrences(done)), binds));
  }

  lemma RewriteMariaDb(done: seq<Piece>, index: nat, binds: seq<BindValue>, out: string, ordered: seq<BindValue>,
    numbers: map<nat, nat>)
    requires Rewritten(done, binds, MariaDb, out, ordered, numbers) && index < |binds|
    ensures Rewritten(done + [Value(index)], binds, MariaDb, out + MariaDbToken(binds[index]), ordered + [binds[index]], numbers)
  {
    OneMoreOccurrence(done, Value(index));
    SelectOneMore(binds, Occurrences(done), index);
    FillOneMore(done, Value(index), MariaDbTokens(binds));
  }

  lemma RewriteKnown(done: seq<Piece>, index: nat, binds: seq<BindValue>, out: string, ordered: seq<BindValue>,
    numbers: map<nat, nat>)
    requires Rewritten(done, binds, Postgres, out, ordered, numbers) && index < |binds| && index in numbers
    ensures Rewritten(done + [Value(index)], binds, Postgres,
      out + PostgresToken(numbers[index], binds[index]), ordered, numbers)
  {
    OneMoreOccurrence(done, Value(index));
    FillOneMore(done, Value(index), PostgresTokens(FirstUses(Occurrences(done)), binds));
  }

  lemma RewriteNew(done: seq<Piece>, index: nat, binds: seq<BindValue>, out: string, ordered: seq<BindValue>,
    numbers: map<nat, nat>, number: nat)
    requires Rewritten(done, binds, Postgres, out, ordered, numbers) && index < |binds| && index !in numbers
    requires number == |ordered| + 1
    ensures Rewritten(done + [Value(index)], binds, Postgres,
      out + PostgresToken(number, binds[index]), ordered + [binds[index]], numbers[index := number])
  {
    var order, more := FirstUses(Occurrences(done)), done + [Value(index)];
    assert number == |order| + 1;
    NewOrder(done, order, index);
    SelectOneMore(binds, order, index);
    NumberOneMore(numbers, order, index);
    NewParameterText(done, order, index, binds);
    RewrittenFrom(more, order + [index], binds, out + PostgresToken(number, binds[index]),
      ordered + [binds[index]], numbers[index := number]);
  }

  lemma RewrittenFrom(done: seq<Piece>, order: seq<nat>, binds: seq<BindValue>, out: string, ordered: seq<BindValue>,
    numbers: map<nat, nat>)
    requires Within(done, |binds|) && order == FirstUses(Occurrences(done))
    requires out == Fill(done, PostgresTokens(order, binds)) && ordered == Select(binds, order)
    requires Numbered(numbers, order)
    ensures Rewritten(done, binds, Postgres, out, ordered, numbers)
  {
  }

  lemma NewOrder(done: seq<Piece>, order: seq<nat>, index: nat)
    requires order == FirstUses(Occurrences(done)) && index !in order
    ensures FirstUses(Occurrences(done + [Value(index)])) == order + [index]
  {
    OneMoreOccurrence(done, Value(index));
  }

  lemma {:induction false} NewParameterText(done: seq<Piece>, order: seq<nat>, index: nat, binds: seq<BindValue>)
    requires Within(done, |binds|) && index < |binds| && index !in order
    requires order == FirstUses(Occurrences(done))
    ensures Within(done + [Value(index)], |binds|)
    ensures Fill(done + [Value(index)], PostgresTokens(order + [index], binds)) ==
      Fill(done, PostgresTokens(order, binds)) + PostgresToken(|order| + 1, binds[index])
  {
    NewNumberKeepsText(done, order, index, binds);
    FillOneMore(done, Value(index), PostgresTokens(order + [index], binds));
    IndexInLonger(order, index, index);
  }

  // One placeholder, as each style writes it.
  method RewriteValue(binds: seq<BindValue>, style: BindStyle, index: nat, before: string,
    orderedBefore: seq<BindValue>, numbersBefore: map<nat, nat>, ghost done: seq<Piece>)
    returns (out: string, ordered: seq<BindValue>, numbers: map<nat, nat>)
    requires Rewritten(done, binds, style, before, orderedBefore, numbersBefore) && index < |binds|
    ensures Rewritten(done + [Value(index)], binds, style, out, ordered, numbers)
  {
    out, ordered, numbers := before, orderedBefore, numbersBefore;
    var value := binds[index];
    match style
    case MariaDb =>
      RewriteMariaDb(done, index, binds, out, ordered, numbers);
      ordered := ordered + [value];
      out := out + MariaDbToken(value);
    case Postgres =>
      var parameter;
      if index in numbers {
        RewriteKnown(done, index, binds, out, ordered, numbers);
        parameter := numbers[index];
      } else {
        parameter := |ordered| + 1;
        RewriteNew(done, index, binds, out, ordered, numbers, parameter);
        numbers := numbers[index := parameter];
        ordered := ordered + [value];
      }
      out := out + PostgresToken(parameter, value);
  }

  method BindParameters(sql: string, binds: seq<BindValue>, style: BindStyle) returns (r: Result<BoundSql, Error>)
    ensures IsPlsqlDefinition(sql) ==> r == Success(BoundSql(sql, []))
    ensures !IsPlsqlDefinition(sql) ==>
      match Resolved(sql, |binds|)
      case Failure(e) => r == Failure(e)
      case Success(pieces) => r.Success? && Within(pieces, |binds|) && BindsTo(pieces, binds, style, r.value)
  {
    if IsPlsqlDefinition(sql) {
      return Success(BoundSql(sql, []));
    }
    var scope, out, ordered, numbers := EMPTY, "", [], map[];
    var i := 0;
    ghost var done: seq<Piece> := [];
    PrependNothing(Resolved(sql, |binds|));
    while i < |sql|
      invariant 0 <= i <= |sql|
      invariant Resolved(sql, |binds|) == Prepend(done, Resolve(Lexemes(sql, i), scope, |binds|))
      invariant Rewritten(done, binds, style, out, ordered, numbers)
    {
      ResolveStep(sql, i, scope, |binds|, done);
      var lexeme, next := ScanLexeme(sql, i);
      match lexeme {
        case Verbatim(text) =>
          RewriteText(done, text, binds, style, out, ordered, numbers);
          out := out + text;
          done := done + [Text(text)];
        case Placeholder(name) =>
          var (after, index) := ResolveName(scope, name);
          if index.None? {
            return Failure(InvalidPlaceholder(name));
          }
          if index.value >= |binds| {
            return Failure(MissingValue(name));
          }
          out, ordered, numbers := RewriteValue(binds, style, index.value, out, ordered, numbers, done);
          done := done + [Value(index.value)];
          scope := after;
      }
      i := next;
    }
    PrependNothing(Success(done));
    r := Success(BoundSql(out, ordered));
  }

  lemma PrependNothing(r: Result<seq<Piece>, Error>)
    ensures Prepend([], r) == r
    ensures r.Success? ==> Prepend(r.value, Success([])) == r
  {
    if r.Success? {
      assert [] + r.value == r.value && r.value + [] == r.value;
    }
  }

  // What the simple form answers, in terms of the resolved statement.
  ghost predicate Interpolates(resolved: Result<seq<Piece>, Error>, binds: seq<BindValue>, r: Result<string, Error>) {
    match resolved
    case Failure(e) => r.Failure? && (r.error == e || r.error == NonFinite)
    case Success(pieces) =>
      && Within(pieces, |binds|)
      && if AllFinite(pieces, binds) then r == Success(Fill(pieces, LiteralTokens(binds))) else r == Failure(NonFinite)
  }

  lemma InterpolateText(done: seq<Piece>, text: string, binds: seq<BindValue>)
    requires Within(done, |binds|) && AllFinite(done, binds)
    ensures Within(done + [Text(text)], |binds|) && AllFinite(done + [Text(text)], binds)
    ensures Fill(done + [Text(text)], LiteralTokens(binds)) == Fill(done, LiteralTokens(binds)) + text
  {
    FillOneMore(done, Text(text), LiteralTokens(binds));
  }

  lemma InterpolateValue(done: seq<Piece>, index: nat, binds: seq<BindValue>, rest: Result<seq<Piece>, Error>)
    requires Within(done, |binds|) && AllFinite(done, binds) && index < |binds|
    ensures var more, literal := done + [Value(index)], Literal(binds[index]);
      && Within(more, |binds|)
      && (literal.Success? ==> AllFinite(more, binds) && Fill(more, LiteralTokens(binds)) == Fill(done, LiteralTokens(binds)) + literal.value)
      && (literal.Failure? && (rest.Success? ==> Within(rest.value, |binds|)) ==>
          Interpolates(Prepend(more, rest), binds, Failure(literal.error)))
  {
    var more := done + [Value(index)];
    FillOneMore(done, Value(index), LiteralTokens(binds));
    if Literal(binds[index]).Failure? {
      NonFiniteStays(more, rest, binds);
    }
  }

  // The simple form: every value written into the text. It fails on the same
  // placeholders, and besides only on a float with no literal.
  method SubstituteBindValues(sql: string, binds: seq<BindValue>) returns (r: Result<string, Error>)
    ensures Interpolates(Resolved(sql, |binds|), binds, r)
  {
    var scope, out := EMPTY, "";
    var i := 0;
    ghost var done: seq<Piece> := [];
    PrependNothing(Resolved(sql, |binds|));
    while i < |sql|
      invariant 0 <= i <= |sql|
      invariant Resolved(sql, |binds|) == Prepend(done, Resolve(Lexemes(sql, i), scope, |binds|))
      invariant Within(done, |binds|) && AllFinite(done, binds)
      invariant out == Fill(done, LiteralTokens(binds))
    {
      ResolveStep(sql, i, scope, |binds|, done);
      var lexeme, next := ScanLexeme(sql, i);
      match lexeme {
        case Verbatim(text) =>
          InterpolateText(done, text, binds);
          out := out + text;
          done := done + [Text(text)];
        case Placeholder(name) =>
          var (after, index) := ResolveName(scope, name);
          if index.None? {
            return Failure(InvalidPlaceholder(name));
          }
          if index.value >= |binds| {
            return Failure(MissingValue(name));
          }
          var literal := Literal(binds[index.value]);
          ghost var rest := Resolve(Lexemes(sql, next), after, |binds|);
          ResolveStaysWithin(Lexemes(sql, next), after, |binds|);
          InterpolateValue(done, index.value, binds, rest);
          if literal.Failure? {
            return Failure(literal.error);
          }
          done := done + [Value(index.value)];
          out := out + literal.value;
          scope := after;
      }
      i := next;
    }
    PrependNothing(Success(done));
    r := Success(out);
  }

  lemma NonFiniteStays(done: seq<Piece>, rest: Result<seq<Piece>, Error>, binds: seq<BindValue>)
    requires Within(done, |binds|) && done != [] && done[|done| - 1].Value?
    requires !Finite(binds[done[|done| - 1].index])
    ensures var r := Prepend(done, rest); r.Success? && Within(r.value, |binds|) ==> !AllFinite(r.value, binds)
  {
    var r := Prepend(done, rest);
    if r.Success? {
      assert r.value[|done| - 1] == done[|done| - 1];
    }
  }

  // ---- How the two relate ----------------------------------------------------------

  // For each bind position, the literal of the value its parameter carries.
  function DenotedLiterals(order: seq<nat>, ordered: seq<BindValue>, count: nat): (tokens: seq<string>)
    requires |ordered| == |order|
    ensures |tokens| == count
  {
    seq(count, i requires 0 <= i < count =>
      if i in order && Literal(ordered[IndexOf(order, i)]).Success? then Literal(ordered[IndexOf(order, i)]).value else "")
  }

  lemma NumberIsExact(order: seq<nat>, x: nat)
    requires x in order && forall i, j | 0 <= i < j < |order| :: order[i] != order[j]
    ensures 1 <= NumberOf(order, x) <= |order| && order[NumberOf(order, x) - 1] == x
    ensures forall k | 0 <= k < |order| && order[k] == x :: NumberOf(order, x) == k + 1
  {
    var n := IndexOf(order, x);
    assert forall k | 0 <= k < |order| && k != n :: order[k] != order[n];
  }

  // Numbers are exactly one to the number of parameters, in first-use order,
  // and each bind has its own.
  lemma NumbersAreExact(uses: seq<nat>)
    ensures var order := FirstUses(uses);
      && (forall x <- uses :: 1 <= NumberOf(order, x) <= |order| && order[NumberOf(order, x) - 1] == x)
      && (forall x, y | x in uses && y in uses :: NumberOf(order, x) == NumberOf(order, y) <==> x == y)
      && (forall k | 0 <= k < |order| :: order[k] in uses && NumberOf(order, order[k]) == k + 1)
  {
    var order := FirstUses(uses);
    forall x | x in order
      ensures 1 <= NumberOf(order, x) <= |order| && order[NumberOf(order, x) - 1] == x
      ensures forall k | 0 <= k < |order| && order[k] == x :: NumberOf(order, x) == k + 1
    {
      NumberIsExact(order, x);
    }
  }

  lemma {:induction false} FirstUsesExtend(uses: seq<nat>, more: seq<nat>)
    ensures FirstUses(uses) <= FirstUses(uses + more)
  {
    if more == [] {
      assert uses + more == uses;
    } else {
      var init := more[..|more| - 1];
      FirstUsesExtend(uses, init);
      assert (uses + more)[..|uses + more| - 1] == uses + init;
    }
  }

  // A bind first used at position `p` gets the next number, whatever follows.
  lemma NumbersFollowFirstUse(uses: seq<nat>, p: nat)
    requires p < |uses| && uses[p] !in uses[..p]
    ensures NumberOf(FirstUses(uses), uses[p]) == |FirstUses(uses[..p])| + 1
  {
    var before, order := FirstUses(uses[..p]), FirstUses(uses);
    assert uses[..p + 1][..p] == uses[..p];
    assert uses[p] !in before;
    assert FirstUses(uses[..p + 1]) == before + [uses[p]];
    assert uses[..p + 1] + uses[p + 1..] == uses;
    FirstUsesExtend(uses[..p + 1], uses[p + 1..]);
    assert order[|before|] == uses[p];
    assert order[IndexOf(order, uses[p])] == uses[p];
  }

  // Writing, for each emitted parameter, the literal of the value it carries
  // gives the interpolated statement; both rewriters fill one and the same
  // resolved statement.
  lemma BindingRefinesInterpolation(pieces: seq<Piece>, binds: seq<BindValue>)
    requires Within(pieces, |binds|)
    ensures var order := FirstUses(Occurrences(pieces));
      && (forall x <- order :: x < |binds|)
      && Fill(pieces, DenotedLiterals(order, Select(binds, order), |binds|)) == Fill(pieces, LiteralTokens(binds))
  {
    OccurrencesWithin(pieces, |binds|);
    var order := FirstUses(Occurrences(pieces));
    var ordered := Select(binds, order);
    var denoted := DenotedLiterals(order, ordered, |binds|);
    forall x | x in Occurrences(pieces) ensures denoted[x] == LiteralTokens(binds)[x] {
      assert x in order && ordered[IndexOf(order, x)] == binds[x];
    }
    FillDependsOnUses(pieces, denoted, LiteralTokens(binds));
  }

  function SourceOf(lexemes: seq<Lexeme>): string {
    if lexemes == [] then ""
    else (if lexemes[0].Verbatim? then lexemes[0].text else ":" + lexemes[0].name) + SourceOf(lexemes[1..])
  }

  lemma LexemeIsSource(sql: string, i: nat)
    requires i < |sql|
    ensures var (lexeme, next) := NextLexeme(sql, i);
      sql[i..next] == if lexeme.Verbatim? then lexeme.text else ":" + lexeme.name
  {
  }

  // Nothing but placeholders is ever replaced: the lexemes are the source.
  lemma {:induction false} LexemesCoverSource(sql: string, i: nat)
    requires i <= |sql|
    ensures SourceOf(Lexemes(sql, i)) == sql[i..]
    decreases |sql| - i
  {
    if i < |sql| {
      var (lexeme, next) := NextLexeme(sql, i);
      LexemesCoverSource(sql, next);
      LexemeIsSource(sql, i);
      assert ([lexeme] + Lexemes(sql, next))[1..] == Lexemes(sql, next);
      assert sql[i..] == sql[i..next] + sql[next..];
    }
  }
}
