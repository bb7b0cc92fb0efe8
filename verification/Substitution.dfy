/** Writing the literals into the statements the rewriters emit. */
module Substitution {
  import opened Wrappers
  import opened Characters
  import opened BindSyntax
  import opened BindRewriting
  import opened MariaDbValues
  import opened MariaDbBinds
  import opened MariaDbRoutes

  function Before(text: string, rest: Option<string>): Option<string> {
    if rest.Some? then Some(text + rest.value) else None
  }

  lemma BeforeTwice(a: string, b: string, rest: Option<string>)
    ensures Before(a, Before(b, rest)) == Before(a + b, rest)
    ensures Before("", rest) == rest
  {
    if rest.Some? {
      assert a + (b + rest.value) == a + b + rest.value;
      assert "" + rest.value == rest.value;
    }
  }

  // ---- PostgreSQL style ---------------------------------------------------------

  // The statement with every numbered parameter, its casts included, replaced
  // by the literal of its number. Literals and quoted names are left alone.
  function Substituted(s: string, quote: Option<char>, literals: seq<string>): Option<string>
    decreases |s|
  {
    if s == "" then Some("")
    else match NextStep(s, quote, |literals|)
      case Copy(n, after) => Before(s[..n], Substituted(s[n..], after, literals))
      case Parameter(index, _, rest) => Before(literals[index], Substituted(rest, None, literals))
      case Unknown(_) => None
  }

  // The literal each bind is written as, by its number.
  function Chosen(order: seq<nat>, literals: seq<string>, count: nat): (tokens: seq<string>)
    requires |literals| == |order|
    ensures |tokens| == count
  {
    seq(count, i requires 0 <= i < count => if i in order then literals[IndexOf(order, i)] else "")
  }

  lemma SubstitutedCopies(s: string, quote: Option<char>, after: char, literals: seq<string>, n: nat,
    head: string, more: string, rest: string)
    requires s != "" && NextStep(s, quote, |literals|) == Copy(n, Some(after)) && s[..n] == head && s[n..] == more + rest
    requires Substituted(more + rest, Some(after), literals) == Before(more, Substituted(rest, None, literals))
    ensures Substituted(s, quote, literals) == Before(head + more, Substituted(rest, None, literals))
  {
    BeforeTwice(head, more, Substituted(rest, None, literals));
  }

  lemma {:induction false} SubstitutedCloses(sql: string, k: nat, next: nat, quote: char, rest: string, literals: seq<string>)
    requires k < |sql| && next == QuoteEnd(sql, k, quote) && GoesOn(sql, next, rest) && IsQuote(quote)
    requires sql[k] == quote && !(k + 1 < |sql| && sql[k + 1] == quote)
    ensures Substituted(sql[k..next] + rest, Some(quote), literals) == Before(sql[k..next], Substituted(rest, None, literals))
  {
    StepCloses(sql, k, next, quote, rest, |literals|);
  }

  lemma {:induction false} SubstitutedStays(sql: string, k: nat, next: nat, quote: char, rest: string, n: nat,
    literals: seq<string>)
    requires k < |sql| && next == QuoteEnd(sql, k, quote) && n == if sql[k] == quote then 2 else 1
    requires (sql[k] == quote ==> k + 1 < |sql| && sql[k + 1] == quote) && k + n <= next
    requires Substituted(sql[k + n..next] + rest, Some(quote), literals) ==
      Before(sql[k + n..next], Substituted(rest, None, literals))
    ensures Substituted(sql[k..next] + rest, Some(quote), literals) == Before(sql[k..next], Substituted(rest, None, literals))
  {
    StepStays(sql, k, next, quote, rest, n, |literals|);
    SubstitutedCopies(sql[k..next] + rest, Some(quote), quote, literals, n, sql[k..k + n], sql[k + n..next], rest);
    assert sql[k..k + n] + sql[k + n..next] == sql[k..next];
  }

  lemma {:induction false} SubstitutedQuotedRest(sql: string, k: nat, next: nat, quote: char, rest: string, literals: seq<string>)
    requires k <= |sql| && next == QuoteEnd(sql, k, quote) && GoesOn(sql, next, rest) && IsQuote(quote)
    ensures Substituted(sql[k..next] + rest, Some(quote), literals) == Before(sql[k..next], Substituted(rest, None, literals))
    decreases |sql| - k
  {
    if k == |sql| {
      assert sql[k..next] + rest == "" && rest == "" && sql[k..next] == "";
    } else if sql[k] == quote && !(k + 1 < |sql| && sql[k + 1] == quote) {
      SubstitutedCloses(sql, k, next, quote, rest, literals);
    } else {
      var n := if sql[k] == quote then 2 else 1;
      QuoteEndStays(sql, k, next, quote, n);
      SubstitutedQuotedRest(sql, k + n, next, quote, rest, literals);
      SubstitutedStays(sql, k, next, quote, rest, n, literals);
    }
  }

  lemma {:induction false} SubstitutedQuoted(sql: string, i: nat, next: nat, rest: string, literals: seq<string>)
    requires i < |sql| && IsQuote(sql[i]) && next == QuoteEnd(sql, i + 1, sql[i]) && GoesOn(sql, next, rest)
    ensures Substituted(sql[i..next] + rest, None, literals) == Before(sql[i..next], Substituted(rest, None, literals))
  {
    var more := sql[i + 1..next];
    QuoteOpens(sql, i, next, rest, |literals|);
    SubstitutedQuotedRest(sql, i + 1, next, sql[i], rest, literals);
    SubstitutedCopies(sql[i..next] + rest, None, sql[i], literals, 1, sql[i..i + 1], more, rest);
    assert sql[i..i + 1] + more == sql[i..next];
  }

  lemma SubstitutedVerbatim(sql: string, i: nat, rest: string, literals: seq<string>)
    requires i < |sql| && CleanAt(sql, i) && NextLexeme(sql, i).0.Verbatim?
    requires Continues(sql, NextLexeme(sql, i).1, rest)
    ensures var text := NextLexeme(sql, i).0.text;
      Substituted(text + rest, None, literals) == Before(text, Substituted(rest, None, literals))
  {
    var next := NextLexeme(sql, i).1;
    var s := sql[i..next] + rest;
    if sql[i] == '\'' || sql[i] == '"' {
      SubstitutedQuoted(sql, i, next, rest, literals);
    } else {
      assert next == i + 1 && s[0] == sql[i] && !DollarDigit(s, 0);
      assert NextStep(s, None, |literals|) == Copy(1, None);
      assert s[..1] == sql[i..next] && s[1..] == rest;
    }
  }

  lemma SubstitutedPlaceholder(sql: string, i: nat, binds: seq<BindValue>, order: seq<nat>, index: nat, rest: string,
    literals: seq<string>)
    requires i < |sql| && NextLexeme(sql, i).0.Placeholder? && Continues(sql, NextLexeme(sql, i).1, rest)
    requires index < |binds| && index in order && |order| < 0x1_0000_0000_0000_0000 && |literals| == |order|
    ensures Substituted(PostgresTokens(order, binds)[index] + rest, None, literals) ==
      Before(Chosen(order, literals, |binds|)[index], Substituted(rest, None, literals))
  {
    var next, number := NextLexeme(sql, i).1, NumberOf(order, index);
    assert EndsChain(rest) by {
      if rest != "" && rest[0] == sql[next] {
        assert next == WordEnd(sql, i + 1);
      }
    }
    TokenIsRead(number, binds[index], rest, |order|);
    assert PostgresToken(number, binds[index])[0] == '$';
  }

  lemma {:induction false} SubstitutedFilled(sql: string, i: nat, scope: Scope, binds: seq<BindValue>, order: seq<nat>,
    pieces: seq<Piece>, literals: seq<string>)
    requires LeftOf(sql, i, scope, binds, order, pieces) && CleanFrom(sql, i)
    requires |order| < 0x1_0000_0000_0000_0000 && |literals| == |order|
    ensures Substituted(Fill(pieces, PostgresTokens(order, binds)), None, literals) ==
      Some(Fill(pieces, Chosen(order, literals, |binds|)))
    decreases |sql| - i
  {
    if i == |sql| {
      assert pieces == [];
    } else {
      FirstPiece(sql, i, scope, binds, pieces);
      var p, rest := pieces[0], pieces[1..];
      assert pieces == [p] + rest;
      FillFront(p, rest, PostgresTokens(order, binds));
      FillFront(p, rest, Chosen(order, literals, |binds|));
      assert p.Value? ==> Occurrences(pieces)[0] == p.index;
      var lexeme, next := NextLexeme(sql, i).0, NextLexeme(sql, i).1;
      var tail := Fill(rest, PostgresTokens(order, binds));
      if lexeme.Verbatim? {
        SubstitutedFilled(sql, next, scope, binds, order, rest, literals);
        ScanFilled(sql, next, scope, binds, order, rest);
        SubstitutedVerbatim(sql, i, tail, literals);
      } else {
        SubstitutedFilled(sql, next, ResolveName(scope, lexeme.name).0, binds, order, rest, literals);
        ScanFilled(sql, next, ResolveName(scope, lexeme.name).0, binds, order, rest);
        SubstitutedPlaceholder(sql, i, binds, order, p.index, tail, literals);
      }
    }
  }

  // Replacing each parameter of the emitted statement by the literal of the
  // value it is bound to gives the interpolated statement.
  lemma PostgresTextInterpolates(sql: string, binds: seq<BindValue>, pieces: seq<Piece>, bound: BoundSql)
    requires Clean(sql) && |sql| < 0x1_0000_0000_0000_0000
    requires Resolved(sql, |binds|) == Success(pieces) && Within(pieces, |binds|)
    requires BindsTo(pieces, binds, Postgres, bound)
    ensures Substituted(bound.sql, None, LiteralTokens(bound.binds)) == Some(Fill(pieces, LiteralTokens(binds)))
  {
    var order := FirstUses(Occurrences(pieces));
    var literals := LiteralTokens(bound.binds);
    OccurrencesWithin(pieces, |binds|);
    FewParameters(sql, 0, EMPTY, |binds|, pieces);
    SubstitutedFilled(sql, 0, EMPTY, binds, order, pieces, literals);
    forall x | x in Occurrences(pieces) ensures Chosen(order, literals, |binds|)[x] == LiteralTokens(binds)[x] {
      assert x in order && bound.binds[IndexOf(order, x)] == binds[x];
    }
    FillDependsOnUses(pieces, Chosen(order, literals, |binds|), LiteralTokens(binds));
  }

  // ---- MariaDB style ----------------------------------------------------------------

  // One character, or a doubled quote, and the quote open after it.
  function Turn(s: string, quote: Option<char>): (r: (nat, Option<char>))
    requires s != ""
    ensures 1 <= r.0 <= |s|
  {
    if quote.None? then (1, if IsQuote(s[0]) then Some(s[0]) else None)
    else if s[0] != quote.value then (1, quote)
    else if |s| > 1 && s[1] == s[0] then (2, quote)
    else (1, None)
  }

  // A parameter as the binder marks it, and the literal in its place.
  datatype Mark = Mark(bind: BindValue, literal: string)

  // The statement with, for each mark in turn, the next thing outside quotes
  // that the binder writes for such a bind replaced by the literal.
  function Marked(s: string, quote: Option<char>, marks: seq<Mark>): Option<string>
    decreases |s|
  {
    if s == "" then (if marks == [] then Some("") else None)
    else if quote.None? && marks != [] && MariaDbToken(marks[0].bind) <= s then
      Before(marks[0].literal, Marked(s[|MariaDbToken(marks[0].bind)|..], None, marks[1..]))
    else
      var (n, after) := Turn(s, quote);
      Before(s[..n], Marked(s[n..], after, marks))
  }

  // One turn that starts no marker.
  lemma MarkedTurn(s: string, quote: Option<char>, marks: seq<Mark>, n: nat, after: Option<char>, rest: string)
    requires s != "" && Turn(s, quote) == (n, after) && s[n..] == rest
    requires quote.None? && marks != [] ==> !(MariaDbToken(marks[0].bind) <= s)
    ensures Marked(s, quote, marks) == Before(s[..n], Marked(rest, after, marks))
  {
  }

  // Inside a literal the turns are those of the rewriter's pass.
  lemma TurnIsStep(s: string, quote: char, n: nat, after: Option<char>)
    requires s != "" && NextStep(s, Some(quote), 0) == Copy(n, after)
    ensures Turn(s, Some(quote)) == (n, after)
  {
  }

  // One more turn of quoted text, its opening quote included.
  lemma MarkedCopies(s: string, quote: Option<char>, after: char, marks: seq<Mark>, n: nat,
    head: string, more: string, rest: string)
    requires s != "" && Turn(s, quote) == (n, Some(after)) && s[..n] == head && s[n..] == more + rest
    requires quote.None? && marks != [] ==> !(MariaDbToken(marks[0].bind) <= s)
    requires Marked(more + rest, Some(after), marks) == Before(more, Marked(rest, None, marks))
    ensures Marked(s, quote, marks) == Before(head + more, Marked(rest, None, marks))
  {
    MarkedTurn(s, quote, marks, n, Some(after), more + rest);
    BeforeTwice(head, more, Marked(rest, None, marks));
  }

  lemma {:induction false} MarkedCloses(sql: string, k: nat, next: nat, quote: char, rest: string, marks: seq<Mark>)
    requires k < |sql| && next == QuoteEnd(sql, k, quote) && GoesOn(sql, next, rest) && IsQuote(quote)
    requires sql[k] == quote && !(k + 1 < |sql| && sql[k + 1] == quote)
    ensures Marked(sql[k..next] + rest, Some(quote), marks) == Before(sql[k..next], Marked(rest, None, marks))
  {
    StepCloses(sql, k, next, quote, rest, 0);
    TurnIsStep(sql[k..next] + rest, quote, 1, None);
    MarkedTurn(sql[k..next] + rest, Some(quote), marks, 1, None, rest);
  }

  lemma {:induction false} MarkedStays(sql: string, k: nat, next: nat, quote: char, rest: string, n: nat,
    marks: seq<Mark>)
    requires k < |sql| && next == QuoteEnd(sql, k, quote) && n == if sql[k] == quote then 2 else 1
    requires (sql[k] == quote ==> k + 1 < |sql| && sql[k + 1] == quote) && k + n <= next
    requires Marked(sql[k + n..next] + rest, Some(quote), marks) == Before(sql[k + n..next], Marked(rest, None, marks))
    ensures Marked(sql[k..next] + rest, Some(quote), marks) == Before(sql[k..next], Marked(rest, None, marks))
  {
    StepStays(sql, k, next, quote, rest, n, 0);
    TurnIsStep(sql[k..next] + rest, quote, n, Some(quote));
    MarkedCopies(sql[k..next] + rest, Some(quote), quote, marks, n, sql[k..k + n], sql[k + n..next], rest);
    assert sql[k..k + n] + sql[k + n..next] == sql[k..next];
  }

  lemma {:induction false} MarkedQuotedRest(sql: string, k: nat, next: nat, quote: char, rest: string, marks: seq<Mark>)
    requires k <= |sql| && next == QuoteEnd(sql, k, quote) && GoesOn(sql, next, rest) && IsQuote(quote)
    ensures Marked(sql[k..next] + rest, Some(quote), marks) == Before(sql[k..next], Marked(rest, None, marks))
    decreases |sql| - k
  {
    if k == |sql| {
      assert sql[k..next] + rest == "" && rest == "" && sql[k..next] == "";
    } else if sql[k] == quote && !(k + 1 < |sql| && sql[k + 1] == quote) {
      MarkedCloses(sql, k, next, quote, rest, marks);
    } else {
      var n := if sql[k] == quote then 2 else 1;
      QuoteEndStays(sql, k, next, quote, n);
      MarkedQuotedRest(sql, k + n, next, quote, rest, marks);
      MarkedStays(sql, k, next, quote, rest, n, marks);
    }
  }

  const CAST_MARK := "CAST(?"

  lemma TokenShape(value: BindValue)
    ensures MariaDbToken(value) == "?" || CAST_MARK <= MariaDbToken(value)
  {
  }

  lemma QuoteIsNoMark(s: string, marks: seq<Mark>)
    requires s != "" && IsQuote(s[0])
    ensures Turn(s, None) == (1, Some(s[0]))
    ensures marks != [] ==> !(MariaDbToken(marks[0].bind) <= s)
  {
    if marks != [] {
      TokenShape(marks[0].bind);
    }
  }

  lemma {:induction false} MarkedQuoted(sql: string, i: nat, next: nat, rest: string, marks: seq<Mark>)
    requires i < |sql| && IsQuote(sql[i]) && next == QuoteEnd(sql, i + 1, sql[i])
    requires GoesOn(sql, next, rest)
    ensures Marked(sql[i..next] + rest, None, marks) == Before(sql[i..next], Marked(rest, None, marks))
  {
    var s, more := sql[i..next] + rest, sql[i + 1..next];
    QuoteOpens(sql, i, next, rest, 0);
    QuoteIsNoMark(s, marks);
    MarkedQuotedRest(sql, i + 1, next, sql[i], rest, marks);
    MarkedCopies(s, None, sql[i], marks, 1, sql[i..i + 1], more, rest);
    assert sql[i..i + 1] + more == sql[i..next];
  }

  // The text does not start inside a marker that is wrapped in a cast.
  predicate Clear(text: string) {
    forall k | 1 <= k < |CAST_MARK| :: !(CAST_MARK[k..] <= text)
  }

  lemma TokensStartClear(text: string)
    requires text == "" || text[0] == 'C' || IsQuote(text[0])
    ensures Clear(text)
  {
    forall k | 1 <= k < |CAST_MARK| ensures !(CAST_MARK[k..] <= text) {
      assert CAST_MARK[k..][0] == CAST_MARK[k];
    }
  }

  lemma StartsOneLater(k: nat, c: char, text: string)
    requires k < |CAST_MARK|
    ensures CAST_MARK[k..] <= [c] + text <==> CAST_MARK[k] == c && CAST_MARK[k + 1..] <= text
  {
    var mark := CAST_MARK[k..];
    assert mark == [mark[0]] + mark[1..] && mark[1..] == CAST_MARK[k + 1..];
    assert ([c] + text)[1..] == text;
    if mark[0] == c && mark[1..] <= text {
      assert text[..|mark| - 1] == mark[1..] && ([c] + text)[..|mark|] == mark;
    }
  }

  lemma CharactersKeepClear(c: char, text: string)
    requires c != '?' && Clear(text)
    ensures Clear([c] + text) && !(CAST_MARK <= [c] + text)
  {
    forall k | 0 <= k < |CAST_MARK| ensures !(CAST_MARK[k..] <= [c] + text) {
      StartsOneLater(k, c, text);
    }
    assert CAST_MARK[0..] == CAST_MARK;
  }

  predicate ClearFor(text: string, marks: seq<Mark>) {
    marks != [] && MariaDbToken(marks[0].bind) != "?" ==> Clear(text)
  }

  lemma CharacterIsNoMark(c: char, text: string, marks: seq<Mark>)
    requires c != '?' && ClearFor(text, marks)
    ensures ClearFor([c] + text, marks)
    ensures marks != [] ==> !(MariaDbToken(marks[0].bind) <= [c] + text)
  {
    if marks != [] {
      var token := MariaDbToken(marks[0].bind);
      TokenShape(marks[0].bind);
      assert ([c] + text)[0] == c;
      if token != "?" {
        CharactersKeepClear(c, text);
        assert token <= [c] + text ==> CAST_MARK <= [c] + text;
      }
    }
  }

  lemma MarkedVerbatim(sql: string, i: nat, rest: string, marks: seq<Mark>)
    requires i < |sql| && CleanAt(sql, i) && NextLexeme(sql, i).0.Verbatim? && NextLexeme(sql, i).0 != Verbatim("?")
    requires GoesOn(sql, NextLexeme(sql, i).1, rest) && ClearFor(rest, marks)
    ensures var text := NextLexeme(sql, i).0.text;
      && Marked(text + rest, None, marks) == Before(text, Marked(rest, None, marks))
      && GoesOn(sql, i, text + rest) && ClearFor(text + rest, marks)
  {
    var next := NextLexeme(sql, i).1;
    var s := sql[i..next] + rest;
    assert s[0] == sql[i];
    if sql[i] == '\'' || sql[i] == '"' {
      MarkedQuoted(sql, i, next, rest, marks);
      TokensStartClear(s);
    } else {
      assert next == i + 1 && !IsQuote(sql[i]) && sql[i..next] == [sql[i]];
      CharacterIsNoMark(sql[i], rest, marks);
      MarkedTurn(s, None, marks, 1, None, rest);
    }
  }

  lemma MarkedPlaceholder(rest: string, marks: seq<Mark>)
    requires marks != []
    ensures Marked(MariaDbToken(marks[0].bind) + rest, None, marks) ==
      Before(marks[0].literal, Marked(rest, None, marks[1..]))
    ensures ClearFor(MariaDbToken(marks[0].bind) + rest, marks)
  {
    var token := MariaDbToken(marks[0].bind);
    TokenShape(marks[0].bind);
    assert token <= token + rest && (token + rest)[|token|..] == rest;
    if token != "?" {
      assert (token + rest)[0] == 'C';
      TokensStartClear(token + rest);
    }
  }

  // Every `?` of the source is inside quotes.
  predicate Unmarked(lexemes: seq<Lexeme>) {
    Verbatim("?") !in lexemes
  }

  // The marks of the given binds, each with its literal.
  function Marks(binds: seq<BindValue>, literals: seq<string>, uses: seq<nat>): (marks: seq<Mark>)
    requires |literals| == |binds|
    ensures |marks| == |uses|
  {
    seq(|uses|, k requires 0 <= k < |uses| =>
      if uses[k] < |binds| then Mark(binds[uses[k]], literals[uses[k]]) else Mark(Null, ""))
  }

  lemma MarksFront(binds: seq<BindValue>, literals: seq<string>, index: nat, uses: seq<nat>)
    requires index < |binds| == |literals|
    ensures Marks(binds, literals, [index] + uses) == [Mark(binds[index], literals[index])] + Marks(binds, literals, uses)
  {
  }

  // The pass over a filled rest of a statement ends with the literals in place.
  ghost predicate MarksTo(pieces: seq<Piece>, binds: seq<BindValue>, literals: seq<string>)
    requires Within(pieces, |binds|) && |literals| == |binds|
  {
    var text, marks := Fill(pieces, MariaDbTokens(binds)), Marks(binds, literals, Occurrences(pieces));
    ClearFor(text, marks) && Marked(text, None, marks) == Some(Fill(pieces, literals))
  }

  lemma TextMarks(sql: string, i: nat, p: Piece, rest: seq<Piece>, binds: seq<BindValue>, literals: seq<string>)
    requires i < |sql| && CleanAt(sql, i) && NextLexeme(sql, i).0.Verbatim? && NextLexeme(sql, i).0 != Verbatim("?")
    requires p == Text(NextLexeme(sql, i).0.text) && Within([p] + rest, |binds|) && Within(rest, |binds|)
    requires GoesOn(sql, NextLexeme(sql, i).1, Fill(rest, MariaDbTokens(binds)))
    requires |literals| == |binds| && MarksTo(rest, binds, literals)
    ensures GoesOn(sql, i, Fill([p] + rest, MariaDbTokens(binds))) && MarksTo([p] + rest, binds, literals)
  {
    FillFront(p, rest, MariaDbTokens(binds));
    FillFront(p, rest, literals);
    assert Occurrences([p] + rest) == Occurrences(rest);
    MarkedVerbatim(sql, i, Fill(rest, MariaDbTokens(binds)), Marks(binds, literals, Occurrences(rest)));
  }

  lemma ValueMarks(sql: string, i: nat, p: Piece, rest: seq<Piece>, binds: seq<BindValue>, literals: seq<string>)
    requires i < |sql| && sql[i] == ':'
    requires p.Value? && Within([p] + rest, |binds|) && Within(rest, |binds|) && p.index < |binds|
    requires |literals| == |binds| && MarksTo(rest, binds, literals)
    ensures GoesOn(sql, i, Fill([p] + rest, MariaDbTokens(binds))) && MarksTo([p] + rest, binds, literals)
  {
    FillFront(p, rest, MariaDbTokens(binds));
    FillFront(p, rest, literals);
    var marks := Marks(binds, literals, Occurrences([p] + rest));
    MarksFront(binds, literals, p.index, Occurrences(rest));
    TokenShape(marks[0].bind);
    MarkedPlaceholder(Fill(rest, MariaDbTokens(binds)), marks);
  }

  lemma {:induction false} MarkedFilled(sql: string, i: nat, scope: Scope, binds: seq<BindValue>, pieces: seq<Piece>,
    literals: seq<string>)
    requires i <= |sql| && CleanFrom(sql, i) && Unmarked(Lexemes(sql, i))
    requires Resolve(Lexemes(sql, i), scope, |binds|) == Success(pieces) && Within(pieces, |binds|)
    requires |literals| == |binds|
    ensures GoesOn(sql, i, Fill(pieces, MariaDbTokens(binds))) && MarksTo(pieces, binds, literals)
    decreases |sql| - i
  {
    if i == |sql| {
      assert pieces == [];
    } else {
      FirstPiece(sql, i, scope, binds, pieces);
      var p, rest := pieces[0], pieces[1..];
      assert pieces == [p] + rest;
      FillFront(p, rest, MariaDbTokens(binds));
      var lexeme, next := NextLexeme(sql, i).0, NextLexeme(sql, i).1;
      assert Lexemes(sql, i) == [lexeme] + Lexemes(sql, next);
      if lexeme.Verbatim? {
        MarkedFilled(sql, next, scope, binds, rest, literals);
        TextMarks(sql, i, p, rest, binds, literals);
      } else {
        MarkedFilled(sql, next, ResolveName(scope, lexeme.name).0, binds, rest, literals);
        ValueMarks(sql, i, p, rest, binds, literals);
      }
    }
  }

  // ---- The values MariaDB is given -----------------------------------------------------

  // The SQL a value stands for where it was marked: text that is marked without
  // a cast, as numbers and timestamps are, stands for itself.
  function Spelled(bind: BindValue, value: MariaDbValue): string {
    match value
    case NullValue => "NULL"
    case Chars(text) => if MariaDbToken(bind) == "?" then text else "'" + DoubleQuotes(text) + "'"
    case Octets(bytes) => "decode('" + Hex(bytes) + "', 'hex')"
    case Whole(n) => if n == 0 then "FALSE" else if n == 1 then "TRUE" else ""
    case Double(text) => text
  }

  // What interpolation writes, but for a timestamp its plain time alone.
  function PlainLiterals(binds: seq<BindValue>): (literals: seq<string>)
    ensures |literals| == |binds|
    ensures forall i | 0 <= i < |binds| && !binds[i].Temporal? :: literals[i] == LiteralTokens(binds)[i]
  {
    seq(|binds|, i requires 0 <= i < |binds| =>
      if binds[i].Temporal? then PlainTime(binds[i].text) else LiteralTokens(binds)[i])
  }

  // Each value stands for the literal interpolation writes,
  lemma {:induction false} ValueSpellsLiteral(bind: BindValue)
    requires Finite(bind)
    ensures Literal(bind).Success?
    ensures Spelled(bind, ValueOf(bind)) == if bind.Temporal? then PlainTime(bind.text) else Literal(bind).value
  {
  }

  // but a timestamp, which is written as it came, for the plain time in it.
  lemma {:induction false} TimestampsAreAsTheyCame(text: string)
    ensures Literal(Temporal(text)) == Success(text)
    ensures Spelled(Temporal(text), ValueOf(Temporal(text))) == PlainTime(text)
  {
  }

  predicate SameKind(a: BindValue, b: BindValue) {
    match a
    case Null => b.Null?
    case String(_) => b.String?
    case Number(_) => b.Number?
    case Bytes(_) => b.Bytes?
    case Temporal(_) => b.Temporal?
    case Boolean(_) => b.Boolean?
    case BinaryDouble(_, _) => b.BinaryDouble?
  }

  // Only NULL is sent as NULL, and no two binds of a kind are sent as one value,
  // timestamps aside.
  lemma {:induction false} ValuesTellBindsApart(a: BindValue, b: BindValue)
    requires Finite(a) && Finite(b)
    ensures ValueOf(a) == NullValue <==> a == Null
    ensures SameKind(a, b) && !a.Temporal? ==> (ValueOf(a) == ValueOf(b) <==> a == b)
  {
  }

  // What the values sent stand for, marker by marker.
  function Sent(binds: seq<BindValue>, values: seq<MariaDbValue>): (marks: seq<Mark>)
    requires |binds| == |values|
    ensures |marks| == |binds|
  {
    seq(|binds|, k requires 0 <= k < |binds| => Mark(binds[k], Spelled(binds[k], values[k])))
  }

  // Replacing the k-th marker of the emitted statement by what the k-th value
  // sent stands for gives the interpolated statement, but for the keywords and
  // zones of timestamps, and no value is left over.
  lemma {:induction false} MariaDbTextInterpolates(sql: string, binds: seq<BindValue>, pieces: seq<Piece>, bound: BoundSql)
    requires Clean(sql) && Unmarked(Lexemes(sql, 0))
    requires Resolved(sql, |binds|) == Success(pieces) && Within(pieces, |binds|)
    requires BindsTo(pieces, binds, MariaDb, bound) && EachFinite(bound.binds)
    ensures Marked(bound.sql, None, Sent(bound.binds, Converted(bound.binds))) == Some(Fill(pieces, PlainLiterals(binds)))
    ensures (forall k | 0 <= k < |bound.binds| :: !bound.binds[k].Temporal?) ==>
      Fill(pieces, PlainLiterals(binds)) == Fill(pieces, LiteralTokens(binds))
  {
    var uses := Occurrences(pieces);
    OccurrencesWithin(pieces, |binds|);
    MarkedFilled(sql, 0, EMPTY, binds, pieces, PlainLiterals(binds));
    forall k | 0 <= k < |uses|
      ensures Sent(bound.binds, Converted(bound.binds))[k] == Marks(binds, PlainLiterals(binds), uses)[k]
    {
      assert uses[k] in uses && bound.binds[k] == binds[uses[k]];
      ValueSpellsLiteral(bound.binds[k]);
    }
    assert Sent(bound.binds, Converted(bound.binds)) == Marks(binds, PlainLiterals(binds), uses);
    if forall k | 0 <= k < |bound.binds| :: !bound.binds[k].Temporal? {
      forall x | x in uses
        ensures PlainLiterals(binds)[x] == LiteralTokens(binds)[x]
      {
        var k :| 0 <= k < |uses| && uses[k] == x;
        assert bound.binds[k] == binds[x];
      }
      FillDependsOnUses(pieces, PlainLiterals(binds), LiteralTokens(binds));
    }
  }
}
