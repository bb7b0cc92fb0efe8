/** The two routes a statement with binds takes to MariaDB lead to the same place. */
module MariaDbRoutes {
  import opened Wrappers
  import opened Characters
  import opened BindSyntax
  import opened BindRewriting
  import opened MariaDbValues
  import opened MariaDbBinds

  // A place the two lexers read alike: neither a comment, nor a back-tick, nor
  // a cast, nor a dollar parameter of the source's own starts there.
  predicate CleanAt(sql: string, i: nat)
    requires i < |sql|
  {
    && sql[i] != '`'
    && !At(sql, i, '-', '-') && !At(sql, i, '/', '*') && !At(sql, i, ':', ':')
    && !DollarDigit(sql, i)
  }

  // Every lexeme from `i` on starts at such a place; quoted text is free.
  predicate CleanFrom(sql: string, i: nat)
    requires i <= |sql|
    decreases |sql| - i
  {
    i == |sql| || (CleanAt(sql, i) && CleanFrom(sql, NextLexeme(sql, i).1))
  }

  predicate Clean(sql: string) {
    CleanFrom(sql, 0)
  }

  // ---- Cast chains read back ------------------------------------------------

  function CastsOfValue(value: BindValue): seq<Cast> {
    match value
    case Null => [CastText]
    case String(_) => [CastText]
    case Number(_) => [CastText, CastNumeric]
    case Bytes(_) => [CastBytea]
    case Temporal(text) => [CastText, if IsPrefix("TIMESTAMPTZ '", text) then CastTimestamptz else CastTimestamp]
    case Boolean(_) => [CastBoolean]
    case BinaryDouble(_, _) => [CastText, CastDouble]
  }

  // Text that neither prolongs a type name nor continues a chain.
  predicate EndsChain(rest: string) {
    !("::" <= rest) && (rest != "" ==> !IsWord(rest[0]))
  }

  // What may stand right after a type name.
  predicate AfterName(tail: string) {
    tail != "" ==> !IsWord(tail[0])
  }

  lemma UpperAt(s: string, at: nat, n: nat)
    requires at < n <= |s|
    ensures |UpperCase(s[..n])| == n && UpperCase(s[..n])[at] == Upper(s[at])
  {
  }

  lemma NoMatch(s: string, k: nat, at: nat)
    requires k < |CASTS| && at < |CASTS[k].0|
    requires at < |s| ==> Upper(s[at]) != Upper(CASTS[k].0[at])
    ensures FindCast(s, CASTS[k..]) == FindCast(s, CASTS[k + 1..])
  {
    var word, rest := CASTS[k].0, CASTS[k..];
    assert rest[0] == CASTS[k] && rest[1..] == CASTS[k + 1..];
    if |word| <= |s| {
      UpperAt(s, at, |word|);
      UpperAt(word, at, |word|);
      assert word[..|word|] == word;
      assert UpperCase(s[..|word|]) != UpperCase(word);
    }
  }

  lemma Matches(tail: string, k: nat)
    requires k < |CASTS|
    ensures FindCast(CASTS[k].0 + tail, CASTS[k..]) == Some(CASTS[k])
  {
    var word := CASTS[k].0;
    assert (word + tail)[..|word|] == word;
    assert CASTS[k..][0] == CASTS[k];
  }

  // Where a name differs from the one `j` places before it in the list.
  function DiffersAt(k: nat, j: nat): nat {
    if j == 0 then (if k == 3 || k == 4 then 1 else 0)
    else if j == 2 && k == 5 then 1
    else if j == 3 && k == 4 then 9
    else 0
  }

  lemma SkipsName(tail: string, k: nat, j: nat)
    requires j < k < 7 && AfterName(tail)
    ensures FindCast(CASTS[k].0 + tail, CASTS[j..]) == FindCast(CASTS[k].0 + tail, CASTS[j + 1..])
  {
    var s, at := CASTS[k].0 + tail, DiffersAt(k, j);
    if j == 3 && k == 4 {
      assert |CASTS[4].0| == 9;
      assert |s| > 9 ==> s[9] == tail[0];
    } else {
      assert s[at] == CASTS[k].0[at];
    }
    NoMatch(s, j, at);
  }

  // Each name the rewriter emits is found, whatever follows it.
  lemma {:induction false} FindsName(tail: string, k: nat, j: nat)
    requires j <= k < 7 && AfterName(tail)
    ensures FindCast(CASTS[k].0 + tail, CASTS[j..]) == Some(CASTS[k])
    decreases k - j
  {
    if j == k {
      Matches(tail, k);
    } else {
      SkipsName(tail, k, j);
      FindsName(tail, k, j + 1);
    }
  }

  lemma ReadsCast(tail: string, k: nat)
    requires k < 7 && AfterName(tail)
    ensures NextCast("::" + CASTS[k].0 + tail) == Some((CASTS[k].1, tail))
  {
    FindsName(tail, k, 0);
    assert CASTS[0..] == CASTS;
    var name := CASTS[k].0;
    assert name != "" && !IsSpace(name[0]);
    CastFound("::" + name + tail, name, CASTS[k].1, tail);
  }

  lemma CastFound(s: string, name: string, cast: Cast, tail: string)
    requires s == "::" + name + tail && name != "" && !IsSpace(name[0])
    requires FindCast(name + tail, CASTS) == Some((name, cast))
    ensures NextCast(s) == Some((cast, tail))
  {
    assert s[2..] == name + tail && "::" <= s;
    assert TrimStart(name + tail) == name + tail;
    assert (name + tail)[|name|..] == tail;
  }

  lemma ChainOfOne(s: string, cast: Cast, rest: string)
    requires NextCast(s) == Some((cast, rest)) && EndsChain(rest)
    ensures CastsOf(s) == Chain([cast], rest)
  {
    assert NextCast(rest) == None;
    assert CastsOf(rest) == Chain([], rest);
    assert [cast] + [] == [cast];
  }

  lemma ChainOfTwo(s: string, first: Cast, t: string, second: Cast, rest: string)
    requires NextCast(s) == Some((first, t)) && CastsOf(t) == Chain([second], rest)
    ensures CastsOf(s) == Chain([first, second], rest)
  {
    assert [first] + [second] == [first, second];
  }

  // How many types a chain names, and the last of them.
  function LastCast(value: BindValue): nat {
    match value
    case Null => 0
    case String(_) => 0
    case Number(_) => 1
    case Bytes(_) => 2
    case Temporal(text) => if IsPrefix("TIMESTAMPTZ '", text) then 3 else 4
    case Boolean(_) => 5
    case BinaryDouble(_, _) => 6
  }

  predicate NamesTwo(value: BindValue) {
    value.Number? || value.Temporal? || value.BinaryDouble?
  }

  lemma CastTexts()
    ensures "::" + CASTS[0].0 == "::text" && "::" + CASTS[2].0 == "::bytea" && "::" + CASTS[5].0 == "::boolean"
    ensures "::text" + ("::" + CASTS[1].0) == "::text::numeric"
    ensures "::text" + ("::" + CASTS[6].0) == "::text::double precision"
    ensures "::text" + ("::" + CASTS[3].0) == "::text::timestamptz"
    ensures "::text" + ("::" + CASTS[4].0) == "::text::timestamp"
  {
  }

  lemma ChainShape(value: BindValue)
    ensures var k := LastCast(value);
      && k < 7
      && CastChain(value) == (if NamesTwo(value) then "::" + CASTS[0].0 else "") + ("::" + CASTS[k].0)
      && CastsOfValue(value) == if NamesTwo(value) then [CASTS[0].1, CASTS[k].1] else [CASTS[k].1]
  {
    CastTexts();
    assert "" + ("::" + CASTS[LastCast(value)].0) == "::" + CASTS[LastCast(value)].0;
  }

  lemma Associates(a: string, b: string, c: string)
    ensures a + b + c == a + (b + c)
    ensures "" + b == b
  {
  }

  lemma ChainReadsBack(value: BindValue, rest: string)
    requires EndsChain(rest)
    ensures CastsOf(CastChain(value) + rest) == Chain(CastsOfValue(value), rest)
  {
    var k := LastCast(value);
    ChainShape(value);
    var first, last := "::" + CASTS[0].0, "::" + CASTS[k].0;
    ReadsCast(rest, k);
    ChainOfOne(last + rest, CASTS[k].1, rest);
    Associates(first, last, rest);
    if NamesTwo(value) {
      ReadsCast(last + rest, 0);
      ChainOfTwo(first + (last + rest), CASTS[0].1, last + rest, CASTS[k].1, rest);
    }
  }

  // Collapsing the chain gives the native placeholder, except for timestamps.
  lemma ReplacementIsNative(value: BindValue)
    ensures Replacement(CastsOfValue(value)) ==
      if value.Temporal? then "CAST(? AS CHAR(4000))" else MariaDbToken(value)
  {
    var casts := CastsOfValue(value);
    if value.Number? || value.BinaryDouble? {
      assert casts[1] in casts && IsNumeric(casts[1]);
    }
  }

  // ---- Parameter numbers read back --------------------------------------------

  lemma {:induction false} DigitsEndAt(s: string, i: nat, end: nat)
    requires i <= end <= |s| && (forall k | i <= k < end :: IsDigit(s[k])) && (end < |s| ==> !IsDigit(s[end]))
    ensures DigitEnd(s, i) == end
    decreases end - i
  {
    if i < end {
      DigitsEndAt(s, i + 1, end);
    }
  }

  lemma TokenIsRead(number: nat, value: BindValue, rest: string, count: nat)
    requires 1 <= number <= count < 0x1_0000_0000_0000_0000 && EndsChain(rest)
    ensures NextStep(PostgresToken(number, value) + rest, None, count) ==
      Parameter(number - 1, Replacement(CastsOfValue(value)), rest)
  {
    var digits, chain := NatText(number), CastChain(value) + rest;
    ChainReadsBack(value, rest);
    NatTextReadsBack(number);
    ChainStarts(value);
    Associates("$" + digits, CastChain(value), rest);
    DollarStep("$" + digits + chain, digits, chain, number, count);
  }

  lemma ChainStarts(value: BindValue)
    ensures CastChain(value) != "" && CastChain(value)[0] == ':'
  {
  }

  lemma DollarStep(s: string, digits: string, chain: string, number: nat, count: nat)
    requires s == "$" + digits + chain && digits != "" && AllDigits(digits) && Decimal(digits) == number
    requires chain != "" && chain[0] == ':' && 1 <= number <= count < 0x1_0000_0000_0000_0000
    ensures NextStep(s, None, count) == Parameter(number - 1, Replacement(CastsOf(chain).casts), CastsOf(chain).rest)
  {
    var j := 1 + |digits|;
    assert forall k | 1 <= k < j :: s[k] == digits[k - 1];
    assert s[j] == chain[0];
    assert DollarDigit(s, 0) && !IsQuote(s[0]);
    DigitsEndAt(s, 1, j);
    assert s[1..j] == digits && s[j..] == chain;
    ParameterAt(s, j, number, count);
  }

  lemma ParameterAt(s: string, j: nat, number: nat, count: nat)
    requires DollarDigit(s, 0) && !IsQuote(s[0]) && j == DigitEnd(s, 1)
    requires AllDigits(s[1..j]) && ParseUsize(s[1..j]) == Some(number) && 1 <= number <= count
    ensures NextStep(s, None, count) == Parameter(number - 1, Replacement(CastsOf(s[j..]).casts), CastsOf(s[j..]).rest)
  {
    assert NextStep(s, None, count) == ParameterStep(s, count);
  }

  // ---- The pass over a filled statement -----------------------------------------

  lemma WithinParts(p: Piece, rest: seq<Piece>, count: nat)
    requires Within([p] + rest, count)
    ensures Within(rest, count) && (rest != [] ==> Within([p] + rest[..|rest| - 1], count))
  {
    forall k | 0 <= k < |rest| && rest[k].Value? ensures rest[k].index < count {
      assert rest[k] == ([p] + rest)[k + 1];
    }
    if rest != [] {
      var init := [p] + rest[..|rest| - 1];
      forall k | 0 <= k < |init| && init[k].Value? ensures init[k].index < count {
        assert init[k] == ([p] + rest)[k];
      }
    }
  }

  lemma {:induction false} OccurrencesFront(p: Piece, rest: seq<Piece>)
    ensures Occurrences([p] + rest) == (if p.Value? then [p.index] else []) + Occurrences(rest)
  {
    if rest == [] {
      assert [p] + rest == [p] && [p][..0] == [];
    } else {
      assert ([p] + rest)[..|rest|] == [p] + rest[..|rest| - 1];
      OccurrencesFront(p, rest[..|rest| - 1]);
    }
  }

  lemma {:induction false} FillFront(p: Piece, rest: seq<Piece>, tokens: seq<string>)
    requires Within([p] + rest, |tokens|) && (p.Value? ==> p.index < |tokens|)
    ensures Within(rest, |tokens|)
    ensures Fill([p] + rest, tokens) == (if p.Text? then p.text else tokens[p.index]) + Fill(rest, tokens)
    ensures Occurrences([p] + rest) == (if p.Value? then [p.index] else []) + Occurrences(rest)
  {
    WithinParts(p, rest, |tokens|);
    OccurrencesFront(p, rest);
    if rest == [] {
      assert [p] + rest == [p] && [p][..0] == [];
      assert ([p] + rest)[0] == p;
    } else {
      var init, last := rest[..|rest| - 1], rest[|rest| - 1];
      assert ([p] + rest)[..|rest|] == [p] + init;
      assert ([p] + rest)[|rest|] == last;
      FillFront(p, init, tokens);
    }
  }

  // What the filled rest of the source starts with, seen from the source: its
  // own next character, or the first one of what a placeholder is written as.
  predicate GoesOn(sql: string, i: nat, rest: string)
    requires i <= |sql|
  {
    && (i == |sql| ==> rest == "")
    && (rest != "" ==> i < |sql| && (rest[0] == sql[i] || rest[0] == '$' || rest[0] == '?' || rest[0] == 'C'))
  }

  // In PostgreSQL style.
  predicate Continues(sql: string, i: nat, rest: string)
    requires i <= |sql|
  {
    && GoesOn(sql, i, rest)
    && (rest != "" ==> rest[0] == sql[i] || (rest[0] == '$' && sql[i] == ':'))
    && !("::" <= rest)
  }

  // The turn inside a literal that ends it.
  lemma StepCloses(sql: string, k: nat, next: nat, quote: char, rest: string, count: nat)
    requires k < |sql| && next == QuoteEnd(sql, k, quote) && GoesOn(sql, next, rest) && IsQuote(quote)
    requires sql[k] == quote && !(k + 1 < |sql| && sql[k + 1] == quote)
    ensures next == k + 1 && sql[k..next] + rest != "" && (sql[k..next] + rest)[1..] == rest
    ensures (sql[k..next] + rest)[..1] == sql[k..next]
    ensures NextStep(sql[k..next] + rest, Some(quote), count) == Copy(1, None)
  {
    var s := sql[k..next] + rest;
    assert s[0] == sql[k];
    if rest != "" {
      assert s[1] == rest[0] != quote;
    }
  }

  // One that stays inside: a doubled quote or any other character.
  lemma StepStays(sql: string, k: nat, next: nat, quote: char, rest: string, n: nat, count: nat)
    requires k < |sql| && next == QuoteEnd(sql, k, quote) && n == if sql[k] == quote then 2 else 1
    requires sql[k] == quote ==> k + 1 < |sql| && sql[k + 1] == quote
    ensures k + n <= next == QuoteEnd(sql, k + n, quote) && sql[k..next] + rest != ""
    ensures NextStep(sql[k..next] + rest, Some(quote), count) == Copy(n, Some(quote))
    ensures (sql[k..next] + rest)[..n] == sql[k..k + n] && (sql[k..next] + rest)[n..] == sql[k + n..next] + rest
  {
    var s := sql[k..next] + rest;
    assert s[0] == sql[k];
    if n == 2 {
      assert s[1] == sql[k + 1];
    }
  }

  lemma {:induction false} QuoteCloses(sql: string, k: nat, next: nat, quote: char, rest: string, count: nat)
    requires k < |sql| && next == QuoteEnd(sql, k, quote) && GoesOn(sql, next, rest) && IsQuote(quote)
    requires sql[k] == quote && !(k + 1 < |sql| && sql[k + 1] == quote)
    ensures Scan(sql[k..next] + rest, Some(quote), count) == Precede(sql[k..next], [], Scan(rest, None, count))
  {
    StepCloses(sql, k, next, quote, rest, count);
  }

  lemma QuoteEndStays(sql: string, k: nat, next: nat, quote: char, n: nat)
    requires k < |sql| && next == QuoteEnd(sql, k, quote) && n == if sql[k] == quote then 2 else 1
    requires sql[k] == quote ==> k + 1 < |sql| && sql[k + 1] == quote
    ensures k + n <= next == QuoteEnd(sql, k + n, quote)
  {
  }

  lemma {:induction false} QuoteStays(sql: string, k: nat, next: nat, quote: char, rest: string, n: nat, count: nat)
    requires k < |sql| && next == QuoteEnd(sql, k, quote) && n == if sql[k] == quote then 2 else 1
    requires (sql[k] == quote ==> k + 1 < |sql| && sql[k + 1] == quote) && k + n <= next
    requires Scan(sql[k + n..next] + rest, Some(quote), count) == Precede(sql[k + n..next], [], Scan(rest, None, count))
    ensures Scan(sql[k..next] + rest, Some(quote), count) == Precede(sql[k..next], [], Scan(rest, None, count))
  {
    StepStays(sql, k, next, quote, rest, n, count);
    CopiesThenMore(sql[k..next] + rest, Some(quote), quote, count, n, sql[k..k + n], sql[k + n..next], rest);
    assert sql[k..k + n] + sql[k + n..next] == sql[k..next];
  }

  lemma {:induction false} ScanQuotedRest(sql: string, k: nat, next: nat, quote: char, rest: string, count: nat)
    requires k <= |sql| && next == QuoteEnd(sql, k, quote) && GoesOn(sql, next, rest) && IsQuote(quote)
    ensures Scan(sql[k..next] + rest, Some(quote), count) == Precede(sql[k..next], [], Scan(rest, None, count))
    decreases |sql| - k
  {
    if k == |sql| {
      assert sql[k..next] + rest == "" && rest == "" && sql[k..next] == "";
    } else if sql[k] == quote && !(k + 1 < |sql| && sql[k + 1] == quote) {
      QuoteCloses(sql, k, next, quote, rest, count);
    } else {
      var n := if sql[k] == quote then 2 else 1;
      QuoteEndStays(sql, k, next, quote, n);
      ScanQuotedRest(sql, k + n, next, quote, rest, count);
      QuoteStays(sql, k, next, quote, rest, n, count);
    }
  }

  lemma CopiesThenMore(s: string, quote: Option<char>, after: char, count: nat, n: nat, head: string, more: string, rest: string)
    requires s != "" && NextStep(s, quote, count) == Copy(n, Some(after)) && s[..n] == head && s[n..] == more + rest
    requires Scan(more + rest, Some(after), count) == Precede(more, [], Scan(rest, None, count))
    ensures Scan(s, quote, count) == Precede(head + more, [], Scan(rest, None, count))
  {
    PrecedeTwice(head, [], more, [], Scan(rest, None, count));
  }

  // The quote that opens a literal, in front of the rest of it.
  lemma QuoteOpens(sql: string, i: nat, next: nat, rest: string, count: nat)
    requires i < next <= |sql| && IsQuote(sql[i])
    ensures var s := sql[i..next] + rest;
      && s[..1] == sql[i..i + 1] && s[1..] == sql[i + 1..next] + rest
      && NextStep(s, None, count) == Copy(1, Some(sql[i]))
  {
    assert (sql[i..next] + rest)[0] == sql[i];
  }

  lemma {:induction false} ScanQuoted(sql: string, i: nat, next: nat, rest: string, count: nat)
    requires i < |sql| && IsQuote(sql[i]) && next == QuoteEnd(sql, i + 1, sql[i]) && GoesOn(sql, next, rest)
    ensures Scan(sql[i..next] + rest, None, count) == Precede(sql[i..next], [], Scan(rest, None, count))
  {
    var more := sql[i + 1..next];
    QuoteOpens(sql, i, next, rest, count);
    ScanQuotedRest(sql, i + 1, next, sql[i], rest, count);
    CopiesThenMore(sql[i..next] + rest, None, sql[i], count, 1, sql[i..i + 1], more, rest);
    assert sql[i..i + 1] + more == sql[i..next];
  }

  // A verbatim lexeme of a clean source is copied as it is.
  lemma ScanVerbatim(sql: string, i: nat, rest: string, count: nat)
    requires i < |sql| && CleanAt(sql, i) && NextLexeme(sql, i).0.Verbatim?
    requires GoesOn(sql, NextLexeme(sql, i).1, rest)
    ensures var next := NextLexeme(sql, i).1;
      && Scan(sql[i..next] + rest, None, count) == Precede(sql[i..next], [], Scan(rest, None, count))
      && GoesOn(sql, i, sql[i..next] + rest)
  {
    var next := NextLexeme(sql, i).1;
    var s := sql[i..next] + rest;
    assert s[0] == sql[i];
    if sql[i] == '\'' || sql[i] == '"' {
      ScanQuoted(sql, i, next, rest, count);
    } else {
      assert next == i + 1 && !DollarDigit(s, 0);
      assert NextStep(s, None, count) == Copy(1, None);
      assert s[..1] == sql[i..next] && s[1..] == rest;
    }
  }

  // And it starts no chain of casts together with what follows it.
  lemma VerbatimContinues(sql: string, i: nat, rest: string)
    requires i < |sql| && CleanAt(sql, i) && NextLexeme(sql, i).0.Verbatim?
    requires Continues(sql, NextLexeme(sql, i).1, rest)
    ensures Continues(sql, i, sql[i..NextLexeme(sql, i).1] + rest)
  {
    var s := sql[i..NextLexeme(sql, i).1] + rest;
    assert s[0] == sql[i];
    assert sql[i] == ':' && rest != "" ==> s[1] == rest[0];
  }

  function NumbersOf(order: seq<nat>, uses: seq<nat>): (ns: seq<nat>)
    requires forall x <- uses :: x in order
    ensures |ns| == |uses|
    ensures forall n <- ns :: n < |order|
  {
    seq(|uses|, k requires 0 <= k < |uses| => assert uses[k] in uses; IndexOf(order, uses[k]))
  }

  function ReplacementTokens(binds: seq<BindValue>): (tokens: seq<string>)
    ensures |tokens| == |binds|
  {
    seq(|binds|, i requires 0 <= i < |binds| => Replacement(CastsOfValue(binds[i])))
  }

  // A resolved statement that is left of the source from `i` on.
  ghost predicate LeftOf(sql: string, i: nat, scope: Scope, binds: seq<BindValue>, order: seq<nat>, pieces: seq<Piece>) {
    && i <= |sql| && Resolve(Lexemes(sql, i), scope, |binds|) == Success(pieces)
    && Within(pieces, |binds|)
    && forall x <- Occurrences(pieces) :: x in order
  }

  lemma FirstPiece(sql: string, i: nat, scope: Scope, binds: seq<BindValue>, pieces: seq<Piece>)
    requires i < |sql| && Resolve(Lexemes(sql, i), scope, |binds|) == Success(pieces)
    ensures pieces != []
    ensures var lexeme, next := NextLexeme(sql, i).0, NextLexeme(sql, i).1;
      if lexeme.Verbatim? then
        pieces[0] == Text(lexeme.text) && Resolve(Lexemes(sql, next), scope, |binds|) == Success(pieces[1..])
      else
        var resolved := ResolveName(scope, lexeme.name);
        && resolved.1.Some? && resolved.1.value < |binds| && pieces[0] == Value(resolved.1.value)
        && Resolve(Lexemes(sql, next), resolved.0, |binds|) == Success(pieces[1..])
  {
    var lexeme, next := NextLexeme(sql, i).0, NextLexeme(sql, i).1;
    assert Lexemes(sql, i) == [lexeme] + Lexemes(sql, next);
    assert Lexemes(sql, i)[1..] == Lexemes(sql, next);
  }

  lemma NumbersOfFront(order: seq<nat>, x: nat, uses: seq<nat>)
    requires x in order && forall y <- uses :: y in order
    ensures forall y <- [x] + uses :: y in order
    ensures NumbersOf(order, [x] + uses) == [IndexOf(order, x)] + NumbersOf(order, uses)
  {
  }

  // Scanning the PostgreSQL-style text finds exactly the placeholders, in
  // order, with the numbers they were given.
  ghost predicate ScansTo(pieces: seq<Piece>, binds: seq<BindValue>, order: seq<nat>)
    requires Within(pieces, |binds|) && forall x <- Occurrences(pieces) :: x in order
  {
    var r := Scan(Fill(pieces, PostgresTokens(order, binds)), None, |order|);
    && r.Success?
    && r.value.text == Fill(pieces, ReplacementTokens(binds))
    && r.value.uses == NumbersOf(order, Occurrences(pieces))
  }

  lemma ScansToFront(p: Piece, rest: seq<Piece>, binds: seq<BindValue>, order: seq<nat>)
    requires Within([p] + rest, |binds|) && (p.Value? ==> p.index < |binds| && p.index in order)
    requires Within(rest, |binds|) && (forall x <- Occurrences(rest) :: x in order) && ScansTo(rest, binds, order)
    requires var tail := Fill(rest, PostgresTokens(order, binds));
      && (p.Text? ==> Scan(p.text + tail, None, |order|) == Precede(p.text, [], Scan(tail, None, |order|)))
      && (p.Value? ==> (Scan(PostgresTokens(order, binds)[p.index] + tail, None, |order|) ==
            Precede(ReplacementTokens(binds)[p.index], [IndexOf(order, p.index)], Scan(tail, None, |order|))))
    ensures (forall x <- Occurrences([p] + rest) :: x in order) && ScansTo([p] + rest, binds, order)
  {
    FillFront(p, rest, PostgresTokens(order, binds));
    FillFront(p, rest, ReplacementTokens(binds));
    var uses := Occurrences(rest);
    if p.Text? {
      assert [] + uses == uses && [] + NumbersOf(order, uses) == NumbersOf(order, uses);
    } else {
      NumbersOfFront(order, p.index, uses);
    }
  }

  lemma {:induction false} ScanFilled(sql: string, i: nat, scope: Scope, binds: seq<BindValue>, order: seq<nat>,
    pieces: seq<Piece>)
    requires LeftOf(sql, i, scope, binds, order, pieces) && CleanFrom(sql, i)
    requires |order| < 0x1_0000_0000_0000_0000
    ensures Continues(sql, i, Fill(pieces, PostgresTokens(order, binds))) && ScansTo(pieces, binds, order)
    decreases |sql| - i
  {
    if i == |sql| {
      assert pieces == [];
    } else {
      FirstPiece(sql, i, scope, binds, pieces);
      var p, rest := pieces[0], pieces[1..];
      assert pieces == [p] + rest;
      FillFront(p, rest, PostgresTokens(order, binds));
      assert p.Value? ==> Occurrences(pieces)[0] == p.index;
      var lexeme, next := NextLexeme(sql, i).0, NextLexeme(sql, i).1;
      var tail := Fill(rest, PostgresTokens(order, binds));
      if lexeme.Verbatim? {
        ScanFilled(sql, next, scope, binds, order, rest);
        ScanVerbatim(sql, i, tail, |order|);
        VerbatimContinues(sql, i, tail);
      } else {
        ScanFilled(sql, next, ResolveName(scope, lexeme.name).0, binds, order, rest);
        ScanPlaceholder(sql, i, binds, order, p.index, tail);
      }
      ScansToFront(p, rest, binds, order);
    }
  }

  lemma ScanPlaceholder(sql: string, i: nat, binds: seq<BindValue>, order: seq<nat>, index: nat, tail: string)
    requires i < |sql| && NextLexeme(sql, i).0.Placeholder?
    requires Continues(sql, NextLexeme(sql, i).1, tail)
    requires index < |binds| && index in order && |order| < 0x1_0000_0000_0000_0000
    ensures var token := PostgresTokens(order, binds)[index];
      && Continues(sql, i, token + tail)
      && Scan(token + tail, None, |order|) ==
          Precede(ReplacementTokens(binds)[index], [IndexOf(order, index)], Scan(tail, None, |order|))
  {
    var next, number := NextLexeme(sql, i).1, NumberOf(order, index);
    var s := PostgresToken(number, binds[index]) + tail;
    assert s[0] == '$';
    assert EndsChain(tail) by {
      if tail != "" && tail[0] == sql[next] {
        assert next == WordEnd(sql, i + 1);
      }
    }
    TokenIsRead(number, binds[index], tail, |order|);
  }

  // ---- The two routes -----------------------------------------------------------

  lemma SelectThrough(binds: seq<BindValue>, order: seq<nat>, uses: seq<nat>)
    requires (forall x <- order :: x < |binds|) && forall x <- uses :: x in order
    ensures forall x <- uses :: x < |binds|
    ensures Select(Select(binds, order), NumbersOf(order, uses)) == Select(binds, uses)
  {
  }

  predicate NoTimestamp(values: seq<BindValue>) {
    forall k | 0 <= k < |values| :: !values[k].Temporal?
  }

  // The collapsed text is the native text, and longer for every timestamp.
  lemma {:induction false} ReplacedText(pieces: seq<Piece>, binds: seq<BindValue>)
    requires Within(pieces, |binds|)
    ensures forall x <- Occurrences(pieces) :: x < |binds|
    ensures var a, b := Fill(pieces, ReplacementTokens(binds)), Fill(pieces, MariaDbTokens(binds));
      var plain := NoTimestamp(Select(binds, Occurrences(pieces)));
      && (plain ==> a == b)
      && |a| >= |b| && (!plain ==> |a| > |b|)
  {
    if pieces != [] {
      var init, last := pieces[..|pieces| - 1], pieces[|pieces| - 1];
      ReplacedText(init, binds);
      var uses := Occurrences(init);
      if last.Value? {
        var value := binds[last.index];
        ReplacementIsNative(value);
        SelectOneMore(binds, uses, last.index);
        var values := Select(binds, uses);
        assert NoTimestamp(values + [value]) <==> NoTimestamp(values) && !value.Temporal? by {
          if NoTimestamp(values + [value]) {
            assert forall k | 0 <= k < |values| :: (values + [value])[k] == values[k];
            assert (values + [value])[|values|] == value;
          }
        }
      } else {
        assert uses + [] == uses;
      }
    }
  }

  predicate Free(s: string) {
    !HasDollarDigit(s)
  }

  lemma FreeConcat(a: string, b: string)
    requires Free(a) && Free(b)
    requires a != "" && b != "" && a[|a| - 1] == '$' ==> !IsDigit(b[0])
    ensures Free(a + b)
  {
    forall i | 0 <= i < |a + b| ensures !DollarDigit(a + b, i) {
      if i < |a| {
        assert !DollarDigit(a, i);
      } else {
        assert !DollarDigit(b, i - |a|);
        assert (a + b)[i] == b[i - |a|];
        assert i + 1 < |a + b| ==> (a + b)[i + 1] == b[i + 1 - |a|];
      }
    }
  }

  lemma MariaDbTokenShape(value: BindValue)
    ensures var t := MariaDbToken(value);
      && t != "" && Free(t) && '?' in t && t[|t| - 1] != '$' && !IsDigit(t[0])
  {
    var t := MariaDbToken(value);
    assert t == "?" || t[5] == '?';
  }

  lemma FreeToken(value: BindValue, tail: string)
    requires Free(tail)
    ensures var text := MariaDbToken(value) + tail; Free(text) && text != "" && !IsDigit(text[0])
  {
    MariaDbTokenShape(value);
    FreeConcat(MariaDbToken(value), tail);
  }

  // The native text has no dollar parameter in it that the source had not.
  lemma {:induction false} NativeTextIsFree(sql: string, i: nat, scope: Scope, binds: seq<BindValue>, pieces: seq<Piece>)
    requires Free(sql) && i <= |sql| && Resolve(Lexemes(sql, i), scope, |binds|) == Success(pieces)
    requires Within(pieces, |binds|)
    ensures var text := Fill(pieces, MariaDbTokens(binds));
      && Free(text)
      && (text != "" && IsDigit(text[0]) ==> i < |sql| && text[0] == sql[i])
    decreases |sql| - i
  {
    if i < |sql| {
      FirstPiece(sql, i, scope, binds, pieces);
      var p, rest := pieces[0], pieces[1..];
      assert pieces == [p] + rest;
      FillFront(p, rest, MariaDbTokens(binds));
      var lexeme, next := NextLexeme(sql, i).0, NextLexeme(sql, i).1;
      var tail := Fill(rest, MariaDbTokens(binds));
      if lexeme.Verbatim? {
        NativeTextIsFree(sql, next, scope, binds, rest);
        FreeSlice(sql, i, next, tail);
      } else {
        NativeTextIsFree(sql, next, ResolveName(scope, lexeme.name).0, binds, rest);
        FreeToken(binds[p.index], tail);
      }
    }
  }

  lemma FreeSlice(sql: string, i: nat, next: nat, tail: string)
    requires Free(sql) && i < next <= |sql| && Free(tail)
    requires tail != "" && IsDigit(tail[0]) ==> next < |sql| && tail[0] == sql[next]
    ensures Free(sql[i..next] + tail) && (sql[i..next] + tail)[0] == sql[i]
  {
    var head := sql[i..next];
    forall k | 0 <= k < |head| ensures !DollarDigit(head, k) {
      assert !DollarDigit(sql, i + k);
    }
    assert !DollarDigit(sql, next - 1);
    FreeConcat(head, tail);
  }

  lemma {:induction false} PlaceholdersShow(pieces: seq<Piece>, binds: seq<BindValue>, order: seq<nat>)
    requires Within(pieces, |binds|) && Occurrences(pieces) != []
    ensures '?' in Fill(pieces, MariaDbTokens(binds))
    ensures HasDollarDigit(Fill(pieces, PostgresTokens(order, binds)))
  {
    var init, last := pieces[..|pieces| - 1], pieces[|pieces| - 1];
    var a, b := Fill(init, MariaDbTokens(binds)), Fill(init, PostgresTokens(order, binds));
    if last.Value? {
      MariaDbTokenShape(binds[last.index]);
      var text := b + PostgresToken(NumberOf(order, last.index), binds[last.index]);
      assert text[|b|] == '$' && IsDigit(text[|b| + 1]);
      assert DollarDigit(text, |b|);
    } else {
      PlaceholdersShow(init, binds, order);
      var i :| 0 <= i < |b| && DollarDigit(b, i);
      assert DollarDigit(b + last.text, i);
    }
  }

  // What each route answers, in terms of the resolved statement.
  ghost predicate Answers(text: string, values: seq<BindValue>, r: Result<(string, seq<MariaDbValue>), Error>) {
    if EachFinite(values) then r.Success? && r.value.0 == text && r.value.1 == Converted(values) else r == Failure(NonFinite)
  }

  lemma RewritesAnswer(sql: string, binds: seq<BindValue>, scanned: Scanned, values: seq<BindValue>,
    r: Result<(string, seq<MariaDbValue>), Error>)
    requires Scan(sql, None, |binds|) == Success(scanned) && Rewrites(sql, binds, r)
    requires (forall n <- scanned.uses :: n < |binds|) && Select(binds, scanned.uses) == values
    ensures Answers(scanned.text, values, r)
  {
  }

  lemma PostgresRoute(sql: string, binds: seq<BindValue>, pieces: seq<Piece>, bound: BoundSql,
    r: Result<(string, seq<MariaDbValue>), Error>)
    requires Clean(sql) && |sql| < 0x1_0000_0000_0000_0000
    requires Resolved(sql, |binds|) == Success(pieces) && Within(pieces, |binds|)
    requires BindsTo(pieces, binds, Postgres, bound) && Prepares(bound.sql, bound.binds, r)
    ensures (forall x <- Occurrences(pieces) :: x < |binds|)
    ensures Answers(Fill(pieces, ReplacementTokens(binds)), Select(binds, Occurrences(pieces)), r)
  {
    var uses := Occurrences(pieces);
    var order := FirstUses(uses);
    OccurrencesWithin(pieces, |binds|);
    FewParameters(sql, 0, EMPTY, |binds|, pieces);
    ScanFilled(sql, 0, EMPTY, binds, order, pieces);
    SelectThrough(binds, order, uses);
    assert !IsNative(bound.sql, bound.binds) by {
      if uses != [] {
        PlaceholdersShow(pieces, binds, order);
      }
    }
    var scanned := Scan(bound.sql, None, |bound.binds|).value;
    RewritesAnswer(bound.sql, bound.binds, scanned, Select(binds, uses), r);
  }

  // ---- Text in native style that looks like the other one ------------------------

  lemma {:induction false} QuotesEndInQuotes(sql: string, i: nat, quote: char)
    requires i <= |sql| && QuoteEnd(sql, i, quote) < |sql|
    ensures var end := QuoteEnd(sql, i, quote); end > i && sql[end - 1] == quote
    decreases |sql| - i
  {
    if sql[i] != quote {
      QuotesEndInQuotes(sql, i + 1, quote);
    } else if i + 1 < |sql| && sql[i + 1] == quote {
      QuotesEndInQuotes(sql, i + 2, quote);
    }
  }

  lemma PlaceholdersHoldNoDollar(sql: string, i: nat)
    requires i < |sql|
    ensures NextLexeme(sql, i).0.Placeholder? ==> forall j | i <= j < NextLexeme(sql, i).1 :: sql[j] != '$'
  {
  }

  // In a clean source a dollar and a digit stand within one quoted lexeme.
  lemma DollarsAreQuoted(sql: string, i: nat, j: nat)
    requires i < |sql| && CleanAt(sql, i) && i <= j < NextLexeme(sql, i).1 && DollarDigit(sql, j)
    ensures NextLexeme(sql, i).0.Verbatim? && j + 1 < NextLexeme(sql, i).1
  {
    var (lexeme, next) := NextLexeme(sql, i);
    PlaceholdersHoldNoDollar(sql, i);
    if (sql[i] == '\'' || sql[i] == '"') && j + 1 == next {
      QuotesEndInQuotes(sql, i + 1, sql[i]);
    }
  }

  lemma ShiftedDollar(head: string, tail: string, k: nat)
    ensures DollarDigit(tail, k) ==> HasDollarDigit(head + tail)
    ensures DollarDigit(head, k) ==> HasDollarDigit(head + tail)
  {
    if DollarDigit(tail, k) {
      assert DollarDigit(head + tail, |head| + k);
    }
    if DollarDigit(head, k) {
      assert DollarDigit(head + tail, k);
    }
  }

  lemma LexemeKeepsDollar(sql: string, i: nat, j: nat, tail: string)
    requires i < |sql| && CleanAt(sql, i) && i <= j < NextLexeme(sql, i).1 && DollarDigit(sql, j)
    ensures NextLexeme(sql, i).0.Verbatim? && HasDollarDigit(NextLexeme(sql, i).0.text + tail)
  {
    DollarsAreQuoted(sql, i, j);
    ShiftedDollar(NextLexeme(sql, i).0.text, tail, j - i);
  }

  lemma TailKeepsDollar(head: string, tail: string)
    requires HasDollarDigit(tail)
    ensures HasDollarDigit(head + tail)
  {
    var k :| 0 <= k < |tail| && DollarDigit(tail, k);
    ShiftedDollar(head, tail, k);
  }

  lemma {:induction false} NativeTextKeepsDollar(sql: string, i: nat, scope: Scope, binds: seq<BindValue>,
    pieces: seq<Piece>, j: nat)
    requires i <= |sql| && CleanFrom(sql, i) && Resolve(Lexemes(sql, i), scope, |binds|) == Success(pieces)
    requires Within(pieces, |binds|) && i <= j && DollarDigit(sql, j)
    ensures HasDollarDigit(Fill(pieces, MariaDbTokens(binds)))
    decreases |sql| - i
  {
    FirstPiece(sql, i, scope, binds, pieces);
    var p, rest := pieces[0], pieces[1..];
    assert pieces == [p] + rest;
    FillFront(p, rest, MariaDbTokens(binds));
    var lexeme, next := NextLexeme(sql, i).0, NextLexeme(sql, i).1;
    var head := if p.Text? then p.text else MariaDbTokens(binds)[p.index];
    var tail := Fill(rest, MariaDbTokens(binds));
    if j >= next {
      var inner := if lexeme.Verbatim? then scope else ResolveName(scope, lexeme.name).0;
      NativeTextKeepsDollar(sql, next, inner, binds, rest, j);
      TailKeepsDollar(head, tail);
    } else {
      LexemeKeepsDollar(sql, i, j, tail);
    }
  }

  lemma {:induction false} ScanPlain(token: string, rest: string, count: nat)
    requires forall c <- token :: !IsQuote(c) && c != '$'
    ensures Scan(token + rest, None, count) == Precede(token, [], Scan(rest, None, count))
  {
    if token == "" {
      assert token + rest == rest;
      PrecedeTwice("", [], "", [], Scan(rest, None, count));
    } else {
      var s, more := token + rest, token[1..];
      assert token[0] in token && s[0] == token[0] && NextStep(s, None, count) == Copy(1, None);
      assert s[..1] == token[..1] && s[1..] == more + rest;
      ScanPlain(more, rest, count);
      PrecedeTwice(token[..1], [], more, [], Scan(rest, None, count));
      assert token[..1] + more == token;
    }
  }

  lemma TokenIsPlain(value: BindValue)
    ensures var token := MariaDbToken(value);
      (token[0] == '?' || token[0] == 'C') && forall c <- token :: !IsQuote(c) && c != '$'
  {
  }

  // The pass over the text copies all of it.
  ghost predicate ScansToItself(text: string, count: nat) {
    Scan(text, None, count) == Success(Scanned(text, []))
  }

  lemma ScansOn(head: string, tail: string, count: nat)
    requires Scan(head + tail, None, count) == Precede(head, [], Scan(tail, None, count)) && ScansToItself(tail, count)
    ensures ScansToItself(head + tail, count)
  {
    var none: seq<nat> := [];
    assert none + none == none;
  }

  // The pass over native text finds nothing in it.
  lemma {:induction false} ScanNative(sql: string, i: nat, scope: Scope, binds: seq<BindValue>, pieces: seq<Piece>,
    count: nat)
    requires i <= |sql| && CleanFrom(sql, i) && Resolve(Lexemes(sql, i), scope, |binds|) == Success(pieces)
    requires Within(pieces, |binds|)
    ensures var text := Fill(pieces, MariaDbTokens(binds));
      GoesOn(sql, i, text) && ScansToItself(text, count)
    decreases |sql| - i
  {
    if i < |sql| {
      FirstPiece(sql, i, scope, binds, pieces);
      var p, rest := pieces[0], pieces[1..];
      assert pieces == [p] + rest;
      FillFront(p, rest, MariaDbTokens(binds));
      var lexeme, next := NextLexeme(sql, i).0, NextLexeme(sql, i).1;
      var tail := Fill(rest, MariaDbTokens(binds));
      if lexeme.Verbatim? {
        ScanNative(sql, next, scope, binds, rest, count);
        ScanVerbatim(sql, i, tail, count);
        ScansOn(p.text, tail, count);
      } else {
        ScanNative(sql, next, ResolveName(scope, lexeme.name).0, binds, rest, count);
        TokenIsPlain(binds[p.index]);
        ScanPlain(MariaDbToken(binds[p.index]), tail, count);
        ScansOn(MariaDbToken(binds[p.index]), tail, count);
      }
    }
  }

  // ---- The native route ---------------------------------------------------------------

  lemma NativeRoute(sql: string, binds: seq<BindValue>, pieces: seq<Piece>, bound: BoundSql,
    r: Result<(string, seq<MariaDbValue>), Error>)
    requires !HasDollarDigit(sql) && Resolved(sql, |binds|) == Success(pieces) && Within(pieces, |binds|)
    requires Occurrences(pieces) != []
    requires BindsTo(pieces, binds, MariaDb, bound) && Prepares(bound.sql, bound.binds, r)
    ensures (forall x <- Occurrences(pieces) :: x < |binds|)
    ensures Answers(Fill(pieces, MariaDbTokens(binds)), Select(binds, Occurrences(pieces)), r)
  {
    OccurrencesWithin(pieces, |binds|);
    PlaceholdersShow(pieces, binds, []);
    NativeTextIsFree(sql, 0, EMPTY, binds, pieces);
    assert |bound.binds| == |Occurrences(pieces)|;
    NativeAnswers(bound.sql, bound.binds, r);
  }

  lemma NativeAnswers(sql: string, binds: seq<BindValue>, r: Result<(string, seq<MariaDbValue>), Error>)
    requires Free(sql) && '?' in sql && binds != [] && Prepares(sql, binds, r)
    ensures Answers(sql, binds, r)
  {
  }

  lemma NothingScanned(sql: string, binds: seq<BindValue>, r: Result<(string, seq<MariaDbValue>), Error>)
    requires HasDollarDigit(sql) && Prepares(sql, binds, r)
    requires Scan(sql, None, |binds|) == Success(Scanned(sql, []))
    ensures r == Success((sql, []))
  {
    assert Select(binds, []) == [] && Converted([]) == [];
  }

  // A dollar and a digit anywhere, a literal included, and native text is not
  // taken for native: its markers are copied and every value is dropped.
  lemma ValuesAreDropped(sql: string, binds: seq<BindValue>, pieces: seq<Piece>, bound: BoundSql,
    r: Result<(string, seq<MariaDbValue>), Error>)
    requires Clean(sql) && HasDollarDigit(sql)
    requires Resolved(sql, |binds|) == Success(pieces) && Within(pieces, |binds|)
    requires BindsTo(pieces, binds, MariaDb, bound) && Prepares(bound.sql, bound.binds, r)
    ensures r == Success((bound.sql, []))
  {
    var j :| 0 <= j < |sql| && DollarDigit(sql, j);
    NativeTextKeepsDollar(sql, 0, EMPTY, binds, pieces, j);
    ScanNative(sql, 0, EMPTY, binds, pieces, |bound.binds|);
    NothingScanned(bound.sql, bound.binds, r);
  }

  lemma {:induction false} CopyOneMore(s: string, quote: Option<char>, count: nat, n: nat, after: Option<char>, rest: string)
    requires s != "" && NextStep(s, quote, count) == Copy(n, after) && rest == s[n..]
    requires Scan(rest, after, count) == Success(Scanned(rest, []))
    ensures Scan(s, quote, count) == Success(Scanned(s, []))
  {
    var none: seq<nat> := [];
    assert s[..n] + rest == s && none + none == none;
  }

  lemma {:induction false} NoDollarAfter(s: string, n: nat)
    requires !HasDollarDigit(s) && n <= |s|
    ensures !HasDollarDigit(s[n..])
  {
    assert forall i | 0 <= i < |s[n..]| :: DollarDigit(s[n..], i) ==> DollarDigit(s, i + n);
  }

  lemma {:induction false} CopiesToItself(s: string, quote: Option<char>, count: nat)
    requires !HasDollarDigit(s)
    ensures Scan(s, quote, count) == Success(Scanned(s, []))
    decreases |s|
  {
    if s != "" {
      assert !DollarDigit(s, 0);
      var step := NextStep(s, quote, count);
      NoDollarAfter(s, step.length);
      CopiesToItself(s[step.length..], step.quote, count);
      CopyOneMore(s, quote, count, step.length, step.quote, s[step.length..]);
    }
  }

  // Text without parameters keeps its text, and all its values if a marker is
  // there to take them, but none otherwise.
  lemma {:induction false} TextWithoutParameters(sql: string, binds: seq<BindValue>, r: Result<(string, seq<MariaDbValue>), Error>)
    requires !HasDollarDigit(sql) && Prepares(sql, binds, r)
    ensures '?' !in sql ==> r == Success((sql, []))
    ensures '?' in sql ==> r == if EachFinite(binds) then Success((sql, Converted(binds))) else Failure(NonFinite)
  {
    CopiesToItself(sql, None, |binds|);
    if !IsNative(sql, binds) {
      assert Select(binds, []) == [] && Converted(Select(binds, [])) == [];
      if binds == [] {
        assert Converted(binds) == [];
      }
    }
  }

  // One such source: the literal '$5' and a placeholder.
  lemma DollarInLiteral()
    ensures var sql := "'$5':a";
      && Clean(sql) && HasDollarDigit(sql)
      && Resolved(sql, 1) == Success([Text("'$5'"), Value(0)])
  {
    var sql := "'$5':a";
    assert DollarDigit(sql, 1);
    QuotedFive(sql);
    assert WordEnd(sql, 6) == 6 && WordEnd(sql, 5) == 6;
    assert sql[5..6] == "a" && NextLexeme(sql, 4) == (Placeholder("a"), 6);
    assert CleanFrom(sql, 6) && CleanFrom(sql, 4);
    assert Lexemes(sql, 6) == [] && Lexemes(sql, 4) == [Placeholder("a")] + Lexemes(sql, 6);
    assert Lexemes(sql, 0) == [Verbatim("'$5'")] + Lexemes(sql, 4);
    TwoPieces("'$5'", "a");
  }

  lemma TwoPieces(text: string, name: string)
    requires !AllDigits(name)
    ensures Resolve([Verbatim(text), Placeholder(name)], EMPTY, 1) == Success([Text(text), Value(0)])
  {
    var all := [Verbatim(text), Placeholder(name)];
    var scope := ResolveName(EMPTY, name).0;
    assert ResolveName(EMPTY, name).1 == Some(0);
    assert all[1..] == [Placeholder(name)] && all[1..][1..] == [];
    assert Resolve(all[1..][1..], scope, 1) == Success([]);
    assert [Value(0)] + [] == [Value(0)] && [Text(text)] + [Value(0)] == [Text(text), Value(0)];
    assert Resolve(all[1..], EMPTY, 1) == Success([Value(0)]);
  }

  lemma QuotedFive(sql: string)
    requires sql == "'$5':a"
    ensures NextLexeme(sql, 0) == (Verbatim("'$5'"), 4)
  {
    assert QuoteEnd(sql, 3, '\'') == 4;
    assert QuoteEnd(sql, 2, '\'') == 4;
    assert QuoteEnd(sql, 1, '\'') == 4;
    assert sql[0..4] == "'$5'";
  }

  lemma NoPlaceholders(pieces: seq<Piece>, binds: seq<BindValue>, postgres: BoundSql, native: BoundSql)
    requires Within(pieces, |binds|) && Occurrences(pieces) == []
    requires BindsTo(pieces, binds, Postgres, postgres) && BindsTo(pieces, binds, MariaDb, native)
    ensures native == postgres
  {
    FillDependsOnUses(pieces, PostgresTokens([], binds), MariaDbTokens(binds));
  }

  // Both succeed, with the same values in the same order, or both fail.
  predicate SameValues(a: Result<(string, seq<MariaDbValue>), Error>, b: Result<(string, seq<MariaDbValue>), Error>) {
    (a.Success? <==> b.Success?) && (a.Success? ==> a.value.1 == b.value.1)
  }

  // Both routes bind the same values exactly if no value is used or the source
  // has no dollar before a digit, not even within a literal. Then their texts
  // are the same exactly when no bind used is a timestamp, which the first
  // route casts to text and the second does not.
  lemma RoutesAgree(sql: string, binds: seq<BindValue>, pieces: seq<Piece>, postgres: BoundSql, native: BoundSql,
    a: Result<(string, seq<MariaDbValue>), Error>, b: Result<(string, seq<MariaDbValue>), Error>)
    requires Clean(sql) && |sql| < 0x1_0000_0000_0000_0000
    requires Resolved(sql, |binds|) == Success(pieces) && Within(pieces, |binds|)
    requires BindsTo(pieces, binds, Postgres, postgres) && Prepares(postgres.sql, postgres.binds, a)
    requires BindsTo(pieces, binds, MariaDb, native) && Prepares(native.sql, native.binds, b)
    ensures forall x <- Occurrences(pieces) :: x < |binds|
    ensures var values := Select(binds, Occurrences(pieces));
      && (a.Success? <==> EachFinite(values)) && (a.Success? ==> a.value.1 == Converted(values))
      && (SameValues(a, b) <==> Occurrences(pieces) == [] || !HasDollarDigit(sql))
      && (SameValues(a, b) && a.Success? ==> (a.value.0 == b.value.0 <==> NoTimestamp(values)))
      && (!SameValues(a, b) ==> b == Success((native.sql, [])))
  {
    PostgresRoute(sql, binds, pieces, postgres, a);
    ReplacedText(pieces, binds);
    if Occurrences(pieces) == [] {
      NoPlaceholders(pieces, binds, postgres, native);
      PostgresRoute(sql, binds, pieces, postgres, b);
    } else if !HasDollarDigit(sql) {
      NativeRoute(sql, binds, pieces, native, b);
    } else {
      ValuesAreDropped(sql, binds, pieces, native, b);
      assert |Select(binds, Occurrences(pieces))| > 0;
    }
  }

  // There are no more parameters than characters.
  lemma FewParameters(sql: string, i: nat, scope: Scope, count: nat, pieces: seq<Piece>)
    requires i <= |sql| && Resolve(Lexemes(sql, i), scope, count) == Success(pieces)
    ensures |FirstUses(Occurrences(pieces))| <= |sql| - i
  {
    ResolveStaysWithin(Lexemes(sql, i), scope, count);
    FewLexemes(sql, i);
    FewOccurrences(pieces);
    FewFirstUses(Occurrences(pieces));
  }

  lemma {:induction false} FewLexemes(sql: string, i: nat)
    requires i <= |sql|
    ensures |Lexemes(sql, i)| <= |sql| - i
    decreases |sql| - i
  {
    if i < |sql| {
      FewLexemes(sql, NextLexeme(sql, i).1);
    }
  }

  lemma {:induction false} FewOccurrences(pieces: seq<Piece>)
    ensures |Occurrences(pieces)| <= |pieces|
  {
    if pieces != [] {
      FewOccurrences(pieces[..|pieces| - 1]);
    }
  }

  lemma {:induction false} FewFirstUses(uses: seq<nat>)
    ensures |FirstUses(uses)| <= |uses|
  {
    if uses != [] {
      FewFirstUses(uses[..|uses| - 1]);
    }
  }
}
