/** MariaDB's own placeholder pass over PostgreSQL-shaped SQL. */
module MariaDbBinds {
  import opened Wrappers
  import opened Characters
  import opened BindSyntax
  import opened BindRewriting
  import opened MariaDbValues

  datatype Cast = CastText | CastNumeric | CastBytea | CastTimestamptz | CastTimestamp | CastBoolean | CastDouble
                | CastInteger | CastBigint | CastDecimal

  // In the order they are tried.
  const CASTS: seq<(string, Cast)> := [
    ("text", CastText), ("numeric", CastNumeric), ("bytea", CastBytea), ("timestamptz", CastTimestamptz),
    ("timestamp", CastTimestamp), ("boolean", CastBoolean), ("double precision", CastDouble),
    ("integer", CastInteger), ("bigint", CastBigint), ("decimal", CastDecimal)]

  // ---- Cast chains ----------------------------------------------------------

  predicate StartsWithIgnoringCase(s: string, word: string) {
    |word| <= |s| && UpperCase(s[..|word|]) == UpperCase(word)
  }

  // The first type in the list that `s` starts with.
  function FindCast(s: string, casts: seq<(string, Cast)>): Option<(string, Cast)> {
    if casts == [] then None
    else if StartsWithIgnoringCase(s, casts[0].0) then Some(casts[0])
    else FindCast(s, casts[1..])
  }

  lemma {:induction false} FoundIsPrefix(s: string, casts: seq<(string, Cast)>)
    ensures FindCast(s, casts).Some? ==> |FindCast(s, casts).value.0| <= |s|
  {
    if casts != [] {
      FoundIsPrefix(s, casts[1..]);
    }
  }

  // `::` and a known type at the start of `s`: the type, and what follows it.
  function NextCast(s: string): (r: Option<(Cast, string)>)
    ensures r.Some? ==> |r.value.1| < |s|
  {
    if !("::" <= s) then None
    else
      var after := TrimStart(s[2..]);
      TrimStartShortens(s[2..]);
      FoundIsPrefix(after, CASTS);
      match FindCast(after, CASTS)
      case None => None
      case Some((name, cast)) => Some((cast, after[|name|..]))
  }

  // A cast chain and what follows it.
  datatype Chain = Chain(casts: seq<Cast>, rest: string)

  function After(casts: seq<Cast>, c: Chain): Chain {
    Chain(casts + c.casts, c.rest)
  }

  function CastsOf(s: string): Chain
    decreases |s|
  {
    match NextCast(s)
    case None => Chain([], s)
    case Some((cast, rest)) => After([cast], CastsOf(rest))
  }

  lemma AfterTwice(a: seq<Cast>, b: seq<Cast>, c: Chain)
    ensures After(a, After(b, c)) == After(a + b, c)
    ensures After([], c) == c
  {
    assert a + (b + c.casts) == a + b + c.casts;
  }

  predicate IsNumeric(c: Cast) {
    c.CastNumeric? || c.CastDouble? || c.CastInteger? || c.CastBigint? || c.CastDecimal?
  }

  function Replacement(casts: seq<Cast>): string {
    if casts == [] then "?"
    else if CastBytea in casts then "CAST(? AS BINARY)"
    else if casts[0] == CastText && !(exists c <- casts :: IsNumeric(c)) then "CAST(? AS CHAR(4000))"
    else "?"
  }

  lemma ChainStep(casts: seq<Cast>, s: string, cast: Cast, tail: string)
    requires NextCast(s) == Some((cast, tail))
    ensures After(casts, CastsOf(s)) == After(casts + [cast], CastsOf(tail))
  {
    AfterTwice(casts, [cast], CastsOf(tail));
  }

  method CastAt(sql: string, at: nat) returns (r: Option<(Cast, nat)>)
    requires at <= |sql|
    ensures r.None? <==> NextCast(sql[at..]).None?
    ensures r.Some? ==> at < r.value.1 <= |sql| && NextCast(sql[at..]) == Some((r.value.0, sql[r.value.1..]))
  {
    var rest := sql[at..];
    var next := NextCast(rest);
    if next.None? {
      return None;
    }
    NextCastIsSuffix(rest);
    var tail := next.value.1;
    var cur := at + |rest| - |tail|;
    assert sql[cur..] == tail;
    r := Some((next.value.0, cur));
  }

  method ConsumePgCastChain(sql: string, at: nat) returns (replacement: string, cur: nat)
    requires at <= |sql|
    ensures at <= cur <= |sql|
    ensures replacement == Replacement(CastsOf(sql[at..]).casts) && sql[cur..] == CastsOf(sql[at..]).rest
  {
    cur := at;
    var casts := [];
    ghost var whole := CastsOf(sql[at..]);
    AfterTwice([], [], whole);
    while true
      invariant at <= cur <= |sql|
      invariant whole == After(casts, CastsOf(sql[cur..]))
      decreases |sql| - cur
    {
      var next := CastAt(sql, cur);
      if next.None? {
        break;
      }
      ChainStep(casts, sql[cur..], next.value.0, sql[next.value.1..]);
      casts, cur := casts + [next.value.0], next.value.1;
    }
    assert casts + [] == casts;
    replacement := Replacement(casts);
  }

  lemma NextCastIsSuffix(s: string)
    ensures var r := NextCast(s); r.Some? ==> r.value.1 == s[|s| - |r.value.1|..]
  {
    if "::" <= s {
      TrimStartShortens(s[2..]);
      FoundIsPrefix(TrimStart(s[2..]), CASTS);
    }
  }

  // ---- The placeholder pass ---------------------------------------------------

  function DigitEnd(s: string, i: nat): (end: nat)
    requires i <= |s|
    ensures i <= end <= |s| && (forall k | i <= k < end :: IsDigit(s[k])) && (end < |s| ==> !IsDigit(s[end]))
    decreases |s| - i
  {
    if i == |s| || !IsDigit(s[i]) then i else DigitEnd(s, i + 1)
  }

  // `parse().unwrap_or(0)`.
  function ParameterNumber(s: string): nat
    requires AllDigits(s)
  {
    match ParseUsize(s)
    case None => 0
    case Some(n) => n
  }

  predicate IsQuote(c: char) {
    c == '\'' || c == '"' || c == '`'
  }

  predicate DollarDigit(s: string, i: nat) {
    i + 1 < |s| && s[i] == '$' && IsDigit(s[i + 1])
  }

  predicate HasDollarDigit(s: string) {
    exists i | 0 <= i < |s| :: DollarDigit(s, i)
  }

  // What one turn of the loop does with the rest of the statement.
  datatype Step =
    | Copy(length: nat, quote: Option<char>)
    | Parameter(index: nat, replacement: string, rest: string)
    | Unknown(number: nat)

  function ParameterStep(s: string, count: nat): (r: Step)
    requires DollarDigit(s, 0)
    ensures !r.Copy? && (r.Parameter? ==> |r.rest| < |s| && r.index < count)
  {
    var j := DigitEnd(s, 1);
    var n := ParameterNumber(s[1..j]);
    CastsShorten(s[j..]);
    if n == 0 || n > count then Unknown(n)
    else Parameter(n - 1, Replacement(CastsOf(s[j..]).casts), CastsOf(s[j..]).rest)
  }

  function NextStep(s: string, quote: Option<char>, count: nat): (r: Step)
    requires s != ""
    ensures r.Copy? ==> 0 < r.length <= |s|
    ensures r.Parameter? ==> |r.rest| < |s| && r.index < count
  {
    if quote.Some? then
      if s[0] == quote.value && |s| > 1 && s[1] == s[0] then Copy(2, quote)
      else Copy(1, if s[0] == quote.value then None else quote)
    else if IsQuote(s[0]) then Copy(1, Some(s[0]))
    else if DollarDigit(s, 0) then ParameterStep(s, count)
    else Copy(1, None)
  }

  // The rewritten text and the binds it refers to, in order.
  datatype Scanned = Scanned(text: string, uses: seq<nat>)

  function Precede(text: string, uses: seq<nat>, r: Result<Scanned, Error>): Result<Scanned, Error> {
    match r
    case Failure(e) => Failure(e)
    case Success(s) => Success(Scanned(text + s.text, uses + s.uses))
  }

  // The pass over what is left of a statement when `quote` is open.
  function Scan(s: string, quote: Option<char>, count: nat): Result<Scanned, Error>
    decreases |s|
  {
    if s == "" then Success(Scanned("", []))
    else match NextStep(s, quote, count)
      case Copy(n, after) => Precede(s[..n], [], Scan(s[n..], after, count))
      case Parameter(index, replacement, rest) => Precede(replacement, [index], Scan(rest, None, count))
      case Unknown(n) => Failure(UnknownParameter(n))
  }

  predicate UsesBelow(r: Result<Scanned, Error>, count: nat) {
    r.Success? ==> forall n <- r.value.uses :: n < count
  }

  lemma PrecedeWithin(text: string, uses: seq<nat>, r: Result<Scanned, Error>, count: nat)
    requires UsesBelow(r, count) && forall n <- uses :: n < count
    ensures UsesBelow(Precede(text, uses, r), count)
  {
  }

  lemma {:induction false} UsesWithin(s: string, quote: Option<char>, count: nat)
    ensures UsesBelow(Scan(s, quote, count), count)
    decreases |s|
  {
    if s != "" {
      match NextStep(s, quote, count)
      case Copy(n, after) =>
        UsesWithin(s[n..], after, count);
        PrecedeWithin(s[..n], [], Scan(s[n..], after, count), count);
      case Parameter(index, replacement, rest) =>
        UsesWithin(rest, None, count);
        PrecedeWithin(replacement, [index], Scan(rest, None, count), count);
      case Unknown(n) =>
    }
  }

  lemma {:induction false} CastsShorten(s: string)
    ensures |CastsOf(s).rest| <= |s|
    decreases |s|
  {
    match NextCast(s)
    case None =>
    case Some((cast, rest)) => CastsShorten(rest);
  }

  predicate IsNative(sql: string, binds: seq<BindValue>) {
    !HasDollarDigit(sql) && '?' in sql && binds != []
  }

  method ConvertAll(binds: seq<BindValue>) returns (r: Result<seq<MariaDbValue>, Error>)
    ensures r == if EachFinite(binds) then Success(Converted(binds)) else Failure(NonFinite)
  {
    var params := [];
    var k := 0;
    while k < |binds|
      invariant 0 <= k <= |binds| && EachFinite(binds[..k]) && params == Converted(binds[..k])
    {
      assert binds[..k + 1] == binds[..k] + [binds[k]];
      if !Finite(binds[k]) {
        return Failure(NonFinite);
      }
      ConvertedOneMore(binds[..k], binds[k]);
      params := params + [ValueOf(binds[k])];
      k := k + 1;
    }
    assert binds[..k] == binds;
    r := Success(params);
  }

  ghost predicate Rewrites(sql: string, binds: seq<BindValue>, r: Result<(string, seq<MariaDbValue>), Error>) {
    UsesWithin(sql, None, |binds|);
    match Scan(sql, None, |binds|)
    case Failure(e) => r.Failure? && (r.error == e || r.error == NonFinite)
    case Success(scanned) =>
      var values := Select(binds, scanned.uses);
      r == if EachFinite(values) then Success((scanned.text, Converted(values))) else Failure(NonFinite)
  }

  // What the pass answers: text already carrying `?` is taken as it is.
  ghost predicate Prepares(sql: string, binds: seq<BindValue>, r: Result<(string, seq<MariaDbValue>), Error>) {
    if IsNative(sql, binds) then
      r == if EachFinite(binds) then Success((sql, Converted(binds))) else Failure(NonFinite)
    else Rewrites(sql, binds, r)
  }

  lemma PrecedeTwice(text: string, uses: seq<nat>, more: string, others: seq<nat>, r: Result<Scanned, Error>)
    ensures Precede(text, uses, Precede(more, others, r)) == Precede(text + more, uses + others, r)
    ensures Precede("", [], r) == r
  {
    if r.Success? {
      assert text + (more + r.value.text) == text + more + r.value.text;
      assert uses + (others + r.value.uses) == uses + others + r.value.uses;
      assert "" + r.value.text == r.value.text && [] + r.value.uses == r.value.uses;
    }
  }

  method ScanDigits(sql: string, i: nat) returns (j: nat)
    requires i < |sql| && DollarDigit(sql, i)
    ensures i < j <= |sql| && DigitEnd(sql[i..], 1) == j - i
    ensures sql[i..][1..j - i] == sql[i + 1..j] && sql[i..][j - i..] == sql[j..]
    ensures forall k | i < k < j :: IsDigit(sql[k])
  {
    j := i + 1;
    ghost var s := sql[i..];
    while j < |sql| && IsDigit(sql[j])
      invariant i < j <= |sql| && DigitEnd(s, 1) == DigitEnd(s, j - i)
      invariant forall k | i < k < j :: IsDigit(sql[k])
    {
      j := j + 1;
    }
  }

  lemma ParameterStepIs(s: string, j: nat, digits: string, tail: string, count: nat)
    requires DollarDigit(s, 0) && j == DigitEnd(s, 1) && digits == s[1..j] && tail == s[j..]
    ensures var n := ParameterNumber(digits);
      NextStep(s, None, count) ==
        if n == 0 || n > count then Unknown(n) else Parameter(n - 1, Replacement(CastsOf(tail).casts), CastsOf(tail).rest)
  {
  }

  // What a parameter is read as, and what is left after it.
  ghost predicate ReadFrom(step: Step, r: Result<(nat, string), Error>, rest: string) {
    match r
    case Failure(e) => step.Unknown? && e == UnknownParameter(step.number)
    case Success((index, replacement)) => step == Parameter(index, replacement, rest)
  }

  method ScanParameter(sql: string, i: nat, count: nat) returns (r: Result<(nat, string), Error>, next: nat)
    requires i < |sql| && DollarDigit(sql, i)
    ensures i <= next <= |sql| && ReadFrom(NextStep(sql[i..], None, count), r, sql[next..])
  {
    var j := ScanDigits(sql, i);
    var n := ParameterNumber(sql[i + 1..j]);
    ParameterStepIs(sql[i..], j - i, sql[i + 1..j], sql[j..], count);
    if n == 0 || n > count {
      return Failure(UnknownParameter(n)), j;
    }
    var replacement;
    replacement, next := ConsumePgCastChain(sql, j);
    r := Success((n - 1, replacement));
  }

  method CopyStep(sql: string, i: nat, quote: Option<char>, ghost count: nat) returns (n: nat, after: Option<char>)
    requires i < |sql| && (quote.Some? || IsQuote(sql[i]) || !DollarDigit(sql, i))
    ensures i + n <= |sql| && NextStep(sql[i..], quote, count) == Copy(n, after)
  {
    var b := sql[i];
    n, after := 1, quote;
    if quote.Some? {
      if b == quote.value {
        if i + 1 < |sql| && sql[i + 1] == b {
          n := 2;
        } else {
          after := None;
        }
      }
    } else if IsQuote(b) {
      after := Some(b);
    }
  }

  lemma ScanCopies(sql: string, i: nat, quote: Option<char>, count: nat, n: nat, after: Option<char>, out: string, uses: seq<nat>)
    requires i < i + n <= |sql| && NextStep(sql[i..], quote, count) == Copy(n, after)
    ensures Precede(out, uses, Scan(sql[i..], quote, count)) == Precede(out + sql[i..i + n], uses, Scan(sql[i + n..], after, count))
  {
    assert sql[i..][..n] == sql[i..i + n] && sql[i..][n..] == sql[i + n..];
    PrecedeTwice(out, uses, sql[i..i + n], [], Scan(sql[i + n..], after, count));
    assert uses + [] == uses;
  }

  lemma ScanReplaces(sql: string, i: nat, count: nat, index: nat, replacement: string, next: nat, out: string, uses: seq<nat>)
    requires i < |sql| && next <= |sql| && NextStep(sql[i..], None, count) == Parameter(index, replacement, sql[next..])
    ensures Precede(out, uses, Scan(sql[i..], None, count)) == Precede(out + replacement, uses + [index], Scan(sql[next..], None, count))
  {
    PrecedeTwice(out, uses, replacement, [index], Scan(sql[next..], None, count));
  }

  method MariaDbPrepare(sql: string, binds: seq<BindValue>) returns (r: Result<(string, seq<MariaDbValue>), Error>)
    ensures Prepares(sql, binds, r)
  {
    if IsNative(sql, binds) {
      var params := ConvertAll(binds);
      if params.Failure? {
        return Failure(params.error);
      }
      return Success((sql, params.value));
    }
    r := RewriteParameters(sql, binds);
  }

  // The state of the loop against the pass as a whole.
  ghost predicate Reached(whole: Result<Scanned, Error>, rest: Result<Scanned, Error>, binds: seq<BindValue>,
    out: string, params: seq<MariaDbValue>, uses: seq<nat>)
  {
    && whole == Precede(out, uses, rest)
    && (forall n <- uses :: n < |binds|)
    && EachFinite(Select(binds, uses)) && params == Converted(Select(binds, uses))
  }

  // Why the pass gives up: a parameter it has no bind for, or a bad value.
  ghost predicate GivesUp(whole: Result<Scanned, Error>, binds: seq<BindValue>, e: Error) {
    match whole
    case Failure(f) => e == f || e == NonFinite
    case Success(scanned) =>
      (forall n <- scanned.uses :: n < |binds|) ==> e == NonFinite && !EachFinite(Select(binds, scanned.uses))
  }

  lemma UnknownFails(sql: string, i: nat, binds: seq<BindValue>, number: nat, out: string, params: seq<MariaDbValue>,
    uses: seq<nat>, whole: Result<Scanned, Error>)
    requires i < |sql| && NextStep(sql[i..], None, |binds|) == Unknown(number)
    requires Reached(whole, Scan(sql[i..], None, |binds|), binds, out, params, uses)
    ensures GivesUp(whole, binds, UnknownParameter(number))
  {
  }

  lemma ParameterKeeps(whole: Result<Scanned, Error>, rest: Result<Scanned, Error>, binds: seq<BindValue>,
    out: string, params: seq<MariaDbValue>, uses: seq<nat>, index: nat)
    requires whole == Precede(out, uses + [index], rest) && index < |binds| && Finite(binds[index])
    requires (forall n <- uses :: n < |binds|) && EachFinite(Select(binds, uses)) && params == Converted(Select(binds, uses))
    ensures Reached(whole, rest, binds, out, params + [ValueOf(binds[index])], uses + [index])
  {
    SelectOneMore(binds, uses, index);
    ConvertedOneMore(Select(binds, uses), binds[index]);
  }

  lemma Finishes(sql: string, binds: seq<BindValue>, quote: Option<char>, out: string, params: seq<MariaDbValue>, uses: seq<nat>)
    requires Reached(Scan(sql, None, |binds|), Scan("", quote, |binds|), binds, out, params, uses)
    ensures Rewrites(sql, binds, Success((out, params)))
  {
    assert out + "" == out && uses + [] == uses;
  }

  lemma GivenUp(sql: string, binds: seq<BindValue>, e: Error)
    requires GivesUp(Scan(sql, None, |binds|), binds, e)
    ensures Rewrites(sql, binds, Failure(e))
  {
    UsesWithin(sql, None, |binds|);
  }

  method ParameterTurn(sql: string, i: nat, binds: seq<BindValue>, outBefore: string, paramsBefore: seq<MariaDbValue>,
    ghost usesBefore: seq<nat>, ghost whole: Result<Scanned, Error>)
    returns (error: Option<Error>, out: string, params: seq<MariaDbValue>, ghost uses: seq<nat>, next: nat)
    requires i < |sql| && DollarDigit(sql, i) && !IsQuote(sql[i])
    requires Reached(whole, Scan(sql[i..], None, |binds|), binds, outBefore, paramsBefore, usesBefore)
    ensures error.Some? ==> GivesUp(whole, binds, error.value)
    ensures error.None? ==> i < next <= |sql| && Reached(whole, Scan(sql[next..], None, |binds|), binds, out, params, uses)
  {
    out, params, uses := outBefore, paramsBefore, usesBefore;
    var parameter;
    parameter, next := ScanParameter(sql, i, |binds|);
    if parameter.Failure? {
      UnknownFails(sql, i, binds, parameter.error.number, out, params, uses, whole);
      return Some(parameter.error), out, params, uses, next;
    }
    var (index, replacement) := parameter.value;
    ScanReplaces(sql, i, |binds|, index, replacement, next, out, uses);
    out := out + replacement;
    if !Finite(binds[index]) {
      LaterUsesKeep(uses, index, whole, Scan(sql[next..], None, |binds|), binds, out);
      return Some(NonFinite), out, params, uses, next;
    }
    ParameterKeeps(whole, Scan(sql[next..], None, |binds|), binds, out, params, uses, index);
    uses, params := uses + [index], params + [ValueOf(binds[index])];
    error := None;
  }

  method CopyTurn(sql: string, i: nat, quote: Option<char>, binds: seq<BindValue>, outBefore: string,
    ghost params: seq<MariaDbValue>, ghost uses: seq<nat>, ghost whole: Result<Scanned, Error>)
    returns (out: string, after: Option<char>, next: nat)
    requires i < |sql| && (quote.Some? || IsQuote(sql[i]) || !DollarDigit(sql, i))
    requires Reached(whole, Scan(sql[i..], quote, |binds|), binds, outBefore, params, uses)
    ensures i < next <= |sql| && Reached(whole, Scan(sql[next..], after, |binds|), binds, out, params, uses)
  {
    var n;
    n, after := CopyStep(sql, i, quote, |binds|);
    ScanCopies(sql, i, quote, |binds|, n, after, outBefore, uses);
    out, next := outBefore + sql[i..i + n], i + n;
  }

  method RewriteParameters(sql: string, binds: seq<BindValue>) returns (r: Result<(string, seq<MariaDbValue>), Error>)
    ensures Rewrites(sql, binds, r)
  {
    var out, params := "", [];
    var quote: Option<char> := None;
    var i := 0;
    ghost var uses: seq<nat> := [];
    ghost var whole := Scan(sql, None, |binds|);
    assert sql[0..] == sql;
    PrecedeTwice("", [], "", [], whole);
    while i < |sql|
      invariant 0 <= i <= |sql|
      invariant Reached(whole, Scan(sql[i..], quote, |binds|), binds, out, params, uses)
      decreases |sql| - i
    {
      if quote.None? && !IsQuote(sql[i]) && DollarDigit(sql, i) {
        var error;
        error, out, params, uses, i := ParameterTurn(sql, i, binds, out, params, uses, whole);
        if error.Some? {
          GivenUp(sql, binds, error.value);
          return Failure(error.value);
        }
      } else {
        out, quote, i := CopyTurn(sql, i, quote, binds, out, params, uses, whole);
      }
    }
    Finishes(sql, binds, quote, out, params, uses);
    r := Success((out, params));
  }

  lemma LaterUsesKeep(uses: seq<nat>, index: nat, whole: Result<Scanned, Error>, rest: Result<Scanned, Error>,
    binds: seq<BindValue>, text: string)
    requires whole == Precede(text, uses + [index], rest)
    requires (forall n <- uses :: n < |binds|) && index < |binds| && !Finite(binds[index])
    ensures whole.Success? && (forall n <- whole.value.uses :: n < |binds|) ==>
      !EachFinite(Select(binds, whole.value.uses))
  {
    if whole.Success? && forall n <- whole.value.uses :: n < |binds| {
      assert whole.value.uses[|uses|] == index;
      assert Select(binds, whole.value.uses)[|uses|] == binds[index];
    }
  }
}
