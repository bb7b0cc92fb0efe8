/** Which bind a placeholder means, told by the placeholders before it. */
module PlaceholderMeaning {
  import opened Wrappers
  import opened Characters
  import opened BindSyntax
  import opened BindRewriting

  // ---- The meaning ------------------------------------------------------------------

  predicate SameLetter(a: char, b: char) {
    a == b || ('a' <= a <= 'z' && b as int == a as int - 32) || ('a' <= b <= 'z' && a as int == b as int - 32)
  }

  // Names agree but for the case of their letters.
  predicate SameName(a: string, b: string) {
    |a| == |b| && forall i | 0 <= i < |a| :: SameLetter(a[i], b[i])
  }

  // A numeral that is no position: zero, or beyond 64 bits.
  predicate Malformed(name: string) {
    AllDigits(name) && (Decimal(name) == 0 || Decimal(name) >= 0x1_0000_0000_0000_0000)
  }

  predicate NamedAt(done: seq<Lexeme>, name: string, j: nat) {
    j < |done| && done[j].Placeholder? && !AllDigits(done[j].name) && SameName(done[j].name, name)
  }

  // The least index above all of those used.
  function Above(pieces: seq<Piece>): nat {
    if pieces == [] then 0
    else
      var last, rest := pieces[|pieces| - 1], Above(pieces[..|pieces| - 1]);
      if last.Value? && last.index >= rest then last.index + 1 else rest
  }

  // A numeral means its position. Any other name means what it meant before,
  // and at first sight the next index that nothing before it has used.
  ghost predicate Means(done: seq<Lexeme>, pieces: seq<Piece>, name: string, index: nat)
    requires |done| == |pieces|
  {
    if AllDigits(name) then index + 1 == Decimal(name)
    else if exists j: nat :: NamedAt(done, name, j) then
      exists j: nat :: NamedAt(done, name, j) && pieces[j] == Value(index)
    else index == Above(pieces)
  }

  ghost predicate MeansAt(lexemes: seq<Lexeme>, pieces: seq<Piece>, count: nat, k: nat)
    requires k < |lexemes| == |pieces|
  {
    match lexemes[k]
    case Verbatim(text) => pieces[k] == Text(text)
    case Placeholder(name) =>
      && pieces[k].Value? && pieces[k].index < count && !Malformed(name)
      && Means(lexemes[..k], pieces[..k], name, pieces[k].index)
  }

  // Every placeholder is well-formed and means a bind there is.
  ghost predicate AllMean(lexemes: seq<Lexeme>, pieces: seq<Piece>, count: nat) {
    |lexemes| == |pieces| && forall k | 0 <= k < |lexemes| :: MeansAt(lexemes, pieces, count, k)
  }

  // The first placeholder that is malformed or means a bind there is not.
  ghost predicate FailsAt(lexemes: seq<Lexeme>, n: nat, before: seq<Piece>, count: nat, e: Error) {
    && n < |lexemes| && AllMean(lexemes[..n], before, count)
    && lexemes[n].Placeholder?
    && var name := lexemes[n].name;
       if Malformed(name) then e == InvalidPlaceholder(name)
       else e == MissingValue(name) && exists index: nat :: index >= count && Means(lexemes[..n], before, name, index)
  }

  // ---- The resolution against it --------------------------------------------------------

  lemma {:induction false} AboveIs(pieces: seq<Piece>)
    ensures forall j | 0 <= j < |pieces| && pieces[j].Value? :: pieces[j].index < Above(pieces)
    ensures Above(pieces) == 0 || exists j :: 0 <= j < |pieces| && pieces[j] == Value(Above(pieces) - 1)
  {
    if pieces != [] {
      var init, n := pieces[..|pieces| - 1], |pieces| - 1;
      AboveIs(init);
      if Above(pieces) > 0 && pieces[n] == Value(Above(pieces) - 1) {
        assert pieces[n] == Value(Above(pieces) - 1);
      } else if Above(pieces) > 0 {
        var j :| 0 <= j < |init| && init[j] == Value(Above(init) - 1);
        assert pieces[j] == Value(Above(pieces) - 1);
      }
    }
  }

  lemma UpperCaseIgnoresCase(a: string, b: string)
    ensures UpperCase(a) == UpperCase(b) <==> SameName(a, b)
  {
    if |a| == |b| {
      assert forall i | 0 <= i < |a| :: Upper(a[i]) == Upper(b[i]) <==> SameLetter(a[i], b[i]);
      assert forall i | 0 <= i < |a| :: UpperCase(a)[i] == Upper(a[i]) && UpperCase(b)[i] == Upper(b[i]);
    }
  }

  // What the resolver keeps, against the lexemes it has passed.
  ghost predicate Fits(scope: Scope, done: seq<Lexeme>, pieces: seq<Piece>) {
    && |done| == |pieces|
    && (forall j | 0 <= j < |done| && done[j].Placeholder? && !AllDigits(done[j].name) ::
          UpperCase(done[j].name) in scope.named && pieces[j] == Value(scope.named[UpperCase(done[j].name)]))
    && (forall key <- scope.named :: exists j ::
          && 0 <= j < |done| && done[j].Placeholder? && !AllDigits(done[j].name)
          && UpperCase(done[j].name) == key)
    && scope.next == Above(pieces)
  }

  lemma KnownName(scope: Scope, done: seq<Lexeme>, pieces: seq<Piece>, name: string)
    requires Fits(scope, done, pieces) && !AllDigits(name)
    ensures UpperCase(name) in scope.named <==> exists j: nat :: NamedAt(done, name, j)
    ensures UpperCase(name) in scope.named ==>
      exists j: nat :: NamedAt(done, name, j) && pieces[j] == Value(scope.named[UpperCase(name)])
  {
    if UpperCase(name) in scope.named {
      var j :| 0 <= j < |done| && done[j].Placeholder? && !AllDigits(done[j].name) && UpperCase(done[j].name) == UpperCase(name);
      UpperCaseIgnoresCase(done[j].name, name);
      assert NamedAt(done, name, j);
    }
    if j: nat :| NamedAt(done, name, j) {
      UpperCaseIgnoresCase(done[j].name, name);
    }
  }

  lemma {:induction false} FitsNumeral(scope: Scope, done: seq<Lexeme>, pieces: seq<Piece>, name: string, index: nat, after: Scope)
    requires Fits(scope, done, pieces) && AllDigits(name)
    requires ResolveName(scope, name) == (after, Some(index))
    ensures Fits(after, done + [Placeholder(name)], pieces + [Value(index)])
  {
    var more, filled := done + [Placeholder(name)], pieces + [Value(index)];
    assert filled[..|pieces|] == pieces && after.named == scope.named;
    forall key | key in after.named
      ensures exists j :: 0 <= j < |more| && more[j].Placeholder? && !AllDigits(more[j].name) && UpperCase(more[j].name) == key
    {
      var j :| 0 <= j < |done| && done[j].Placeholder? && !AllDigits(done[j].name) && UpperCase(done[j].name) == key;
      assert more[j] == done[j];
    }
  }

  lemma {:induction false} FitsKnownName(scope: Scope, done: seq<Lexeme>, pieces: seq<Piece>, name: string)
    requires Fits(scope, done, pieces) && !AllDigits(name) && UpperCase(name) in scope.named
    ensures Fits(scope, done + [Placeholder(name)], pieces + [Value(scope.named[UpperCase(name)])])
  {
    var index := scope.named[UpperCase(name)];
    var more, filled := done + [Placeholder(name)], pieces + [Value(index)];
    assert filled[..|pieces|] == pieces;
    AboveIs(pieces);
    KnownName(scope, done, pieces, name);
    assert Above(filled) == scope.next;
    forall key | key in scope.named
      ensures exists j :: 0 <= j < |more| && more[j].Placeholder? && !AllDigits(more[j].name) && UpperCase(more[j].name) == key
    {
      var j :| 0 <= j < |done| && done[j].Placeholder? && !AllDigits(done[j].name) && UpperCase(done[j].name) == key;
      assert more[j] == done[j];
    }
  }

  lemma {:induction false} FitsNewName(scope: Scope, done: seq<Lexeme>, pieces: seq<Piece>, name: string)
    requires Fits(scope, done, pieces) && !AllDigits(name) && UpperCase(name) !in scope.named
    ensures Fits(Scope(scope.named[UpperCase(name) := scope.next], scope.next + 1), done + [Placeholder(name)],
      pieces + [Value(scope.next)])
  {
    var more, filled := done + [Placeholder(name)], pieces + [Value(scope.next)];
    assert filled[..|pieces|] == pieces;
    forall key | key in scope.named
      ensures exists j :: 0 <= j < |more| && more[j].Placeholder? && !AllDigits(more[j].name) && UpperCase(more[j].name) == key
    {
      var j :| 0 <= j < |done| && done[j].Placeholder? && !AllDigits(done[j].name) && UpperCase(done[j].name) == key;
      assert more[j] == done[j];
    }
    assert more[|done|] == Placeholder(name);
  }

  lemma {:induction false} FitsOneMore(scope: Scope, done: seq<Lexeme>, pieces: seq<Piece>, name: string, index: nat, after: Scope)
    requires Fits(scope, done, pieces)
    requires ResolveName(scope, name) == (after, Some(index))
    ensures Fits(after, done + [Placeholder(name)], pieces + [Value(index)])
  {
    if AllDigits(name) {
      FitsNumeral(scope, done, pieces, name, index, after);
    } else if UpperCase(name) in scope.named {
      FitsKnownName(scope, done, pieces, name);
    } else {
      FitsNewName(scope, done, pieces, name);
    }
  }

  lemma {:induction false} FitsText(scope: Scope, done: seq<Lexeme>, pieces: seq<Piece>, text: string)
    requires Fits(scope, done, pieces)
    ensures Fits(scope, done + [Verbatim(text)], pieces + [Text(text)])
  {
    var more, filled := done + [Verbatim(text)], pieces + [Text(text)];
    assert filled[..|pieces|] == pieces;
    forall key | key in scope.named
      ensures exists j :: 0 <= j < |more| && more[j].Placeholder? && !AllDigits(more[j].name) && UpperCase(more[j].name) == key
    {
      var j :| 0 <= j < |done| && done[j].Placeholder? && !AllDigits(done[j].name) && UpperCase(done[j].name) == key;
      assert more[j] == done[j];
    }
  }

  lemma NameMeans(scope: Scope, done: seq<Lexeme>, pieces: seq<Piece>, name: string)
    requires Fits(scope, done, pieces)
    ensures var index := ResolveName(scope, name).1;
      && (index.None? <==> Malformed(name))
      && (index.Some? ==> Means(done, pieces, name, index.value))
  {
    if !AllDigits(name) {
      KnownName(scope, done, pieces, name);
    }
  }

  lemma MeansOneMore(done: seq<Lexeme>, pieces: seq<Piece>, count: nat, l: Lexeme, p: Piece)
    requires AllMean(done, pieces, count)
    requires match l
      case Verbatim(text) => p == Text(text)
      case Placeholder(name) => p.Value? && p.index < count && !Malformed(name) && Means(done, pieces, name, p.index)
    ensures AllMean(done + [l], pieces + [p], count)
  {
    var more, filled := done + [l], pieces + [p];
    forall k | 0 <= k < |more|
      ensures MeansAt(more, filled, count, k)
    {
      assert more[..k] == done[..k] && filled[..k] == pieces[..k];
      if k < |done| {
        assert MeansAt(done, pieces, count, k);
      } else {
        assert done[..k] == done && pieces[..k] == pieces;
      }
    }
  }

  // What the rest of the resolution comes to, given what is done.
  ghost predicate Settles(done: seq<Lexeme>, pieces: seq<Piece>, rest: seq<Lexeme>, count: nat, r: Result<seq<Piece>, Error>) {
    match r
    case Success(more) => AllMean(done + rest, pieces + more, count)
    case Failure(e) => exists n: nat, before :: FailsAt(done + rest, n, before, count, e)
  }

  lemma FailsHere(done: seq<Lexeme>, pieces: seq<Piece>, name: string, rest: seq<Lexeme>, count: nat, e: Error)
    requires AllMean(done, pieces, count)
    requires if Malformed(name) then e == InvalidPlaceholder(name)
      else e == MissingValue(name) && exists index: nat :: index >= count && Means(done, pieces, name, index)
    ensures FailsAt(done + ([Placeholder(name)] + rest), |done|, pieces, count, e)
  {
    var all := done + ([Placeholder(name)] + rest);
    assert all[..|done|] == done && all[|done|] == Placeholder(name);
  }

  lemma {:induction false} ResolveSettles(done: seq<Lexeme>, pieces: seq<Piece>, rest: seq<Lexeme>, scope: Scope, count: nat)
    requires Fits(scope, done, pieces) && AllMean(done, pieces, count)
    ensures Settles(done, pieces, rest, count, Resolve(rest, scope, count))
    decreases |rest|
  {
    if rest == [] {
      assert done + rest == done && pieces + [] == pieces;
    } else {
      var l, tail := rest[0], rest[1..];
      assert rest == [l] + tail;
      match l
      case Verbatim(text) =>
        FitsText(scope, done, pieces, text);
        MeansOneMore(done, pieces, count, l, Text(text));
        ResolveSettles(done + [l], pieces + [Text(text)], tail, scope, count);
        SettlesOneMore(done, pieces, l, Text(text), tail, count, Resolve(tail, scope, count));
      case Placeholder(name) =>
        var (after, index) := ResolveName(scope, name);
        NameMeans(scope, done, pieces, name);
        if index.None? {
          FailsHere(done, pieces, name, tail, count, InvalidPlaceholder(name));
        } else if index.value >= count {
          FailsHere(done, pieces, name, tail, count, MissingValue(name));
        } else {
          FitsOneMore(scope, done, pieces, name, index.value, after);
          MeansOneMore(done, pieces, count, l, Value(index.value));
          ResolveSettles(done + [l], pieces + [Value(index.value)], tail, after, count);
          SettlesOneMore(done, pieces, l, Value(index.value), tail, count, Resolve(tail, after, count));
        }
    }
  }

  lemma SettlesOneMore(done: seq<Lexeme>, pieces: seq<Piece>, l: Lexeme, p: Piece, tail: seq<Lexeme>, count: nat,
    r: Result<seq<Piece>, Error>)
    requires Settles(done + [l], pieces + [p], tail, count, r)
    ensures Settles(done, pieces, [l] + tail, count, Prepend([p], r))
  {
    assert done + [l] + tail == done + ([l] + tail);
    if r.Success? {
      assert pieces + [p] + r.value == pieces + ([p] + r.value);
    }
  }

  // ---- Names ----------------------------------------------------------------------------

  lemma SameNameIsTransitive(a: string, b: string, c: string)
    requires SameName(a, b) && SameName(b, c)
    ensures SameName(a, c) && SameName(b, a)
  {
    UpperCaseIgnoresCase(a, b);
    UpperCaseIgnoresCase(b, c);
    UpperCaseIgnoresCase(a, c);
    UpperCaseIgnoresCase(b, a);
  }

  // Where a name is first used.
  lemma {:induction false} FirstUseOf(lexemes: seq<Lexeme>, pieces: seq<Piece>, count: nat, k: nat) returns (first: nat)
    requires AllMean(lexemes, pieces, count)
    requires k < |lexemes| && lexemes[k].Placeholder? && !AllDigits(lexemes[k].name)
    ensures first <= k && NamedAt(lexemes, lexemes[k].name, first) && pieces[first] == pieces[k]
    ensures forall j: nat | j < first :: !NamedAt(lexemes, lexemes[k].name, j)
    ensures pieces[first] == Value(Above(pieces[..first]))
    decreases k
  {
    var name := lexemes[k].name;
    assert MeansAt(lexemes, pieces, count, k);
    if exists j: nat :: NamedAt(lexemes[..k], name, j) {
      var j: nat :| NamedAt(lexemes[..k], name, j) && pieces[..k][j] == Value(pieces[k].index);
      first := FirstUseOf(lexemes, pieces, count, j);
      SameNameIsTransitive(lexemes[first].name, lexemes[j].name, name);
      forall i: nat | i < first
        ensures !NamedAt(lexemes, name, i)
      {
        if NamedAt(lexemes, name, i) {
          SymmetricName(lexemes[j].name, name);
          SameNameIsTransitive(lexemes[i].name, name, lexemes[j].name);
          assert NamedAt(lexemes, lexemes[j].name, i);
        }
      }
    } else {
      first := k;
      forall j: nat | j < k
        ensures !NamedAt(lexemes, name, j)
      {
        assert NamedAt(lexemes, name, j) ==> NamedAt(lexemes[..k], name, j);
      }
    }
  }

  lemma SymmetricName(a: string, b: string)
    requires SameName(a, b)
    ensures SameName(b, a)
  {
    SameNameIsTransitive(a, b, b);
  }

  lemma SameFirstUse(lexemes: seq<Lexeme>, j: nat, k: nat, a: nat, b: nat)
    requires j < |lexemes| && lexemes[j].Placeholder? && k < |lexemes| && lexemes[k].Placeholder?
    requires SameName(lexemes[j].name, lexemes[k].name)
    requires NamedAt(lexemes, lexemes[j].name, a) && forall i: nat | i < a :: !NamedAt(lexemes, lexemes[j].name, i)
    requires NamedAt(lexemes, lexemes[k].name, b) && forall i: nat | i < b :: !NamedAt(lexemes, lexemes[k].name, i)
    ensures a == b
  {
    SameNameIsTransitive(lexemes[a].name, lexemes[j].name, lexemes[k].name);
    SymmetricName(lexemes[j].name, lexemes[k].name);
    SameNameIsTransitive(lexemes[b].name, lexemes[k].name, lexemes[j].name);
    assert NamedAt(lexemes, lexemes[k].name, a) && NamedAt(lexemes, lexemes[j].name, b);
  }

  // Two names mean the same bind if and only if they agree but for case.
  lemma SameNamesAgree(lexemes: seq<Lexeme>, pieces: seq<Piece>, count: nat, j: nat, k: nat)
    requires AllMean(lexemes, pieces, count)
    requires j < |lexemes| && lexemes[j].Placeholder? && !AllDigits(lexemes[j].name)
    requires k < |lexemes| && lexemes[k].Placeholder? && !AllDigits(lexemes[k].name)
    ensures pieces[j] == pieces[k] <==> SameName(lexemes[j].name, lexemes[k].name)
  {
    var a := FirstUseOf(lexemes, pieces, count, j);
    var b := FirstUseOf(lexemes, pieces, count, k);
    if a < b {
      AboveIs(pieces[..b]);
      assert pieces[..b][a] == pieces[a];
    } else if b < a {
      AboveIs(pieces[..a]);
      assert pieces[..a][b] == pieces[b];
    }
    if SameName(lexemes[j].name, lexemes[k].name) {
      SameFirstUse(lexemes, j, k, a, b);
    } else if a == b {
      SameNameIsTransitive(lexemes[j].name, lexemes[j].name, lexemes[j].name);
      SymmetricName(lexemes[a].name, lexemes[j].name);
      SameNameIsTransitive(lexemes[j].name, lexemes[a].name, lexemes[k].name);
    }
  }

  lemma {:induction false} NamedOnce(done: seq<Lexeme>, pieces: seq<Piece>, count: nat, name: string, i: nat, j: nat)
    requires AllMean(done, pieces, count) && NamedAt(done, name, i) && NamedAt(done, name, j)
    ensures pieces[i] == pieces[j]
  {
    SymmetricName(done[j].name, name);
    SameNameIsTransitive(done[i].name, name, done[j].name);
    SameNamesAgree(done, pieces, count, i, j);
  }

  // A placeholder means one bind only.
  lemma {:induction false} MeansOnce(done: seq<Lexeme>, pieces: seq<Piece>, count: nat, name: string, a: nat, b: nat)
    requires AllMean(done, pieces, count) && Means(done, pieces, name, a) && Means(done, pieces, name, b)
    ensures a == b
  {
    if !AllDigits(name) && exists j: nat :: NamedAt(done, name, j) {
      var i: nat :| NamedAt(done, name, i) && pieces[i] == Value(a);
      var j: nat :| NamedAt(done, name, j) && pieces[j] == Value(b);
      NamedOnce(done, pieces, count, name, i, j);
      assert Value(a) == Value(b);
    }
  }

  // ---- What a statement's placeholders mean ---------------------------------------------

  lemma {:induction false} MeanAlike(lexemes: seq<Lexeme>, a: seq<Piece>, b: seq<Piece>, count: nat, n: nat)
    requires AllMean(lexemes, a, count) && n <= |lexemes| && n <= |b|
    requires AllMean(lexemes[..n], b[..n], count)
    ensures a[..n] == b[..n]
    decreases n
  {
    if n > 0 {
      var k := n - 1;
      MeanBefore(lexemes[..n], b[..n], count, k);
      assert lexemes[..n][..k] == lexemes[..k] && b[..n][..k] == b[..k];
      MeanAlike(lexemes, a, b, count, k);
      assert MeansAt(lexemes, a, count, k) && MeansAt(lexemes[..n], b[..n], count, k);
      if lexemes[k].Placeholder? {
        MeansOnce(lexemes[..k], a[..k], count, lexemes[k].name, a[k].index, b[k].index);
      }
      assert a[..n] == a[..k] + [a[k]] && b[..n] == b[..k] + [b[k]];
    }
  }

  lemma MeanBefore(lexemes: seq<Lexeme>, pieces: seq<Piece>, count: nat, n: nat)
    requires AllMean(lexemes, pieces, count) && n <= |lexemes|
    ensures AllMean(lexemes[..n], pieces[..n], count)
  {
    forall k | 0 <= k < n
      ensures MeansAt(lexemes[..n], pieces[..n], count, k)
    {
      assert lexemes[..n][..k] == lexemes[..k] && pieces[..n][..k] == pieces[..k];
      assert MeansAt(lexemes, pieces, count, k);
    }
  }

  // Where all placeholders mean a bind there is, none fails.
  lemma {:induction false} NoneFails(lexemes: seq<Lexeme>, pieces: seq<Piece>, count: nat, n: nat, before: seq<Piece>)
    requires AllMean(lexemes, pieces, count) && n < |lexemes| && lexemes[n].Placeholder?
    requires AllMean(lexemes[..n], before, count)
    ensures !Malformed(lexemes[n].name)
    ensures forall index: nat | Means(lexemes[..n], before, lexemes[n].name, index) :: index < count
  {
    assert before[..n] == before;
    MeanAlike(lexemes, pieces, before, count, n);
    assert MeansAt(lexemes, pieces, count, n);
    forall index: nat | Means(lexemes[..n], before, lexemes[n].name, index)
      ensures index < count
    {
      MeansOnce(lexemes[..n], before, count, lexemes[n].name, index, pieces[n].index);
    }
  }

  lemma {:induction false} MeaningIsOne(lexemes: seq<Lexeme>, a: seq<Piece>, b: seq<Piece>, count: nat)
    requires AllMean(lexemes, a, count) && AllMean(lexemes, b, count)
    ensures a == b
  {
    assert lexemes[..|lexemes|] == lexemes && a[..|a|] == a && b[..|b|] == b;
    MeanAlike(lexemes, a, b, count, |lexemes|);
  }

  lemma {:induction false} NoEarlierFailure(lexemes: seq<Lexeme>, n: nat, before: seq<Piece>, m: nat, earlier: seq<Piece>,
    count: nat, e: Error)
    requires m < n <= |lexemes| && AllMean(lexemes[..n], before, count)
    ensures !FailsAt(lexemes, m, earlier, count, e)
  {
    assert lexemes[..n][..m] == lexemes[..m] && lexemes[..n][m] == lexemes[m];
    if AllMean(lexemes[..m], earlier, count) && lexemes[m].Placeholder? {
      NoneFails(lexemes[..n], before, count, m, earlier);
    }
  }

  lemma {:induction false} FailureIsOne(lexemes: seq<Lexeme>, n: nat, before: seq<Piece>, m: nat, earlier: seq<Piece>,
    count: nat, d: Error, e: Error)
    requires FailsAt(lexemes, n, before, count, d) && FailsAt(lexemes, m, earlier, count, e)
    ensures n == m && d == e
  {
    if m < n {
      NoEarlierFailure(lexemes, n, before, m, earlier, count, e);
    } else if n < m {
      NoEarlierFailure(lexemes, m, earlier, n, before, count, d);
    }
  }

  lemma {:induction false} ResolvedSettles(sql: string, count: nat)
    ensures match Resolved(sql, count)
      case Success(pieces) => AllMean(Lexemes(sql, 0), pieces, count)
      case Failure(e) => exists n: nat, before :: FailsAt(Lexemes(sql, 0), n, before, count, e)
  {
    var lexemes, r := Lexemes(sql, 0), Resolved(sql, count);
    ResolveSettles([], [], lexemes, EMPTY, count);
    assert [] + lexemes == lexemes;
    if r.Success? {
      assert [] + r.value == r.value;
    }
  }

  // A statement resolves to the pieces in which every placeholder is what it means,
  lemma {:induction false} ResolvedAsMeant(sql: string, count: nat, pieces: seq<Piece>)
    ensures Resolved(sql, count) == Success(pieces) <==> AllMean(Lexemes(sql, 0), pieces, count)
  {
    var lexemes, r := Lexemes(sql, 0), Resolved(sql, count);
    ResolvedSettles(sql, count);
    if AllMean(lexemes, pieces, count) {
      if r.Success? {
        MeaningIsOne(lexemes, r.value, pieces, count);
      } else {
        var n: nat, before :| FailsAt(lexemes, n, before, count, r.error);
        assert lexemes[..|lexemes|] == lexemes;
        NoEarlierFailure(lexemes, |lexemes|, pieces, n, before, count, r.error);
      }
    }
  }

  // and fails at the first one that is malformed or means a bind there is not.
  lemma {:induction false} FailsAsMeant(sql: string, count: nat, e: Error)
    ensures Resolved(sql, count) == Failure(e) <==> exists n: nat, before :: FailsAt(Lexemes(sql, 0), n, before, count, e)
  {
    var lexemes, r := Lexemes(sql, 0), Resolved(sql, count);
    ResolvedSettles(sql, count);
    if n: nat, before :| FailsAt(lexemes, n, before, count, e) {
      if r.Success? {
        assert lexemes[..|lexemes|] == lexemes;
        NoEarlierFailure(lexemes, |lexemes|, r.value, n, before, count, e);
      } else {
        var m: nat, earlier :| FailsAt(lexemes, m, earlier, count, r.error);
        FailureIsOne(lexemes, n, before, m, earlier, count, e, r.error);
      }
    }
  }

  // A numeral is a position counted from one,
  lemma {:induction false} NumeralsAreOrdinals(sql: string, count: nat, pieces: seq<Piece>, k: nat, n: nat)
    requires Resolved(sql, count) == Success(pieces)
    requires k < |Lexemes(sql, 0)| && Lexemes(sql, 0)[k] == Placeholder(NatText(n))
    ensures 1 <= n <= count && k < |pieces| && pieces[k] == Value(n - 1)
  {
    ResolvedAsMeant(sql, count, pieces);
    assert MeansAt(Lexemes(sql, 0), pieces, count, k);
    NatTextReadsBack(n);
  }

  // names mean one bind if and only if they agree but for case,
  lemma {:induction false} NamesIgnoreCase(sql: string, count: nat, pieces: seq<Piece>, j: nat, k: nat)
    requires Resolved(sql, count) == Success(pieces)
    requires j < |Lexemes(sql, 0)| && Lexemes(sql, 0)[j].Placeholder? && !AllDigits(Lexemes(sql, 0)[j].name)
    requires k < |Lexemes(sql, 0)| && Lexemes(sql, 0)[k].Placeholder? && !AllDigits(Lexemes(sql, 0)[k].name)
    ensures j < |pieces| && k < |pieces|
    ensures pieces[j] == pieces[k] <==> SameName(Lexemes(sql, 0)[j].name, Lexemes(sql, 0)[k].name)
  {
    ResolvedAsMeant(sql, count, pieces);
    SameNamesAgree(Lexemes(sql, 0), pieces, count, j, k);
  }

  // a new name means the least index above all those before it,
  lemma {:induction false} NewNamesCountOn(sql: string, count: nat, pieces: seq<Piece>, k: nat)
    requires Resolved(sql, count) == Success(pieces)
    requires k < |Lexemes(sql, 0)| && Lexemes(sql, 0)[k].Placeholder? && !AllDigits(Lexemes(sql, 0)[k].name)
    requires forall j: nat | j < k :: !NamedAt(Lexemes(sql, 0), Lexemes(sql, 0)[k].name, j)
    ensures k < |pieces| && pieces[k].Value?
    ensures forall j | 0 <= j < k && pieces[j].Value? :: pieces[j].index < pieces[k].index
    ensures pieces[k].index == 0 || exists j :: 0 <= j < k && pieces[j] == Value(pieces[k].index - 1)
  {
    var lexemes := Lexemes(sql, 0);
    ResolvedAsMeant(sql, count, pieces);
    assert MeansAt(lexemes, pieces, count, k);
    assert forall j: nat :: NamedAt(lexemes[..k], lexemes[k].name, j) ==> NamedAt(lexemes, lexemes[k].name, j);
    AboveIs(pieces[..k]);
    forall j | 0 <= j < k && pieces[j].Value?
      ensures pieces[j].index < pieces[k].index
    {
      assert pieces[..k][j] == pieces[j];
    }
    if pieces[k].index != 0 {
      var j :| 0 <= j < k && pieces[..k][j] == Value(pieces[k].index - 1);
      assert pieces[j] == Value(pieces[k].index - 1);
    }
  }

  // The binds 0 to n - 1, in turn.
  function UpTo(n: nat): (s: seq<nat>)
    ensures |s| == n && forall i | 0 <= i < n :: s[i] == i
  {
    seq(n, i => i)
  }

  predicate NamesOnly(lexemes: seq<Lexeme>) {
    forall k | 0 <= k < |lexemes| && lexemes[k].Placeholder? :: !AllDigits(lexemes[k].name)
  }

  lemma {:induction false} UpToHolds(n: nat, x: nat)
    ensures x in UpTo(n) <==> x < n
    ensures UpTo(n) + [n] == UpTo(n + 1)
  {
    if x < n {
      assert UpTo(n)[x] == x;
    }
  }

  lemma {:induction false} AboveOneMore(pieces: seq<Piece>, p: Piece)
    ensures Above(pieces + [p]) == if p.Value? && p.index >= Above(pieces) then p.index + 1 else Above(pieces)
  {
    assert (pieces + [p])[..|pieces|] == pieces;
  }

  lemma {:induction false} RankOneMore(pieces: seq<Piece>, p: Piece)
    requires FirstUses(Occurrences(pieces)) == UpTo(Above(pieces))
    requires p.Value? ==> p.index <= Above(pieces)
    ensures FirstUses(Occurrences(pieces + [p])) == UpTo(Above(pieces + [p]))
  {
    OneMoreOccurrence(pieces, p);
    AboveOneMore(pieces, p);
    if p.Value? {
      UpToHolds(Above(pieces), p.index);
    }
  }

  lemma {:induction false} NamesMeanAtMost(lexemes: seq<Lexeme>, pieces: seq<Piece>, count: nat, k: nat)
    requires AllMean(lexemes, pieces, count) && k < |lexemes|
    requires lexemes[k].Placeholder? && pieces[k].Value? && !AllDigits(lexemes[k].name)
    ensures pieces[k].index <= Above(pieces[..k])
  {
    assert MeansAt(lexemes, pieces, count, k);
    AboveIs(pieces[..k]);
    if j: nat :| NamedAt(lexemes[..k], lexemes[k].name, j) && pieces[..k][j] == Value(pieces[k].index) {
      assert pieces[..k][j].Value?;
    }
  }

  lemma {:induction false} NamesAreRanked(lexemes: seq<Lexeme>, pieces: seq<Piece>, count: nat, n: nat)
    requires AllMean(lexemes, pieces, count) && NamesOnly(lexemes) && n <= |lexemes|
    ensures FirstUses(Occurrences(pieces[..n])) == UpTo(Above(pieces[..n]))
  {
    if n > 0 {
      var k := n - 1;
      NamesAreRanked(lexemes, pieces, count, k);
      assert pieces[..n] == pieces[..k] + [pieces[k]];
      assert MeansAt(lexemes, pieces, count, k);
      if pieces[k].Value? {
        NamesMeanAtMost(lexemes, pieces, count, k);
      }
      RankOneMore(pieces[..k], pieces[k]);
    }
  }

  // and without numerals the binds are meant in order of first use.
  lemma {:induction false} NamesBindInOrder(sql: string, count: nat, pieces: seq<Piece>)
    requires Resolved(sql, count) == Success(pieces) && NamesOnly(Lexemes(sql, 0))
    ensures var order := FirstUses(Occurrences(pieces)); order == UpTo(|order|)
  {
    ResolvedAsMeant(sql, count, pieces);
    assert pieces[..|pieces|] == pieces;
    NamesAreRanked(Lexemes(sql, 0), pieces, count, |pieces|);
  }
}
