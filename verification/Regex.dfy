/** The corpus runner's regular-expression engine, and the language it decides. */
module RegexLite {
  import opened Wrappers

  datatype Tok =
    | Char(want: char)
    | AnyDigit
    | Any
    | Class(members: seq<char>)
    | Star(inner: Tok)
    | Plus(inner: Tok)

  datatype Pattern = Pattern(alternatives: seq<seq<Tok>>, anchoredStart: bool, anchoredEnd: bool)

  predicate IsSingle(t: Tok) {
    !t.Star? && !t.Plus?
  }

  // What the parser builds: a quantifier holds a one-character token.
  predicate WellFormed(t: Tok) {
    IsSingle(t) || IsSingle(t.inner)
  }

  predicate AllWellFormed(toks: seq<Tok>) {
    forall t <- toks :: WellFormed(t)
  }

  predicate EachWellFormed(alternatives: seq<seq<Tok>>) {
    forall alt <- alternatives :: AllWellFormed(alt)
  }

  // ---- Denotation -------------------------------------------------------

  predicate Accepts(t: Tok, c: char)
    requires IsSingle(t)
  {
    match t
    case Char(want) => c == want
    case AnyDigit => '0' <= c <= '9'
    case Any => true
    case Class(members) => c in members
  }

  // Every character of text[from..to] is accepted by the one-character token.
  predicate Run(t: Tok, text: seq<char>, from: nat, to: nat)
    requires IsSingle(t)
  {
    from <= to <= |text| && forall i | from <= i < to :: Accepts(t, text[i])
  }

  // text[from..to] is one of the words of `t`.
  predicate Denotes(t: Tok, text: seq<char>, from: nat, to: nat)
    requires WellFormed(t)
  {
    match t
    case Star(inner) => Run(inner, text, from, to)
    case Plus(inner) => from < to && Run(inner, text, from, to)
    case _ => to == from + 1 && Run(t, text, from, to)
  }

  // text[from..to] splits into consecutive words of the tokens.
  ghost predicate Matches(toks: seq<Tok>, text: seq<char>, from: nat, to: nat)
    requires AllWellFormed(toks)
  {
    if toks == [] then
      from == to <= |text|
    else
      exists mid: nat :: Denotes(toks[0], text, from, mid) && Matches(toks[1..], text, mid, to)
  }

  // Some alternative matches somewhere, as the anchors allow.
  ghost predicate InLanguage(p: Pattern, text: seq<char>)
    requires EachWellFormed(p.alternatives)
  {
    exists k: nat, from: nat, to: nat ::
      && k < |p.alternatives|
      && (p.anchoredStart ==> from == 0)
      && (p.anchoredEnd ==> to == |text|)
      && Matches(p.alternatives[k], text, from, to)
  }

  // ---- The engine -------------------------------------------------------

  // The one end a one-character token can have from `pos`, if it has one.
  method MatchOne(tok: Tok, chars: seq<char>, pos: nat) returns (r: Option<nat>)
    requires IsSingle(tok)
    ensures forall end: nat :: r == Some(end) <==> Denotes(tok, chars, pos, end)
  {
    if pos >= |chars| {
      return None;
    }
    var c := chars[pos];
    var ok := match tok
      case Char(want) => c == want
      case AnyDigit => '0' <= c <= '9'
      case Any => true
      case Class(members) => c in members;
    assert ok <==> Run(tok, chars, pos, pos + 1);
    return if ok then Some(pos + 1) else None;
  }

  // The positions a greedy quantifier can stop at, nearest first.
  method Reach(inner: Tok, chars: seq<char>, first: nat) returns (reach: seq<nat>)
    requires IsSingle(inner) && first <= |chars|
    ensures |reach| > 0 && forall k | 0 <= k < |reach| :: reach[k] == first + k
    ensures forall to: nat :: Run(inner, chars, first, to) <==> to in reach
  {
    reach := [first];
    while true
      invariant |reach| > 0 && forall k | 0 <= k < |reach| :: reach[k] == first + k
      invariant Run(inner, chars, first, reach[|reach| - 1])
      decreases |chars| - |reach|
    {
      var last := reach[|reach| - 1];
      var next := MatchOne(inner, chars, last);
      if next.None? {
        assert !Denotes(inner, chars, last, last + 1);
        assert last < |chars| ==> !Accepts(inner, chars[last]);
        forall to: nat ensures Run(inner, chars, first, to) <==> to in reach {
          if first <= to <= last {
            assert reach[to - first] == to;
          }
        }
        return;
      }
      reach := reach + [next.value];
    }
  }

  // Soundness, completeness and greed at once: an answer is the longest match
  // from `pos`, and no answer means there is no match from `pos`.
  method MatchSeq(toks: seq<Tok>, chars: seq<char>, pos: nat) returns (r: Option<nat>)
    requires AllWellFormed(toks) && pos <= |chars|
    ensures r.Some? ==> Matches(toks, chars, pos, r.value)
    ensures forall to: nat | Matches(toks, chars, pos, to) :: r.Some? && to <= r.value
    decreases |toks|
  {
    if toks == [] {
      return Some(pos);
    }
    var head, tail := toks[0], toks[1..];
    assert WellFormed(head);
    if head.Star? || head.Plus? {
      var first := pos;
      if head.Plus? {
        var one := MatchOne(head.inner, chars, pos);
        if one.None? {
          assert !Denotes(head.inner, chars, pos, pos + 1);
          assert forall mid: nat :: !Denotes(head, chars, pos, mid);
          return None;
        }
        first := one.value;
      }
      var reach := Reach(head.inner, chars, first);
      forall mid: nat ensures Denotes(head, chars, pos, mid) <==> mid in reach {
        if head.Plus? && pos < mid <= |chars| {
          assert Run(head.inner, chars, pos, mid) <==> Run(head.inner, chars, first, mid);
        }
      }
      var k := |reach|;
      while k > 0
        invariant 0 <= k <= |reach|
        invariant forall j, to: nat | k <= j < |reach| :: !Matches(tail, chars, reach[j], to)
      {
        k := k - 1;
        assert reach[k] in reach;
        r := MatchSeq(tail, chars, reach[k]);
        if r.Some? {
          GreedIsLongest(toks, chars, pos, reach, k, r.value);
          return;
        }
      }
      return None;
    } else {
      r := MatchOne(head, chars, pos);
      if r.Some? {
        r := MatchSeq(tail, chars, r.value);
      }
    }
  }

  // The exchange argument: of two matches of the same tokens, the one that
  // starts later either ends no earlier or can be prolonged to the other's end.
  lemma {:induction false} LaterStartReachesAsFar(toks: seq<Tok>, text: seq<char>, p: nat, e: nat, q: nat, f: nat)
    requires AllWellFormed(toks) && p <= q
    requires Matches(toks, text, p, e) && Matches(toks, text, q, f)
    ensures e <= f || Matches(toks, text, q, e)
    decreases |toks|
  {
    if toks != [] {
      var head, tail := toks[0], toks[1..];
      var m: nat :| Denotes(head, text, p, m) && Matches(tail, text, m, e);
      var n: nat :| Denotes(head, text, q, n) && Matches(tail, text, n, f);
      if m <= n {
        LaterStartReachesAsFar(tail, text, m, e, n, f);
        if e > f {
          assert Denotes(head, text, q, n) && Matches(tail, text, n, e);
        }
      } else {
        assert Denotes(head, text, q, m) && Matches(tail, text, m, e);
      }
    }
  }

  // The farthest stop that lets the tail match at all gives the longest match.
  lemma GreedIsLongest(toks: seq<Tok>, text: seq<char>, pos: nat, reach: seq<nat>, k: nat, end: nat)
    requires AllWellFormed(toks) && toks != [] && k < |reach|
    requires forall j | 0 <= j < |reach| :: reach[j] == reach[0] + j
    requires forall mid: nat :: Denotes(toks[0], text, pos, mid) <==> mid in reach
    requires forall j, to: nat | k < j < |reach| :: !Matches(toks[1..], text, reach[j], to)
    requires Matches(toks[1..], text, reach[k], end)
    requires forall to: nat | Matches(toks[1..], text, reach[k], to) :: to <= end
    ensures Matches(toks, text, pos, end)
    ensures forall to: nat | Matches(toks, text, pos, to) :: to <= end
  {
    assert reach[k] in reach;
    forall to: nat | Matches(toks, text, pos, to) ensures to <= end {
      var mid: nat :| Denotes(toks[0], text, pos, mid) && Matches(toks[1..], text, mid, to);
      var j :| 0 <= j < |reach| && reach[j] == mid;
      LaterStartReachesAsFar(toks[1..], text, mid, to, reach[k], end);
    }
  }

  // Because MatchSeq answers with the longest match, testing that one answer
  // against an end anchor misses nothing.
  method IsMatch(p: Pattern, text: seq<char>) returns (r: bool)
    requires EachWellFormed(p.alternatives)
    ensures r <==> InLanguage(p, text)
  {
    var k := 0;
    while k < |p.alternatives|
      invariant 0 <= k <= |p.alternatives|
      invariant forall j, from: nat, to: nat ::
        0 <= j < k && (p.anchoredStart ==> from == 0) && (p.anchoredEnd ==> to == |text|)
        ==> !Matches(p.alternatives[j], text, from, to)
    {
      var alt := p.alternatives[k];
      var starts := if p.anchoredStart then 1 else |text| + 1;
      var start := 0;
      while start < starts
        invariant 0 <= start <= starts
        invariant forall from: nat, to: nat ::
          from < start && (p.anchoredEnd ==> to == |text|) ==> !Matches(alt, text, from, to)
      {
        var end := MatchSeq(alt, text, start);
        if end.Some? && (!p.anchoredEnd || end.value == |text|) {
          return true;
        }
        forall to: nat | p.anchoredEnd ==> to == |text| ensures !Matches(alt, text, start, to) {
          if end.Some? {
            MatchesInText(alt, text, start, end.value);
          }
        }
        start := start + 1;
      }
      forall from: nat, to: nat | (p.anchoredStart ==> from == 0) && (p.anchoredEnd ==> to == |text|)
        ensures !Matches(alt, text, from, to)
      {
        if Matches(alt, text, from, to) {
          MatchesInText(alt, text, from, to);
        }
      }
      k := k + 1;
    }
    return false;
  }

  lemma {:induction false} MatchesInText(toks: seq<Tok>, text: seq<char>, from: nat, to: nat)
    requires AllWellFormed(toks) && Matches(toks, text, from, to)
    ensures from <= to <= |text|
    decreases |toks|
  {
    if toks != [] {
      var mid: nat :| Denotes(toks[0], text, from, mid) && Matches(toks[1..], text, mid, to);
      MatchesInText(toks[1..], text, mid, to);
    }
  }

  // ---- The pattern parser -----------------------------------------------

  // The pieces of `s` between bars; always at least one.
  function SplitBars(s: seq<char>): (parts: seq<seq<char>>)
    ensures |parts| > 0
  {
    if s == [] then [[]]
    else
      var rest := SplitBars(s[1..]);
      if s[0] == '|' then [[]] + rest else [[s[0]] + rest[0]] + rest[1..]
  }

  function ClassEnd(s: seq<char>): (n: nat)
    ensures n <= |s|
  {
    if s == [] || s[0] == ']' then 0 else 1 + ClassEnd(s[1..])
  }

  // The one-character token `s` starts with, and the text after it.
  function NextBase(s: seq<char>): (r: (Tok, seq<char>))
    requires s != []
    ensures IsSingle(r.0) && |r.1| < |s|
  {
    if s[0] == '\\' then
      if |s| == 1 then (Char('\\'), [])
      else (if s[1] == 'd' then AnyDigit else Char(s[1]), s[2..])
    else if s[0] == '.' then (Any, s[1..])
    else if s[0] == '[' then
      var n := ClassEnd(s[1..]);
      (Class(s[1..n + 1]), if n + 1 < |s| then s[n + 2..] else [])
    else (Char(s[0]), s[1..])
  }

  function NextTok(s: seq<char>): (r: (Tok, seq<char>))
    requires s != []
    ensures WellFormed(r.0) && |r.1| < |s|
  {
    var (base, rest) := NextBase(s);
    if rest != [] && rest[0] == '*' then (Star(base), rest[1..])
    else if rest != [] && rest[0] == '+' then (Plus(base), rest[1..])
    else (base, rest)
  }

  function ParseToks(s: seq<char>): (toks: seq<Tok>)
    ensures AllWellFormed(toks)
    decreases |s|
  {
    if s == [] then []
    else
      var (tok, rest) := NextTok(s);
      [tok] + ParseToks(rest)
  }

  method ParseClass(alt: seq<char>, start: nat) returns (members: seq<char>, next: nat)
    requires start <= |alt|
    ensures start <= next <= |alt|
    ensures var n := ClassEnd(alt[start..]);
      members == alt[start..start + n] && next == if start + n < |alt| then start + n + 1 else |alt|
  {
    members, next := [], start;
    while next < |alt| && alt[next] != ']'
      invariant start <= next <= |alt| && members == alt[start..next]
      invariant ClassEnd(alt[start..]) == next - start + ClassEnd(alt[next..])
    {
      assert alt[next..][1..] == alt[next + 1..];
      members := members + [alt[next]];
      next := next + 1;
    }
    if next < |alt| {
      next := next + 1;
    }
  }

  method ParseBase(alt: seq<char>, start: nat) returns (base: Tok, next: nat)
    requires start < |alt|
    ensures start < next <= |alt| && (base, alt[next..]) == NextBase(alt[start..])
  {
    ghost var here := alt[start..];
    assert here[1..] == alt[start + 1..];
    var c := alt[start];
    next := start + 1;
    if c == '\\' {
      if next < |alt| {
        assert here[2..] == alt[start + 2..];
        base := if alt[next] == 'd' then AnyDigit else Char(alt[next]);
        next := next + 1;
      } else {
        base := Char('\\');
      }
    } else if c == '.' {
      base := Any;
    } else if c == '[' {
      var members;
      members, next := ParseClass(alt, next);
      ghost var n := ClassEnd(here[1..]);
      assert members == here[1..n + 1];
      assert n + 1 < |here| ==> here[n + 2..] == alt[next..];
      base := Class(members);
    } else {
      base := Char(c);
    }
  }

  method ParseTok(alt: seq<char>, start: nat) returns (tok: Tok, next: nat)
    requires start < |alt|
    ensures start < next <= |alt| && (tok, alt[next..]) == NextTok(alt[start..])
  {
    tok, next := ParseBase(alt, start);
    assert next < |alt| ==> alt[next..][1..] == alt[next + 1..];
    if next < |alt| && alt[next] == '*' {
      next, tok := next + 1, Star(tok);
    } else if next < |alt| && alt[next] == '+' {
      next, tok := next + 1, Plus(tok);
    }
  }

  // With `toks` read, what is left to read is `rest`.
  ghost predicate ParsedTo(alt: seq<char>, toks: seq<Tok>, rest: seq<char>) {
    ParseToks(alt) == toks + ParseToks(rest)
  }

  lemma ParsedOneMore(alt: seq<char>, toks: seq<Tok>, rest: seq<char>)
    requires ParsedTo(alt, toks, rest) && rest != []
    ensures ParsedTo(alt, toks + [NextTok(rest).0], NextTok(rest).1)
  {
    var (tok, after) := NextTok(rest);
    assert ParseToks(rest) == [tok] + ParseToks(after);
    assert toks + ([tok] + ParseToks(after)) == toks + [tok] + ParseToks(after);
  }

  method ParseAlternative(alt: seq<char>) returns (toks: seq<Tok>)
    ensures toks == ParseToks(alt)
  {
    toks := [];
    var i := 0;
    assert alt[0..] == alt && [] + ParseToks(alt) == ParseToks(alt);
    while i < |alt|
      invariant 0 <= i <= |alt|
      invariant ParsedTo(alt, toks, alt[i..])
    {
      ParsedOneMore(alt, toks, alt[i..]);
      var tok;
      tok, i := ParseTok(alt, i);
      toks := toks + [tok];
    }
    assert ParseToks(alt[i..]) == [] && toks + [] == toks;
  }

  predicate StartAnchor(pattern: seq<char>) {
    |pattern| > 0 && pattern[0] == '^'
  }

  predicate EndAnchor(pattern: seq<char>) {
    var n := |pattern|;
    n > 0 && pattern[n - 1] == '$' && !(n > 1 && pattern[n - 2] == '\\')
  }

  function ParseParts(parts: seq<seq<char>>): (alternatives: seq<seq<Tok>>)
    ensures |alternatives| == |parts| && EachWellFormed(alternatives)
  {
    seq(|parts|, k requires 0 <= k < |parts| => ParseToks(parts[k]))
  }

  function ParsePattern(pattern: seq<char>): (p: Pattern)
    ensures EachWellFormed(p.alternatives)
  {
    var body := pattern[if StartAnchor(pattern) then 1 else 0 .. |pattern| - if EndAnchor(pattern) then 1 else 0];
    Pattern(ParseParts(SplitBars(body)), StartAnchor(pattern), EndAnchor(pattern))
  }

  lemma OneMorePart(parts: seq<seq<char>>, k: nat)
    requires k < |parts|
    ensures ParseParts(parts[..k + 1]) == ParseParts(parts[..k]) + [ParseToks(parts[k])]
  {
  }

  method CompileParts(parts: seq<seq<char>>) returns (alternatives: seq<seq<Tok>>)
    ensures alternatives == ParseParts(parts)
  {
    alternatives := [];
    var k := 0;
    while k < |parts|
      invariant 0 <= k <= |parts| && alternatives == ParseParts(parts[..k])
    {
      OneMorePart(parts, k);
      var toks := ParseAlternative(parts[k]);
      alternatives := alternatives + [toks];
      k := k + 1;
    }
    assert parts[..k] == parts;
  }

  // Every pattern compiles to tokens on which the engine's unreachable
  // branch (a quantifier inside a quantifier) is indeed unreachable.
  method Compile(pattern: seq<char>) returns (p: Pattern)
    ensures p == ParsePattern(pattern)
    ensures EachWellFormed(p.alternatives)
  {
    var anchoredStart, anchoredEnd := StartAnchor(pattern), EndAnchor(pattern);
    var body := pattern[if anchoredStart then 1 else 0 .. |pattern| - if anchoredEnd then 1 else 0];
    var alternatives := CompileParts(SplitBars(body));
    p := Pattern(alternatives, anchoredStart, anchoredEnd);
  }

  // ---- What patterns mean: the parser inverts the notation ---------------

  predicate NeedsEscape(c: char) {
    c in "\\.[*+^$"
  }

  function PrintTok(t: Tok): seq<char>
    requires WellFormed(t)
  {
    match t
    case Char(c) => if NeedsEscape(c) then ['\\', c] else [c]
    case AnyDigit => "\\d"
    case Any => "."
    case Class(members) => "[" + members + "]"
    case Star(inner) => PrintTok(inner) + "*"
    case Plus(inner) => PrintTok(inner) + "+"
  }

  function PrintToks(toks: seq<Tok>): seq<char>
    requires AllWellFormed(toks)
  {
    if toks == [] then [] else PrintTok(toks[0]) + PrintToks(toks[1..])
  }

  function PrintAlternatives(alternatives: seq<seq<Tok>>): seq<char>
    requires alternatives != [] && EachWellFormed(alternatives)
  {
    PrintToks(alternatives[0]) + if |alternatives| == 1 then [] else "|" + PrintAlternatives(alternatives[1..])
  }

  function Print(p: Pattern): seq<char>
    requires p.alternatives != [] && EachWellFormed(p.alternatives)
  {
    (if p.anchoredStart then "^" else "") + PrintAlternatives(p.alternatives) + if p.anchoredEnd then "$" else ""
  }

  // The notation has no way to write a bar, nor a closing bracket in a class.
  predicate Writable(t: Tok) {
    match t
    case Char(c) => c != '|'
    case Class(members) => ']' !in members && '|' !in members
    case Star(inner) => IsSingle(inner) && Writable(inner)
    case Plus(inner) => IsSingle(inner) && Writable(inner)
    case _ => true
  }

  predicate AllWritable(toks: seq<Tok>) {
    forall t <- toks :: Writable(t)
  }

  predicate EachWritable(alternatives: seq<seq<Tok>>) {
    forall alt <- alternatives :: AllWritable(alt)
  }

  lemma {:induction false} ClassEndAt(members: seq<char>, rest: seq<char>)
    requires ']' !in members
    ensures ClassEnd(members + "]" + rest) == |members|
  {
    var s := members + "]" + rest;
    if members != [] {
      assert s[1..] == members[1..] + "]" + rest;
      ClassEndAt(members[1..], rest);
    }
  }

  lemma ParsePrintedSingle(t: Tok, rest: seq<char>)
    requires IsSingle(t) && Writable(t)
    ensures NextBase(PrintTok(t) + rest) == (t, rest)
  {
    var s := PrintTok(t) + rest;
    if t.Class? {
      assert s[1..] == t.members + "]" + rest;
      ClassEndAt(t.members, rest);
      assert s[1..|t.members| + 1] == t.members && s[|t.members| + 2..] == rest;
    } else {
      assert s[|PrintTok(t)|..] == rest;
    }
  }

  lemma ParsePrintedTok(t: Tok, rest: seq<char>)
    requires WellFormed(t) && Writable(t)
    requires rest == [] || rest[0] !in "*+"
    ensures NextTok(PrintTok(t) + rest) == (t, rest)
  {
    if IsSingle(t) {
      ParsePrintedSingle(t, rest);
    } else {
      var mark := if t.Star? then "*" else "+";
      ParsePrintedSingle(t.inner, mark + rest);
      assert PrintTok(t) + rest == PrintTok(t.inner) + (mark + rest);
    }
  }

  lemma {:induction false} ParsePrintedToks(toks: seq<Tok>)
    requires AllWellFormed(toks) && AllWritable(toks)
    ensures ParseToks(PrintToks(toks)) == toks
    decreases |toks|
  {
    if toks != [] {
      var t, rest := toks[0], PrintToks(toks[1..]);
      assert Writable(t) && WellFormed(t);
      ParsePrintedToks(toks[1..]);
      if |toks| > 1 {
        assert WellFormed(toks[1]);
        FirstCharIsPlain(toks[1]);
        assert rest[0] == PrintTok(toks[1])[0];
      }
      ParsePrintedTok(t, rest);
    }
  }

  lemma FirstCharIsPlain(t: Tok)
    requires WellFormed(t)
    ensures PrintTok(t) != [] && PrintTok(t)[0] !in "*+^$"
  {
    if t.Star? || t.Plus? {
      assert PrintTok(t)[0] == PrintTok(t.inner)[0];
    }
  }

  lemma PrintedTokHasNoBar(t: Tok)
    requires WellFormed(t) && Writable(t)
    ensures '|' !in PrintTok(t)
  {
    if !IsSingle(t) {
      PrintedTokHasNoBar(t.inner);
    }
  }

  lemma {:induction false} PrintedToksHaveNoBar(toks: seq<Tok>)
    requires AllWellFormed(toks) && AllWritable(toks)
    ensures '|' !in PrintToks(toks)
    decreases |toks|
  {
    if toks != [] {
      assert Writable(toks[0]) && WellFormed(toks[0]);
      assert '|' !in PrintTok(toks[0]) by {
        PrintedTokHasNoBar(toks[0]);
      }
      PrintedToksHaveNoBar(toks[1..]);
    }
  }

  lemma {:induction false} SplitAtBar(s: seq<char>, rest: seq<char>)
    requires '|' !in s
    ensures SplitBars(s) == [s]
    ensures SplitBars(s + "|" + rest) == [s] + SplitBars(rest)
  {
    if s == [] {
      assert (s + "|" + rest)[1..] == rest;
    } else {
      assert (s + "|" + rest)[1..] == s[1..] + "|" + rest;
      SplitAtBar(s[1..], rest);
      assert [s[0]] + s[1..] == s;
    }
  }

  lemma ParsePartsCons(part: seq<char>, parts: seq<seq<char>>)
    ensures ParseParts([part] + parts) == [ParseToks(part)] + ParseParts(parts)
  {
  }

  lemma ParseFront(first: seq<Tok>, more: seq<char>)
    requires AllWellFormed(first) && AllWritable(first)
    ensures ParseParts(SplitBars(PrintToks(first))) == [first]
    ensures ParseParts(SplitBars(PrintToks(first) + "|" + more)) == [first] + ParseParts(SplitBars(more))
  {
    PrintedToksHaveNoBar(first);
    ParsePrintedToks(first);
    SplitAtBar(PrintToks(first), more);
    ParsePartsCons(PrintToks(first), SplitBars(more));
  }

  lemma {:induction false} ParsePrintedAlternatives(alternatives: seq<seq<Tok>>)
    requires alternatives != [] && EachWellFormed(alternatives) && EachWritable(alternatives)
    ensures ParseParts(SplitBars(PrintAlternatives(alternatives))) == alternatives
  {
    var first, rest := alternatives[0], alternatives[1..];
    if rest == [] {
      ParseFront(first, []);
      assert PrintAlternatives(alternatives) == PrintToks(first);
    } else {
      var more := PrintAlternatives(rest);
      assert PrintAlternatives(alternatives) == PrintToks(first) + "|" + more;
      ParseFront(first, more);
      ParsePrintedAlternatives(rest);
    }
  }

  // The last printed character of the alternatives and the one before it.
  predicate EndsInBackslash(alternatives: seq<seq<Tok>>) {
    alternatives != [] &&
    var last := alternatives[|alternatives| - 1];
    last != [] && last[|last| - 1] == Char('\\')
  }

  lemma {:induction false} PrintedToksEdges(toks: seq<Tok>)
    requires AllWellFormed(toks) && AllWritable(toks)
    ensures var s := PrintToks(toks); s != [] ==>
      && s[0] != '^'
      && !EndAnchor(s)
      && (s[|s| - 1] == '\\' <==> toks[|toks| - 1] == Char('\\'))
    ensures PrintToks(toks) == [] <==> toks == []
    decreases |toks|
  {
    if toks != [] {
      var t := toks[0];
      assert Writable(t) && WellFormed(t);
      FirstCharIsPlain(t);
      PrintedToksEdges(toks[1..]);
      if |toks| > 1 {
        FirstCharIsPlain(toks[1]);
        assert WellFormed(toks[1]);
        assert PrintToks(toks[1..])[0] == PrintTok(toks[1])[0];
      }
    }
  }

  lemma {:induction false} PrintedAlternativesEdges(alternatives: seq<seq<Tok>>)
    requires alternatives != [] && EachWellFormed(alternatives) && EachWritable(alternatives)
    ensures var s := PrintAlternatives(alternatives); s != [] ==>
      && s[0] != '^'
      && !EndAnchor(s)
      && (s[|s| - 1] == '\\' <==> EndsInBackslash(alternatives))
    ensures PrintAlternatives(alternatives) == [] ==> !EndsInBackslash(alternatives)
  {
    assert AllWritable(alternatives[0]) && AllWellFormed(alternatives[0]);
    PrintedToksEdges(alternatives[0]);
    if |alternatives| > 1 {
      PrintedAlternativesEdges(alternatives[1..]);
      var rest := "|" + PrintAlternatives(alternatives[1..]);
      assert EndsInBackslash(alternatives) <==> EndsInBackslash(alternatives[1..]);
      assert PrintAlternatives(alternatives) == PrintToks(alternatives[0]) + rest;
    }
  }

  // Parsing inverts printing on every writable pattern, with one exact
  // exception: an escaped backslash right before the end anchor is read as an
  // escaped dollar, so the anchor is lost.
  lemma ParseInvertsPrint(p: Pattern)
    requires p.alternatives != [] && EachWellFormed(p.alternatives) && EachWritable(p.alternatives)
    ensures ParsePattern(Print(p)) == p <==> !(p.anchoredEnd && EndsInBackslash(p.alternatives))
  {
    var body := PrintAlternatives(p.alternatives);
    PrintedAlternativesEdges(p.alternatives);
    ParsePrintedAlternatives(p.alternatives);
    var s := Print(p);
    var lead := if p.anchoredStart then 1 else 0;
    assert StartAnchor(s) <==> p.anchoredStart;
    if p.anchoredEnd && EndsInBackslash(p.alternatives) {
      assert s[|s| - 2] == body[|body| - 1];
      assert !EndAnchor(s);
    } else {
      assert EndAnchor(s) <==> p.anchoredEnd by {
        if p.anchoredEnd && body != [] {
          assert s[|s| - 2] == body[|body| - 1];
        } else if !p.anchoredEnd && body != [] {
          assert s[|s| - 1] == body[|body| - 1];
          if |body| > 1 {
            assert s[|s| - 2] == body[|body| - 2];
          }
        }
      }
      assert s[lead..|s| - if p.anchoredEnd then 1 else 0] == body;
    }
  }

  // ---- What every pattern means, however it is written -----------------------

  // The ways to write a one-character token; two of them only at the very end.
  predicate SpellsBase(u: seq<char>, t: Tok, last: bool) {
    match t
    case Char(c) => (u == [c] && c !in "\\.[") || (u == ['\\', c] && c != 'd') || (last && c == '\\' && u == "\\")
    case AnyDigit => u == "\\d"
    case Any => u == "."
    case Class(members) => ']' !in members && (u == "[" + members + "]" || (last && u == "[" + members))
    case _ => false
  }

  // A quantifier belongs to the token right before it.
  predicate SpellsTok(u: seq<char>, t: Tok, rest: seq<char>) {
    match t
    case Star(inner) => u != [] && u[|u| - 1] == '*' && SpellsBase(u[..|u| - 1], inner, false)
    case Plus(inner) => u != [] && u[|u| - 1] == '+' && SpellsBase(u[..|u| - 1], inner, false)
    case _ => SpellsBase(u, t, rest == []) && (rest != [] ==> rest[0] !in "*+")
  }

  ghost predicate Spelled(s: seq<char>, toks: seq<Tok>)
    decreases |toks|
  {
    if toks == [] then s == []
    else exists n: nat | n <= |s| :: SpellsTok(s[..n], toks[0], s[n..]) && Spelled(s[n..], toks[1..])
  }

  lemma {:induction false} SpelledBaseIsRead(u: seq<char>, t: Tok, rest: seq<char>)
    requires SpellsBase(u, t, rest == [])
    ensures u != [] && NextBase(u + rest) == (t, rest)
  {
    var s := u + rest;
    if t.Class? {
      var closed := u == "[" + t.members + "]";
      if closed {
        assert s[1..] == t.members + "]" + rest;
        ClassEndAt(t.members, rest);
        assert s[1..|t.members| + 1] == t.members && s[|t.members| + 2..] == rest;
      } else {
        assert s[1..] == t.members;
        OpenClassEnds(t.members);
        assert s[1..|t.members| + 1] == t.members;
      }
    } else {
      assert s[|u|..] == rest;
    }
  }

  lemma {:induction false} OpenClassEnds(members: seq<char>)
    requires ']' !in members
    ensures ClassEnd(members) == |members|
  {
    if members != [] {
      OpenClassEnds(members[1..]);
    }
  }

  lemma {:induction false} SpelledTokIsRead(u: seq<char>, t: Tok, rest: seq<char>)
    requires SpellsTok(u, t, rest)
    ensures u != [] && NextTok(u + rest) == (t, rest)
  {
    if t.Star? || t.Plus? {
      var base, mark := u[..|u| - 1], [u[|u| - 1]];
      SpelledBaseIsRead(base, t.inner, mark + rest);
      assert u + rest == base + (mark + rest) && (mark + rest)[1..] == rest;
    } else {
      SpelledBaseIsRead(u, t, rest);
    }
  }

  lemma {:induction false} ReadClassIsSpelled(s: seq<char>)
    ensures var n := ClassEnd(s); ']' !in s[..n] && (n < |s| ==> s[n] == ']')
  {
    if s != [] && s[0] != ']' {
      ReadClassIsSpelled(s[1..]);
      var n := ClassEnd(s[1..]);
      assert s[..n + 1] == [s[0]] + s[1..][..n];
    }
  }

  lemma {:induction false} ReadBracketIsSpelled(s: seq<char>)
    requires s != [] && s[0] == '['
    ensures var (t, rest) := NextBase(s);
      var n := |s| - |rest|;
      s[n..] == rest && SpellsBase(s[..n], t, rest == [])
  {
    var n := ClassEnd(s[1..]);
    ReadClassIsSpelled(s[1..]);
    assert s[1..][..n] == s[1..n + 1];
    if n + 1 < |s| {
      assert s[..n + 2] == "[" + s[1..n + 1] + "]";
    } else {
      assert s[..|s|] == "[" + s[1..n + 1];
    }
  }

  lemma {:induction false} ReadBaseIsSpelled(s: seq<char>)
    requires s != []
    ensures var (t, rest) := NextBase(s);
      var n := |s| - |rest|;
      s[n..] == rest && SpellsBase(s[..n], t, rest == [])
  {
    if s[0] == '[' {
      ReadBracketIsSpelled(s);
    } else if s[0] == '\\' && |s| > 1 {
      assert s[..2] == ['\\', s[1]];
    }
  }

  lemma {:induction false} ReadTokIsSpelled(s: seq<char>)
    requires s != []
    ensures var (t, rest) := NextTok(s);
      var n := |s| - |rest|;
      s[n..] == rest && SpellsTok(s[..n], t, rest)
  {
    var (base, rest) := NextBase(s);
    ReadBaseIsSpelled(s);
    if rest != [] && rest[0] in "*+" {
      var n := |s| - |rest|;
      assert s[n] == rest[0] && s[..n + 1][..n] == s[..n] && s[n + 1..] == rest[1..];
    }
  }

  lemma {:induction false} SpelledReads(s: seq<char>, toks: seq<Tok>)
    requires Spelled(s, toks)
    ensures ParseToks(s) == toks
    decreases |toks|
  {
    if toks != [] {
      var n: nat :| n <= |s| && SpellsTok(s[..n], toks[0], s[n..]) && Spelled(s[n..], toks[1..]);
      SpelledTokIsRead(s[..n], toks[0], s[n..]);
      assert s[..n] + s[n..] == s;
      SpelledReads(s[n..], toks[1..]);
    }
  }

  lemma {:induction false} ReadIsSpelled(s: seq<char>)
    ensures Spelled(s, ParseToks(s))
    decreases |s|
  {
    if s != [] {
      var (t, rest) := NextTok(s);
      var n := |s| - |rest|;
      ReadTokIsSpelled(s);
      ReadIsSpelled(rest);
      assert ([t] + ParseToks(rest))[1..] == ParseToks(rest);
      assert SpellsTok(s[..n], t, s[n..]) && Spelled(s[n..], ParseToks(rest));
    }
  }

  // The tokens of an alternative are those it spells, and no others.
  lemma {:induction false} TokensAreSpelled(s: seq<char>, toks: seq<Tok>)
    ensures Spelled(s, toks) <==> ParseToks(s) == toks
  {
    ReadIsSpelled(s);
    if Spelled(s, toks) {
      SpelledReads(s, toks);
    }
  }

  // ---- Alternatives and anchors ------------------------------------------------

  function WithBars(parts: seq<seq<char>>): seq<char>
    requires parts != []
  {
    if |parts| == 1 then parts[0] else parts[0] + "|" + WithBars(parts[1..])
  }

  lemma {:induction false} PartsAreBetweenBars(s: seq<char>)
    ensures WithBars(SplitBars(s)) == s && forall part <- SplitBars(s) :: '|' !in part
  {
    if s != [] {
      var rest := SplitBars(s[1..]);
      PartsAreBetweenBars(s[1..]);
      assert s == [s[0]] + s[1..];
      if s[0] == '|' {
        assert ([[]] + rest)[1..] == rest;
      } else {
        var parts := [[s[0]] + rest[0]] + rest[1..];
        assert rest[0] in rest && parts[1..] == rest[1..];
        PrependToParts(s[0], rest);
        forall part | part in parts ensures '|' !in part {
          assert part in rest[1..] ==> part in rest;
        }
      }
    }
  }

  lemma {:induction false} PrependToParts(c: char, rest: seq<seq<char>>)
    requires rest != []
    ensures WithBars([[c] + rest[0]] + rest[1..]) == [c] + WithBars(rest)
  {
    var parts := [[c] + rest[0]] + rest[1..];
    assert parts[1..] == rest[1..];
    if |rest| > 1 {
      assert [c] + rest[0] + "|" + WithBars(rest[1..]) == [c] + (rest[0] + "|" + WithBars(rest[1..]));
    } else {
      assert parts[0] == [c] + rest[0];
    }
  }

  lemma {:induction false} AnchorsAreTold(pattern: seq<char>)
    ensures StartAnchor(pattern) <==> "^" <= pattern
    ensures var start, end := if StartAnchor(pattern) then 1 else 0, |pattern| - if EndAnchor(pattern) then 1 else 0;
      && start <= end
      && pattern == (if StartAnchor(pattern) then "^" else "") + pattern[start..end] + (if EndAnchor(pattern) then "$" else "")
  {
    var start, end := if StartAnchor(pattern) then 1 else 0, |pattern| - if EndAnchor(pattern) then 1 else 0;
    assert pattern[..start] == if StartAnchor(pattern) then "^" else "";
    assert pattern[end..] == if EndAnchor(pattern) then "$" else "";
    assert pattern == pattern[..start] + pattern[start..end] + pattern[end..];
  }

  // Each part spells the tokens at its place.
  ghost predicate EachSpelled(parts: seq<seq<char>>, alternatives: seq<seq<Tok>>) {
    |alternatives| == |parts| && forall k | 0 <= k < |parts| :: Spelled(parts[k], alternatives[k])
  }

  lemma {:induction false} PartsAreSpelled(parts: seq<seq<char>>)
    ensures EachSpelled(parts, ParseParts(parts))
  {
    forall k | 0 <= k < |parts| ensures Spelled(parts[k], ParseParts(parts)[k]) {
      TokensAreSpelled(parts[k], ParseToks(parts[k]));
    }
  }

  // Every pattern is its anchors around alternatives between bars, each of
  // which spells the tokens it is compiled to.
  lemma {:induction false} PatternIsSpelled(pattern: seq<char>) returns (parts: seq<seq<char>>)
    ensures parts != [] && (forall part <- parts :: '|' !in part) && EachSpelled(parts, ParsePattern(pattern).alternatives)
    ensures var p := ParsePattern(pattern);
      && pattern == (if p.anchoredStart then "^" else "") + WithBars(parts) + (if p.anchoredEnd then "$" else "")
      && (p.anchoredStart <==> "^" <= pattern)
      && (p.anchoredEnd <==> |pattern| > 0 && pattern[|pattern| - 1] == '$' && (|pattern| > 1 ==> pattern[|pattern| - 2] != '\\'))
  {
    AnchorsAreTold(pattern);
    var body := pattern[if StartAnchor(pattern) then 1 else 0 .. |pattern| - if EndAnchor(pattern) then 1 else 0];
    parts := SplitBars(body);
    PartsAreBetweenBars(body);
    PartsAreSpelled(parts);
  }
}
