/** What MariaDB's pass takes for quoted text, a parameter and its casts, told without it. */
module MariaDbLexing {
  import opened Wrappers
  import opened Characters
  import opened BindSyntax
  import opened BindRewriting
  import opened PlaceholderMeaning
  import opened Lexing
  import opened MariaDbBinds
  import opened MariaDbRoutes

  // ---- Quoted text ------------------------------------------------------------------

  // The pass from a literal, a quoted name or a back-ticked one on.
  predicate IsLeft(text: string, quote: Option<char>, rest: string, after: Option<char>, count: nat) {
    Scan(text + rest, quote, count) == Precede(text, [], Scan(rest, after, count))
  }

  lemma {:induction false} LeftOneMore(head: string, quote: Option<char>, between: Option<char>, text: string, rest: string,
    after: Option<char>, count: nat)
    requires head != "" && NextStep(head + (text + rest), quote, count) == Copy(|head|, between)
    requires IsLeft(text, between, rest, after, count)
    ensures IsLeft(head + text, quote, rest, after, count)
  {
    var s := head + (text + rest);
    assert s == head + text + rest;
    assert s[..|head|] == head && s[|head|..] == text + rest;
    PrecedeTwice(head, [], text, [], Scan(rest, after, count));
  }

  lemma {:induction false} ClosingIsLeft(quote: char, rest: string, count: nat)
    requires rest != "" ==> rest[0] != quote
    ensures IsLeft([quote], Some(quote), rest, None, count)
  {
    var s := [quote] + rest;
    assert s[0] == quote && s[..1] == [quote] && s[1..] == rest && (|s| > 1 ==> s[1] == rest[0]);
  }

  lemma {:induction false} ContentIsLeft(content: string, quote: char, closed: bool, rest: string, count: nat)
    requires if closed then rest != "" ==> rest[0] != quote else rest == ""
    ensures IsLeft(Doubled(content, quote) + (if closed then [quote] else ""), Some(quote), rest,
      if closed then None else Some(quote), count)
    decreases |content|
  {
    var end, after := if closed then [quote] else "", if closed then None else Some(quote);
    if content == "" {
      assert "" + end == end;
      if closed {
        ClosingIsLeft(quote, rest, count);
      } else {
        PrecedeTwice("", [], "", [], Scan("", after, count));
        assert "" + rest == rest;
      }
    } else {
      ContentIsLeft(content[1..], quote, closed, rest, count);
      var head := if content[0] == quote then [quote, quote] else [content[0]];
      var text := Doubled(content[1..], quote) + end;
      var s := head + (text + rest);
      assert s[0] == head[0] && (|head| == 2 ==> s[1] == quote);
      LeftOneMore(head, Some(quote), Some(quote), text, rest, after, count);
      assert head + text == Doubled(content, quote) + end;
    }
  }

  // Text in quotes of any of the three kinds is left as it is, whatever it
  // holds, parameters included, and closed or not.
  lemma {:induction false} QuotedTextIsLeft(content: string, quote: char, closed: bool, rest: string, count: nat)
    requires quote in ['\'', '"', '`']
    requires if closed then rest != "" ==> rest[0] != quote else rest == ""
    ensures IsLeft([quote] + (Doubled(content, quote) + if closed then [quote] else ""), None, rest,
      if closed then None else Some(quote), count)
  {
    var text := Doubled(content, quote) + if closed then [quote] else "";
    ContentIsLeft(content, quote, closed, rest, count);
    var s := [quote] + (text + rest);
    assert s[0] == quote;
    LeftOneMore([quote], None, Some(quote), text, rest, if closed then None else Some(quote), count);
  }

  // ---- Casts ------------------------------------------------------------------------

  // A cast as a statement may write it: white space before the type's name,
  // which is the one at the given place in the list, in letters of any case.
  datatype Link = Link(blanks: string, name: string, kind: nat)

  predicate IsLink(l: Link) {
    Blank(l.blanks) && l.kind < 10 && SameName(l.name, CASTS[l.kind].0)
  }

  predicate AreLinks(links: seq<Link>) {
    forall k | 0 <= k < |links| :: IsLink(links[k])
  }

  function ChainText(links: seq<Link>, rest: string): string {
    if links == [] then rest else "::" + (links[0].blanks + (links[0].name + ChainText(links[1..], rest)))
  }

  function CastsNamed(links: seq<Link>): (casts: seq<Cast>)
    requires AreLinks(links)
    ensures |casts| == |links|
  {
    seq(|links|, k requires 0 <= k < |links| => CASTS[links[k].kind].1)
  }

  // Where a name differs from one before it in the list.
  function TellsApart(k: nat, j: nat): nat {
    if j == 3 && k == 4 then 9
    else if (j == 0 && (k == 3 || k == 4)) || (j == 2 && (k == 5 || k == 8)) || (j == 5 && k == 8) || (j == 6 && k == 9) then 1
    else 0
  }

  lemma {:induction false} NamesDiffer(k: nat, j: nat)
    requires j < k < 10
    ensures var at := TellsApart(k, j);
      && at < |CASTS[j].0| && (at == 9 <==> j == 3 && k == 4) && |CASTS[4].0| == 9
      && (at != 9 ==> at < |CASTS[k].0| && CASTS[k].0[at] != CASTS[j].0[at])
      && (at != 9 ==> 'a' <= CASTS[k].0[at] <= 'z' && 'a' <= CASTS[j].0[at] <= 'z')
      && CASTS[3].0[9] == 't'
  {
  }

  lemma LowerCaseDiffers(c: char, a: char, b: char)
    requires SameLetter(c, a) && 'a' <= a <= 'z' && 'a' <= b <= 'z' && a != b
    ensures Upper(c) != Upper(b)
  {
  }

  lemma {:induction false} SkipsOther(word: string, tail: string, k: nat, j: nat)
    requires j < k < 10 && SameName(word, CASTS[k].0) && AfterName(tail)
    ensures FindCast(word + tail, CASTS[j..]) == FindCast(word + tail, CASTS[j + 1..])
  {
    var s, at := word + tail, TellsApart(k, j);
    NamesDiffer(k, j);
    if at == 9 {
      assert |s| > 9 ==> s[9] == tail[0];
    } else {
      assert s[at] == word[at];
      LowerCaseDiffers(word[at], CASTS[k].0[at], CASTS[j].0[at]);
    }
    NoMatch(s, j, at);
  }

  lemma {:induction false} FindsAnyName(word: string, tail: string, k: nat, j: nat)
    requires j <= k < 10 && SameName(word, CASTS[k].0) && AfterName(tail)
    ensures FindCast(word + tail, CASTS[j..]) == Some(CASTS[k])
    decreases k - j
  {
    if j == k {
      assert (word + tail)[..|word|] == word;
      UpperCaseIgnoresCase(word, CASTS[k].0);
      assert CASTS[k..][0] == CASTS[k];
    } else {
      SkipsOther(word, tail, k, j);
      FindsAnyName(word, tail, k, j + 1);
    }
  }

  lemma {:induction false} NamesStartBare(k: nat)
    requires k < 10
    ensures CASTS[k].0 != "" && 'a' <= CASTS[k].0[0] <= 'z'
  {
  }

  lemma {:induction false} LinkIsRead(l: Link, tail: string)
    requires IsLink(l) && AfterName(tail)
    ensures NextCast("::" + (l.blanks + (l.name + tail))) == Some((CASTS[l.kind].1, tail))
  {
    var s, named := "::" + (l.blanks + (l.name + tail)), l.name + tail;
    NamesStartBare(l.kind);
    assert named[0] == l.name[0] && SameLetter(l.name[0], CASTS[l.kind].0[0]);
    FrontComesOff(l.blanks, named);
    FindsAnyName(l.name, tail, l.kind, 0);
    assert CASTS[0..] == CASTS && s[2..] == l.blanks + named && named[|l.name|..] == tail;
  }

  lemma {:induction false} CastsNamedFront(links: seq<Link>)
    requires AreLinks(links) && links != []
    ensures CastsNamed(links) == [CASTS[links[0].kind].1] + CastsNamed(links[1..])
  {
  }

  lemma {:induction false} OneLinkMore(s: string, cast: Cast, tail: string, casts: seq<Cast>, rest: string)
    requires NextCast(s) == Some((cast, tail)) && CastsOf(tail) == Chain(casts, rest)
    ensures CastsOf(s) == Chain([cast] + casts, rest)
  {
  }

  // A chain of casts is read whole, however it is written.
  lemma {:induction false} AnyChainIsRead(links: seq<Link>, rest: string)
    requires AreLinks(links) && EndsChain(rest)
    ensures CastsOf(ChainText(links, rest)) == Chain(CastsNamed(links), rest)
  {
    if links == [] {
      assert NextCast(rest) == None;
    } else {
      var tail := ChainText(links[1..], rest);
      AnyChainIsRead(links[1..], rest);
      LinkIsRead(links[0], tail);
      OneLinkMore(ChainText(links, rest), CASTS[links[0].kind].1, tail, CastsNamed(links[1..]), rest);
      CastsNamedFront(links);
    }
  }

  // ---- Parameters -------------------------------------------------------------------

  predicate Named(links: seq<Link>, name: string) {
    exists k | 0 <= k < |links| :: SameName(links[k].name, name)
  }

  predicate IsNumberName(name: string) {
    || SameName(name, "numeric") || SameName(name, "double precision")
    || SameName(name, "integer") || SameName(name, "bigint") || SameName(name, "decimal")
  }

  predicate NamesNumber(links: seq<Link>) {
    exists k | 0 <= k < |links| :: IsNumberName(links[k].name)
  }

  // What a parameter becomes, by the names of its casts.
  function ReplacedBy(links: seq<Link>): string {
    if links == [] then "?"
    else if Named(links, "bytea") then "CAST(? AS BINARY)"
    else if SameName(links[0].name, "text") && !NamesNumber(links) then "CAST(? AS CHAR(4000))"
    else "?"
  }

  lemma {:induction false} KindIsTold(l: Link, k: nat)
    requires IsLink(l) && k < 10
    ensures SameName(l.name, CASTS[k].0) <==> l.kind == k
  {
    if l.kind != k {
      var i, j := if l.kind < k then l.kind else k, if l.kind < k then k else l.kind;
      var at := TellsApart(j, i);
      NamesDiffer(j, i);
      if at != 9 && at < |l.name| {
        LowerCaseDiffers(l.name[at], CASTS[l.kind].0[at], CASTS[k].0[at]);
      }
    }
  }

  lemma {:induction false} NameInChain(links: seq<Link>, k: nat)
    requires AreLinks(links) && k < 10
    ensures Named(links, CASTS[k].0) <==> exists i | 0 <= i < |links| :: links[i].kind == k
  {
    forall i | 0 <= i < |links|
      ensures SameName(links[i].name, CASTS[k].0) <==> links[i].kind == k
    {
      KindIsTold(links[i], k);
    }
  }

  lemma CastNames()
    ensures CASTS[0] == ("text", CastText) && CASTS[2] == ("bytea", CastBytea)
    ensures CASTS[1].0 == "numeric" && CASTS[6].0 == "double precision" && CASTS[7].0 == "integer"
    ensures CASTS[8].0 == "bigint" && CASTS[9].0 == "decimal"
    ensures forall k | 0 <= k < 10 :: IsNumeric(CASTS[k].1) <==> k in [1, 6, 7, 8, 9]
    ensures forall k | 0 <= k < 10 :: (CASTS[k].1 == CastBytea <==> k == 2) && (CASTS[k].1 == CastText <==> k == 0)
  {
  }

  lemma {:induction false} ByteaIsNamed(links: seq<Link>)
    requires AreLinks(links)
    ensures CastBytea in CastsNamed(links) <==> Named(links, "bytea")
  {
    CastNames();
    NameInChain(links, 2);
    if CastBytea in CastsNamed(links) {
      var i :| 0 <= i < |links| && CastsNamed(links)[i] == CastBytea;
      assert links[i].kind == 2;
    }
    if i :| 0 <= i < |links| && links[i].kind == 2 {
      assert CastsNamed(links)[i] == CastBytea;
    }
  }

  lemma {:induction false} NumbersAreTold(l: Link)
    requires IsLink(l)
    ensures IsNumeric(CASTS[l.kind].1) <==> IsNumberName(l.name)
  {
    CastNames();
    KindIsTold(l, 1);
    KindIsTold(l, 6);
    KindIsTold(l, 7);
    KindIsTold(l, 8);
    KindIsTold(l, 9);
  }

  lemma {:induction false} NumberIsNamed(links: seq<Link>)
    requires AreLinks(links)
    ensures (exists c <- CastsNamed(links) :: IsNumeric(c)) <==> NamesNumber(links)
  {
    forall i | 0 <= i < |links|
      ensures IsNumeric(CastsNamed(links)[i]) <==> IsNumberName(links[i].name)
    {
      NumbersAreTold(links[i]);
    }
  }

  lemma {:induction false} ReplacementIsByName(links: seq<Link>)
    requires AreLinks(links)
    ensures Replacement(CastsNamed(links)) == ReplacedBy(links)
  {
    CastNames();
    ByteaIsNamed(links);
    NumberIsNamed(links);
    if links != [] {
      KindIsTold(links[0], 0);
    }
  }

  lemma {:induction false} DigitsAreRead(s: string, digits: string, chain: string)
    requires s == "$" + digits + chain && digits != "" && AllDigits(digits) && (chain != "" ==> !IsDigit(chain[0]))
    ensures DollarDigit(s, 0) && !IsQuote(s[0]) && DigitEnd(s, 1) == 1 + |digits|
    ensures s[1..1 + |digits|] == digits && s[1 + |digits|..] == chain
  {
    var j := 1 + |digits|;
    assert forall k | 1 <= k < j :: s[k] == digits[k - 1];
    if chain != "" {
      assert s[j] == chain[0];
    }
    assert s[1] == digits[0] && IsDigit(digits[0]);
    DigitsEndAt(s, 1, j);
  }

  // A parameter is a dollar and a number that some value has, with its casts.
  lemma {:induction false} ParametersAreRead(digits: string, links: seq<Link>, rest: string, count: nat)
    requires digits != "" && AllDigits(digits) && AreLinks(links) && EndsChain(rest)
    requires count < 0x1_0000_0000_0000_0000
    ensures var n, s := Decimal(digits), "$" + digits + ChainText(links, rest);
      NextStep(s, None, count) ==
        if 1 <= n <= count then Parameter(n - 1, ReplacedBy(links), rest)
        else Unknown(if n < 0x1_0000_0000_0000_0000 then n else 0)
  {
    var chain := ChainText(links, rest);
    var s := "$" + digits + chain;
    DigitsAreRead(s, digits, chain);
    AnyChainIsRead(links, rest);
    ReplacementIsByName(links);
    ParameterStepIs(s, 1 + |digits|, digits, chain, count);
  }
}
