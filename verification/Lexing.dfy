/** What the lexers of the bind rewriters take for one thing, told without them. */
module Lexing {
  import opened Wrappers
  import opened Characters
  import opened Machine
  import opened BindSyntax
  import opened BindRewriting
  import opened PlaceholderMeaning

  // ---- Quoted text ------------------------------------------------------------------

  // With each quote written twice.
  function Doubled(content: string, quote: char): string {
    if content == "" then ""
    else (if content[0] == quote then [quote, quote] else [content[0]]) + Doubled(content[1..], quote)
  }

  // The text from `i` to `end` holds `content`: up to a single quote, or to the
  // end of the text if there is none.
  predicate Holds(s: string, i: nat, quote: char, end: nat, content: string) {
    && i <= end <= |s|
    && (|| (s[i..end] == Doubled(content, quote) + [quote] && (end < |s| ==> s[end] != quote))
        || (end == |s| && s[i..end] == Doubled(content, quote)))
  }

  lemma {:induction false} HeldFront(s: string, i: nat, quote: char, end: nat, content: string)
    requires Holds(s, i, quote, end, content) && content != ""
    ensures i + (if content[0] == quote then 2 else 1) <= end
    ensures s[i] == content[0] && (content[0] == quote ==> s[i + 1] == quote)
    ensures Holds(s, i + (if content[0] == quote then 2 else 1), quote, end, content[1..])
  {
    var n := if content[0] == quote then 2 else 1;
    var front := if content[0] == quote then [quote, quote] else [content[0]];
    var text := s[i..end];
    assert Doubled(content, quote) == front + Doubled(content[1..], quote);
    assert front + Doubled(content[1..], quote) + [quote] == front + (Doubled(content[1..], quote) + [quote]);
    assert text[..n] == front;
    assert s[i] == text[0] && (n == 2 ==> s[i + 1] == text[1]);
    assert s[i + n..end] == text[n..];
  }

  lemma {:induction false} HeldEnds(s: string, i: nat, quote: char, end: nat, content: string)
    requires Holds(s, i, quote, end, content)
    ensures QuoteEnd(s, i, quote) == end
    decreases |content|
  {
    if content == "" {
      assert Doubled(content, quote) + [quote] == [quote];
      if s[i..end] == [quote] {
        assert s[i] == s[i..end][0];
      }
    } else {
      HeldFront(s, i, quote, end, content);
      HeldEnds(s, i + (if content[0] == quote then 2 else 1), quote, end, content[1..]);
    }
  }

  lemma {:induction false} HoldOneMore(s: string, i: nat, n: nat, quote: char, end: nat, content: string)
    requires i < |s| && n == (if s[i] == quote then 2 else 1) && i + n <= |s| && (n == 2 ==> s[i + 1] == quote)
    requires Holds(s, i + n, quote, end, content)
    ensures Holds(s, i, quote, end, [s[i]] + content)
  {
    var more := [s[i]] + content;
    assert more[1..] == content;
    assert s[i..end] == s[i..i + n] + s[i + n..end];
    assert s[i..i + n] == if n == 2 then [quote, quote] else [s[i]];
    assert s[i..i + n] + (Doubled(content, quote) + [quote]) == s[i..i + n] + Doubled(content, quote) + [quote];
  }

  lemma {:induction false} EndHolds(s: string, i: nat, quote: char) returns (content: string)
    requires i <= |s|
    ensures Holds(s, i, quote, QuoteEnd(s, i, quote), content)
    decreases |s| - i
  {
    if i == |s| {
      content := "";
      assert s[i..i] == "";
    } else if s[i] == quote && !(i + 1 < |s| && s[i + 1] == quote) {
      content := "";
      assert s[i..i + 1] == [quote] && "" + [quote] == [quote];
    } else {
      var n := if s[i] == quote then 2 else 1;
      var rest := EndHolds(s, i + n, quote);
      HoldOneMore(s, i, n, quote, QuoteEnd(s, i, quote), rest);
      content := [s[i]] + rest;
    }
  }

  // A quote ends where its text does, in which quotes are written twice.
  lemma {:induction false} QuotesHoldText(s: string, i: nat, quote: char, end: nat)
    requires i <= |s|
    ensures QuoteEnd(s, i, quote) == end <==> exists content :: Holds(s, i, quote, end, content)
  {
    var content := EndHolds(s, i, quote);
    if text :| Holds(s, i, quote, end, text) {
      HeldEnds(s, i, quote, end, text);
    }
  }

  // ---- Comments and single characters -----------------------------------------------

  // A comment reaches to the end of its line,
  lemma {:induction false} LineCommentsEnd(s: string, i: nat, end: nat)
    requires At(s, i, '-', '-') && end == NextLexeme(s, i).1
    ensures NextLexeme(s, i).0 == Verbatim(s[i..end]) && i + 2 <= end
    ensures (forall k | i <= k < end :: s[k] != '\n') && (end < |s| ==> s[end] == '\n')
  {
  }

  // or behind its first closing mark, or if there is none to the end of the text.
  lemma {:induction false} BlockCommentsEnd(s: string, i: nat, end: nat)
    requires At(s, i, '/', '*') && end == NextLexeme(s, i).1
    ensures NextLexeme(s, i).0 == Verbatim(s[i..end])
    ensures (exists k: nat :: i + 2 <= k && At(s, k, '*', '/')) ==>
      i + 4 <= end && At(s, end - 2, '*', '/') && forall k: nat | i + 2 <= k < end - 2 :: !At(s, k, '*', '/')
    ensures !(exists k: nat :: i + 2 <= k && At(s, k, '*', '/')) ==> end == |s|
  {
  }

  // What opens neither a comment nor quoted text nor a placeholder is a
  // character by itself.
  lemma {:induction false} CharactersStandAlone(s: string, i: nat)
    requires i < |s| && s[i] != '\'' && s[i] != '"' && !At(s, i, '-', '-') && !At(s, i, '/', '*')
    requires !(s[i] == ':' && i + 1 < |s| && IsWord(s[i + 1]))
    ensures NextLexeme(s, i) == (Verbatim([s[i]]), i + 1)
  {
    PlaceholdersAreColonWords(s, i);
    assert s[i..i + 1] == [s[i]];
  }

  // ---- Literals ---------------------------------------------------------------------

  lemma {:induction false} DoubleQuotesDouble(text: string)
    ensures DoubleQuotes(text) == Doubled(text, '\'')
  {
    if text != "" {
      DoubleQuotesDouble(text[1..]);
    }
  }

  lemma {:induction false} DoubledTellsText(a: string, b: string, quote: char)
    requires Doubled(a, quote) == Doubled(b, quote)
    ensures a == b
  {
    if a != "" && b != "" {
      var x, y := Doubled(a, quote), Doubled(b, quote);
      assert x[0] == a[0] && y[0] == b[0];
      var n := if a[0] == quote then 2 else 1;
      assert x[n..] == Doubled(a[1..], quote) && y[n..] == Doubled(b[1..], quote);
      DoubledTellsText(a[1..], b[1..], quote);
      assert a == [a[0]] + a[1..] && b == [b[0]] + b[1..];
    }
  }

  // The literal of a text is one lexeme, whatever the text holds, and holds that text.
  lemma {:induction false} TextLiteralReadsBack(text: string, rest: string)
    requires rest != "" ==> rest[0] != '\''
    ensures var literal := Literal(String(text));
      && literal.Success? && NextLexeme(literal.value + rest, 0) == (Verbatim(literal.value), |literal.value|)
      && Holds(literal.value + rest, 1, '\'', |literal.value|, text)
  {
    var literal := "'" + DoubleQuotes(text) + "'";
    var s := literal + rest;
    DoubleQuotesDouble(text);
    assert s[0] == '\'' && s[1..|literal|] == Doubled(text, '\'') + ['\''];
    assert |literal| < |s| ==> s[|literal|] == rest[0];
    HeldEnds(s, 1, '\'', |literal|, text);
    assert s[0..|literal|] == literal;
  }

  // The value of a lower-case hexadecimal digit.
  function HexValue(c: char): int {
    if '0' <= c <= '9' then c as int - '0' as int else if 'a' <= c <= 'f' then c as int - 'a' as int + 10 else -1
  }

  lemma {:induction false} HexDigits(n: nat)
    requires n < 16
    ensures HexValue(HexDigit(n)) == n
  {
  }

  // The literal of bytes is decoded to them.
  lemma {:induction false} HexReadsBack(bytes: seq<byte>)
    ensures |Hex(bytes)| == 2 * |bytes|
    ensures forall k | 0 <= k < |bytes| ::
      bytes[k] as int == 16 * HexValue(Hex(bytes)[2 * k]) + HexValue(Hex(bytes)[2 * k + 1])
  {
    if bytes != [] {
      HexReadsBack(bytes[1..]);
      HexDigits(bytes[0] / 16);
      HexDigits(bytes[0] % 16);
      forall k | 0 <= k < |bytes|
        ensures bytes[k] as int == 16 * HexValue(Hex(bytes)[2 * k]) + HexValue(Hex(bytes)[2 * k + 1])
      {
        if k > 0 {
          assert Hex(bytes)[2 * k] == Hex(bytes[1..])[2 * (k - 1)];
          assert Hex(bytes)[2 * k + 1] == Hex(bytes[1..])[2 * (k - 1) + 1];
        }
      }
    }
  }

  // ---- Words -------------------------------------------------------------------------

  predicate IsOneWord(s: string) {
    s != "" && forall k | 0 <= k < |s| :: !IsSpace(s[k])
  }

  // Words, each behind its white space.
  predicate AreSpaced(blanks: seq<string>, words: seq<string>) {
    && |blanks| == |words|
    && forall k | 0 <= k < |words| :: IsOneWord(words[k]) && Blank(blanks[k]) && (k > 0 ==> blanks[k] != "")
  }

  function Spaced(blanks: seq<string>, words: seq<string>, end: string): string
    requires |blanks| == |words|
  {
    if words == [] then end else blanks[0] + (words[0] + Spaced(blanks[1..], words[1..], end))
  }

  lemma {:induction false} WordComesFirst(word: string, rest: string)
    requires IsOneWord(word) && (rest != "" ==> IsSpace(rest[0]))
    ensures FirstWord(word + rest) == |word|
    decreases |word|
  {
    assert (word + rest)[0] == word[0] && (word + rest)[1..] == word[1..] + rest;
    if |word| > 1 {
      assert forall k | 0 <= k < |word| - 1 :: word[1..][k] == word[k + 1];
      WordComesFirst(word[1..], rest);
    } else {
      assert word[1..] + rest == rest;
    }
  }

  function InCapitals(words: seq<string>): (r: seq<string>)
    ensures |r| == |words|
  {
    seq(|words|, k requires 0 <= k < |words| => UpperCase(words[k]))
  }

  lemma {:induction false} SpacedFront(blanks: seq<string>, words: seq<string>, end: string)
    requires AreSpaced(blanks, words) && Blank(end) && words != []
    ensures AreSpaced(blanks[1..], words[1..])
    ensures var rest := Spaced(blanks[1..], words[1..], end);
      && (rest != "" ==> |words| == 1 || rest[0] == blanks[1][0])
      && (rest != "" ==> IsSpace(rest[0]))
      && TrimStart(Spaced(blanks, words, end)) == words[0] + rest
  {
    var rest := Spaced(blanks[1..], words[1..], end);
    if |words| > 1 {
      assert blanks[1] != "" && rest[0] == blanks[1][0];
    }
    assert words[0] != "" && (words[0] + rest)[0] == words[0][0];
    FrontComesOff(blanks[0], words[0] + rest);
  }

  lemma {:induction false} WordsAreFound(blanks: seq<string>, words: seq<string>, end: string, n: nat)
    requires AreSpaced(blanks, words) && Blank(end)
    ensures UpperWords(Spaced(blanks, words, end), n) == InCapitals(words[..if n < |words| then n else |words|])
    decreases n
  {
    if n > 0 && words != [] {
      var rest := Spaced(blanks[1..], words[1..], end);
      SpacedFront(blanks, words, end);
      WordComesFirst(words[0], rest);
      WordsAreFound(blanks[1..], words[1..], end, n - 1);
      var m := if n < |words| then n else |words|;
      assert words[..m] == [words[0]] + words[1..][..m - 1];
      assert (words[0] + rest)[..|words[0]|] == words[0] && (words[0] + rest)[|words[0]|..] == rest;
    } else if words == [] {
      FrontComesOff(end, "");
      assert end + "" == end;
    }
  }

  lemma {:induction false} FirstWordEnds(t: string)
    ensures var n := FirstWord(t);
      (forall k | 0 <= k < n :: !IsSpace(t[k])) && (n < |t| ==> IsSpace(t[n]))
  {
    if t != "" && !IsSpace(t[0]) {
      FirstWordEnds(t[1..]);
      var n := FirstWord(t[1..]);
      assert forall k | 1 <= k < n + 1 :: t[k] == t[1..][k - 1];
    }
  }

  // Every text is words behind white space.
  lemma {:induction false} TextIsWords(s: string) returns (blanks: seq<string>, words: seq<string>, end: string)
    ensures AreSpaced(blanks, words) && Blank(end) && s == Spaced(blanks, words, end)
    decreases |s|
  {
    var front := BlankFront(s);
    var t := TrimStart(s);
    if t == "" {
      blanks, words, end := [], [], s;
      assert front + "" == front;
    } else {
      var n := FirstWord(t);
      FirstWordEnds(t);
      TrimStartIsBare(s);
      var moreBlanks, moreWords;
      moreBlanks, moreWords, end := TextIsWords(t[n..]);
      MoreWords(front, t[..n], moreBlanks, moreWords, end);
      blanks, words := [front] + moreBlanks, [t[..n]] + moreWords;
      assert t == t[..n] + t[n..];
    }
  }

  lemma {:induction false} TrimStartIsBare(s: string)
    ensures TrimStart(s) != "" ==> !IsSpace(TrimStart(s)[0]) && FirstWord(TrimStart(s)) > 0
    ensures |TrimStart(s)| <= |s|
  {
    TrimStartShortens(s);
    if s != "" && IsSpace(s[0]) {
      TrimStartIsBare(s[1..]);
    }
  }

  lemma {:induction false} SpacedStarts(blanks: seq<string>, words: seq<string>, end: string)
    requires AreSpaced(blanks, words) && words != []
    ensures var s := Spaced(blanks, words, end);
      s != "" && s[0] == if blanks[0] == "" then words[0][0] else blanks[0][0]
  {
    assert words[0] != "";
  }

  lemma {:induction false} MoreWords(front: string, word: string, blanks: seq<string>, words: seq<string>, end: string)
    requires Blank(front) && IsOneWord(word) && AreSpaced(blanks, words)
    requires var rest := Spaced(blanks, words, end); rest != "" ==> IsSpace(rest[0])
    ensures AreSpaced([front] + blanks, [word] + words)
    ensures Spaced([front] + blanks, [word] + words, end) == front + (word + Spaced(blanks, words, end))
  {
    assert ([front] + blanks)[1..] == blanks && ([word] + words)[1..] == words;
    if words != [] {
      SpacedStarts(blanks, words, end);
    }
  }

  // ---- Stored programs ---------------------------------------------------------------

  predicate InCapitalLetters(s: string) {
    forall k | 0 <= k < |s| :: 'A' <= s[k] <= 'Z'
  }

  lemma {:induction false} KeywordIsTold(word: string, keyword: string)
    requires InCapitalLetters(keyword)
    ensures UpperCase(word) == keyword <==> SameName(word, keyword)
  {
    assert UpperCase(keyword) == keyword;
    UpperCaseIgnoresCase(word, keyword);
  }

  predicate IsModifier(word: string) {
    || SameName(word, "OR") || SameName(word, "REPLACE")
    || SameName(word, "EDITIONABLE") || SameName(word, "NONEDITIONABLE")
  }

  predicate IsProgram(word: string) {
    || SameName(word, "TRIGGER") || SameName(word, "FUNCTION")
    || SameName(word, "PROCEDURE") || SameName(word, "PACKAGE")
  }

  lemma {:induction false} ModifierIsTold(word: string)
    ensures UpperCase(word) in ["OR", "REPLACE", "EDITIONABLE", "NONEDITIONABLE"] <==> IsModifier(word)
  {
    KeywordIsTold(word, "OR");
    KeywordIsTold(word, "REPLACE");
    KeywordIsTold(word, "EDITIONABLE");
    KeywordIsTold(word, "NONEDITIONABLE");
  }

  lemma {:induction false} ProgramIsTold(word: string)
    ensures UpperCase(word) in ["TRIGGER", "FUNCTION", "PROCEDURE", "PACKAGE"] <==> IsProgram(word)
  {
    KeywordIsTold(word, "TRIGGER");
    KeywordIsTold(word, "FUNCTION");
    KeywordIsTold(word, "PROCEDURE");
    KeywordIsTold(word, "PACKAGE");
  }

  // A program's name behind nothing but modifiers.
  ghost predicate NamesProgram(words: seq<string>) {
    exists k | 0 <= k < |words| :: IsProgram(words[k]) && forall j | 0 <= j < k :: IsModifier(words[j])
  }

  lemma ProgramsAreNoModifiers(word: string)
    ensures !(IsModifier(word) && IsProgram(word))
  {
    ModifierIsTold(word);
    ProgramIsTold(word);
  }

  lemma {:induction false} SkippingFindsProgram(words: seq<string>)
    ensures var kind := SkipModifiers(InCapitals(words));
      NamesProgram(words) <==> kind != [] && kind[0] in ["TRIGGER", "FUNCTION", "PROCEDURE", "PACKAGE"]
  {
    if words != [] {
      var rest := words[1..];
      ModifierIsTold(words[0]);
      ProgramIsTold(words[0]);
      assert InCapitals(words)[1..] == InCapitals(rest);
      if IsModifier(words[0]) {
        SkippingFindsProgram(rest);
        ProgramsAreNoModifiers(words[0]);
        NamedLater(words);
      }
    }
  }

  lemma {:induction false} NamedLater(words: seq<string>)
    requires words != [] && IsModifier(words[0]) && !IsProgram(words[0])
    ensures NamesProgram(words) <==> NamesProgram(words[1..])
  {
    var rest := words[1..];
    if k :| 0 <= k < |words| && IsProgram(words[k]) && forall j | 0 <= j < k :: IsModifier(words[j]) {
      assert IsProgram(rest[k - 1]);
    }
    if k :| 0 <= k < |rest| && IsProgram(rest[k]) && forall j | 0 <= j < k :: IsModifier(rest[j]) {
      assert IsProgram(words[k + 1]) && forall j | 1 <= j < k + 1 :: words[j] == rest[j - 1];
    }
  }

  // The statements taken for programs: blocks, and those that create one with
  // its kind among the first five words, in letters of any case and whatever
  // white space between them.
  lemma {:induction false} ProgramsAreTold(blanks: seq<string>, words: seq<string>, end: string)
    requires AreSpaced(blanks, words) && Blank(end)
    ensures IsPlsqlDefinition(Spaced(blanks, words, end)) <==>
      && words != []
      && (|| SameName(words[0], "BEGIN") || SameName(words[0], "DECLARE")
          || (SameName(words[0], "CREATE") && NamesProgram(words[1..if |words| < 5 then |words| else 5])))
  {
    WordsAreFound(blanks, words, end, 5);
    if words != [] {
      var m := if 5 < |words| then 5 else |words|;
      KeywordIsTold(words[0], "BEGIN");
      KeywordIsTold(words[0], "DECLARE");
      KeywordIsTold(words[0], "CREATE");
      assert InCapitals(words[..m])[1..] == InCapitals(words[1..m]);
      SkippingFindsProgram(words[1..m]);
    }
  }
}
