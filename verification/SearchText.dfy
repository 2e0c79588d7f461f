/** Search texts as users write them: outer spaces, quoted and bare terms, and what the search box filters by. */
module SearchText {
  import opened Wrappers
  import opened SearchLexer
  import opened SearchTokens
  import opened SearchParser
  import opened SearchGrammar
  import opened SearchMeaning

  // ---- Outer spaces --------------------------------------------------------------------------------

  predicate Blank(s: string) {
    forall k :: 0 <= k < |s| ==> IsSpace(s[k])
  }

  /** Not empty, and without a space at either end. */
  predicate Tight(s: string) {
    s != "" && !IsSpace(s[0]) && !IsSpace(s[|s| - 1])
  }

  lemma {:induction false} StripsLeft(left: string, rest: string)
    requires Blank(left) && (rest == "" || !IsSpace(rest[0]))
    ensures StripLeft(left + rest) == rest
  {
    if left == "" {
      assert left + rest == rest;
    } else {
      assert (left + rest)[1..] == left[1..] + rest;
      StripsLeft(left[1..], rest);
    }
  }

  lemma {:induction false} StripsRight(rest: string, right: string)
    requires Blank(right) && (rest == "" || !IsSpace(rest[|rest| - 1]))
    ensures StripRight(rest + right) == rest
  {
    if right == "" {
      assert rest + right == rest;
    } else {
      var n := |right| - 1;
      assert (rest + right)[..|rest| + n] == rest + right[..n] && (rest + right)[|rest| + n] == right[n];
      StripsRight(rest, right[..n]);
    }
  }

  /** Trimming takes the spaces at both ends and nothing else. */
  lemma {:induction false} StripIs(left: string, core: string, right: string)
    requires Blank(left) && Blank(right) && (Tight(core) || (core == "" && right == ""))
    ensures Strip(left + core + right) == core
  {
    assert left + core + right == left + (core + right);
    StripsLeft(left, core + right);
    StripsRight(core, right);
  }

  // ---- What a text filters by ------------------------------------------------------------------------

  /** The text, between outer spaces, is made of these pieces, within the limits. */
  ghost predicate Written(ps: seq<Piece>, left: string, core: string, right: string) {
    && Blank(left) && Blank(right) && Tight(core)
    && Spells(ps, "", core) && |core| <= 256 && |AllTerms(ps)| <= 32
  }

  lemma {:induction false} NoTermsIsBlank(ps: seq<Piece>, tail: string)
    requires Fit(ps, tail) && AllTerms(ps) == []
    ensures Blank(Text(ps))
  {
    if ps != [] {
      NoTermsIsBlank(ps[1..], tail);
    }
  }

  lemma {:induction false} WrittenTokens(ps: seq<Piece>, left: string, core: string, right: string)
    requires Written(ps, left, core, right)
    ensures Strip(left + core + right) == core && Strip(core) == core
    ensures Tokens(core) == Ok(AllTerms(ps)) && AllTerms(ps) != []
    ensures Validated(left + core + right) == Checked(AllTerms(ps)) && Validated(core) == Checked(AllTerms(ps))
  {
    StripIs(left, core, right);
    StripIs("", core, "");
    assert "" + core + "" == core && Text(ps) + "" == Text(ps);
    TokensIff(core, AllTerms(ps));
    if AllTerms(ps) == [] {
      NoTermsIsBlank(ps, "");
    }
  }

  /** A text without operators and parentheses filters by the whole trimmed text as one term; with a quote
      character anywhere in it, by its first token alone. */
  lemma {:induction false} FilterPlain(ps: seq<Piece>, left: string, core: string, right: string)
    requires Written(ps, left, core, right)
    requires forall k :: 0 <= k < |AllTerms(ps)| ==>
               var t := AllTerms(ps)[k]; t != "&&" && t != "||" && t != "(" && t != ")"
    ensures Filter(left + core + right) ==
            Ok(Some(Term(if exists k :: 0 <= k < |core| && (core[k] == '"' || core[k] == '\'') then AllTerms(ps)[0] else core)))
  {
    var tokens := AllTerms(ps);
    WrittenTokens(ps, left, core, right);
    assert !HasSyntax(tokens);
    QuoteIsThere(core);
    TokensNonempty(core, 0);
    FirstTermOnly(tokens);
  }

  lemma QuoteIsThere(text: string)
    ensures HasQuote(text) <==> exists k :: 0 <= k < |text| && (text[k] == '"' || text[k] == '\'')
  {
    if k :| 0 <= k < |text| && (text[k] == '"' || text[k] == '\'') {
      assert text[k] in text;
    }
  }

  /** A text of spaces alone filters nothing out. */
  lemma {:induction false} FilterBlank(text: string)
    requires Blank(text)
    ensures Filter(text) == Ok(None)
  {
    StripIs(text, "", "");
    assert text + "" + "" == text;
  }

  // ---- Reading back --------------------------------------------------------------------------------

  lemma {:induction false} TermsOfFirst(ps: seq<Piece>)
    requires |AllTerms(ps)| == 1
    ensures ps != []
    ensures if ps[0].Space? then AllTerms(ps[1..]) == AllTerms(ps) else AllTerms(ps[1..]) == [] && Terms(ps[0]) == AllTerms(ps)
  {
    assert AllTerms(ps) == Terms(ps[0]) + AllTerms(ps[1..]);
  }

  lemma SpaceInFront(space: string, left: string, shown: string, right: string)
    requires Blank(space) && Blank(left)
    ensures Blank(space + left) && space + (left + shown + right) == (space + left) + shown + right
  {
  }

  lemma NothingInFront(shown: string, right: string)
    ensures shown + right == "" + shown + right
  {
    assert "" + shown == shown;
  }

  lemma {:induction false} OneTerm(ps: seq<Piece>, tail: string) returns (left: string, p: Piece, right: string)
    requires Fit(ps, tail) && |AllTerms(ps)| == 1
    ensures Blank(left) && Blank(right) && Text(ps) == left + Shown(p) + right && Terms(p) == AllTerms(ps)
    ensures p.Quoted? ==> IsQuote(p.quote)
  {
    TermsOfFirst(ps);
    var first, rest := ps[0], ps[1..];
    if first.Space? {
      var front;
      front, p, right := OneTerm(rest, tail);
      left := Shown(first) + front;
      SpaceInFront(Shown(first), front, Shown(p), right);
    } else {
      left, p, right := "", first, Text(rest);
      NoTermsIsBlank(rest, tail);
      NothingInFront(Shown(first), Text(rest));
    }
  }

  lemma OuterEnds(left: string, mid: string, right: string)
    ensures left == "" || (left + mid + right)[0] == left[0]
    ensures right == "" || (left + mid + right)[|left + mid + right| - 1] == right[|right| - 1]
  {
  }

  lemma NothingOutside(left: string, mid: string, right: string)
    requires Blank(left) && Blank(right) && Tight(left + mid + right)
    ensures left + mid + right == mid
  {
    OuterEnds(left, mid, right);
    assert left == "" && right == "";
  }

  lemma {:induction false} LoneTerm(ps: seq<Piece>, core: string, t: string)
    requires Spells(ps, "", core) && Tight(core) && AllTerms(ps) == [t] && !HasQuote(core)
    ensures core == t
  {
    var left, p, right := OneTerm(ps, "");
    assert Text(ps) + "" == Text(ps);
    NothingOutside(left, Shown(p), right);
    if p.Quoted? {
      QuotedHasQuote(p.quote, p.term);
    }
  }

  lemma QuotedHasQuote(quote: char, term: string)
    requires IsQuote(quote)
    ensures HasQuote(Shown(Quoted(quote, term)))
  {
    assert Shown(Quoted(quote, term))[0] == quote;
  }

  /** However an expression is written - with spaces or without, its terms bare or in either quotes - the
      search box filters by its left-associated condition, within the limits. */
  lemma {:induction false} ReadsBack(e: OrExpr, ps: seq<Piece>, left: string, core: string, right: string)
    requires WellFormed(OrInfix(e)) && Nesting(OrInfix(e)) <= 4
    requires Written(ps, left, core, right) && AllTerms(ps) == OrTokens(e)
    ensures Validated(left + core + right) == Ok(OrTokens(e))
    ensures Filter(left + core + right) == Ok(Some(OrQuery(e)))
  {
    var tokens := OrTokens(e);
    WrittenTokens(ps, left, core, right);
    ValidatorIsGrammar(tokens);
    TokensNonempty(core, 0);
    assert "" !in tokens;
    assert tokens[0..] == tokens + [];
    ParsesOr(e, tokens, 0, []);
    if !HasSyntax(tokens) && !HasQuote(core) {
      FirstTermOnly(tokens);
      assert |tokens| == 1;
      LoneTerm(ps, core, tokens[0]);
    }
  }

  // ---- Printing ------------------------------------------------------------------------------------

  /** Terms in double quotes, operators and parentheses bare. */
  function PrintToken(t: string): string {
    if IsSyntax(t) then t else "\"" + t + "\""
  }

  function Print(tokens: seq<string>): string {
    if tokens == [] then "" else PrintToken(tokens[0]) + Print(tokens[1..])
  }

  ghost predicate Printable(t: string) {
    IsSyntax(t) || (t != "" && forall k :: 0 <= k < |t| ==> t[k] != '"')
  }

  function PrintedToken(t: string): Piece {
    if IsSyntax(t) then Symbol(t) else Quoted('"', t)
  }

  function Printed(tokens: seq<string>): seq<Piece> {
    if tokens == [] then [] else [PrintedToken(tokens[0])] + Printed(tokens[1..])
  }

  lemma {:induction false} PrintedText(tokens: seq<string>)
    ensures Text(Printed(tokens)) == Print(tokens)
  {
    if tokens != [] {
      PrintedText(tokens[1..]);
      assert Printed(tokens)[1..] == Printed(tokens[1..]);
    }
  }

  lemma {:induction false} PrintedTerms(tokens: seq<string>)
    ensures AllTerms(Printed(tokens)) == tokens
  {
    if tokens != [] {
      PrintedTerms(tokens[1..]);
      assert Printed(tokens)[1..] == Printed(tokens[1..]);
    }
  }

  lemma {:induction false} PrintedFits(tokens: seq<string>)
    requires forall k :: 0 <= k < |tokens| ==> Printable(tokens[k])
    ensures Fit(Printed(tokens), "")
  {
    if tokens != [] {
      PrintedFits(tokens[1..]);
      assert Printed(tokens)[1..] == Printed(tokens[1..]);
      assert Printable(tokens[0]);
    }
  }

  lemma {:induction false} PrintedSpells(tokens: seq<string>)
    requires forall k :: 0 <= k < |tokens| ==> Printable(tokens[k])
    ensures Spells(Printed(tokens), "", Print(tokens)) && AllTerms(Printed(tokens)) == tokens
  {
    PrintedText(tokens);
    PrintedTerms(tokens);
    PrintedFits(tokens);
    assert Print(tokens) + "" == Print(tokens);
  }

  lemma {:induction false} PrintedIsTight(tokens: seq<string>)
    requires tokens != [] && forall k :: 0 <= k < |tokens| ==> Printable(tokens[k])
    ensures Tight(Print(tokens))
  {
    var shown := PrintToken(tokens[0]);
    assert Printable(tokens[0]) && Tight(shown) by {
      assert !IsSyntax(tokens[0]) ==> shown[|shown| - 1] == '"';
    }
    if |tokens| > 1 {
      PrintedIsTight(tokens[1..]);
      var rest := Print(tokens[1..]);
      assert (shown + rest)[|shown| + |rest| - 1] == rest[|rest| - 1];
    } else {
      assert shown + "" == shown;
    }
  }

  lemma {:induction false} PrintedIsWritten(tokens: seq<string>)
    requires tokens != [] && forall k :: 0 <= k < |tokens| ==> Printable(tokens[k])
    requires |Print(tokens)| <= 256 && |tokens| <= 32
    ensures Written(Printed(tokens), "", Print(tokens), "") && AllTerms(Printed(tokens)) == tokens
  {
    PrintedSpells(tokens);
    PrintedIsTight(tokens);
  }

  /** Printing an expression and searching for the text filters by the same left-associated
      condition, within the limits on length, tokens and nesting. */
  lemma {:induction false} PrintRoundTrip(e: OrExpr)
    requires WellFormed(OrInfix(e)) && Nesting(OrInfix(e)) <= MAX_SEARCH_DEPTH
    requires forall k :: 0 <= k < |OrTokens(e)| ==> Printable(OrTokens(e)[k])
    requires |Print(OrTokens(e))| <= MAX_SEARCH_LENGTH && |OrTokens(e)| <= MAX_SEARCH_TOKENS
    ensures Validated(Print(OrTokens(e))) == Ok(OrTokens(e))
    ensures Filter(Print(OrTokens(e))) == Ok(Some(OrQuery(e)))
  {
    var tokens := OrTokens(e);
    SpellingNonempty(OrInfix(e));
    PrintedIsWritten(tokens);
    ReadsBack(e, Printed(tokens), "", Print(tokens), "");
    assert "" + Print(tokens) + "" == Print(tokens);
  }

  lemma {:induction false} SpellingNonempty(e: Infix)
    ensures Spelling(e) != []
  {
  }

  /** `"a""b"` is validated as two terms and filters by the first alone. */
  lemma QuotedPairLosesSecond()
    ensures var text := "\"a\"\"b\"";
            Validated(text) == Ok(["a", "b"]) && Filter(text) == Ok(Some(Term("a")))
  {
    var ps, text := [Quoted('"', "a"), Quoted('"', "b")], "\"a\"\"b\"";
    assert ps[1..] == [Quoted('"', "b")] && ps[1..][1..] == [];
    assert Text(ps) == text && AllTerms(ps) == ["a", "b"];
    assert Text(ps) + "" == text && "" + text + "" == text;
    assert Fit(ps[1..], "");
    WrittenTokens(ps, "", text, "");
    FilterPlain(ps, "", text, "");
    assert text[0] == '"';
  }
}
