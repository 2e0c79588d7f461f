/** The tokens of the boolean search language, told by the characters of the text: what the tokenizer
    accepts and returns, with and without quotes, and exactly when it raises. */
module SearchTokens {
  import opened Wrappers
  import opened SearchLexer

  /** What a search text is made of: spaces, operators and parentheses, terms in single or double quotes,
      and bare terms. */
  datatype Piece = Space(c: char) | Symbol(sign: string) | Quoted(quote: char, term: string) | Bare(term: string)

  function Shown(p: Piece): string {
    match p
    case Space(c) => [c]
    case Symbol(sign) => sign
    case Quoted(quote, term) => [quote] + term + [quote]
    case Bare(term) => term
  }

  function Terms(p: Piece): seq<string> {
    match p
    case Space(_) => []
    case Symbol(sign) => [sign]
    case Quoted(_, term) => [term]
    case Bare(term) => [term]
  }

  function Text(ps: seq<Piece>): string {
    if ps == [] then "" else Shown(ps[0]) + Text(ps[1..])
  }

  function AllTerms(ps: seq<Piece>): seq<string> {
    if ps == [] then [] else Terms(ps[0]) + AllTerms(ps[1..])
  }

  /** Two ampersands or two bars stand at k. */
  predicate DoubledAt(text: string, k: nat) {
    k + 1 < |text| && text[k] == text[k + 1] && (text[k] == '&' || text[k] == '|')
  }

  /** The bare term ends where `after` begins: at the end, or at a space, a parenthesis or an operator. */
  predicate EndsAt(after: string) {
    after == "" || IsSpace(after[0]) || after[0] == '(' || after[0] == ')' || DoubledAt(after, 0)
  }

  /** The piece can stand in front of `after`. A bare term does not begin with a quote and has no space or
      parenthesis in it, and no operator begins in it, not even with its last character. */
  ghost predicate Fits(p: Piece, after: string) {
    match p
    case Space(c) => IsSpace(c)
    case Symbol(sign) => sign == "&&" || sign == "||" || sign == "(" || sign == ")"
    case Quoted(quote, term) =>
      (quote == '"' || quote == '\'') && term != "" && forall k :: 0 <= k < |term| ==> term[k] != quote
    case Bare(term) =>
      && term != "" && term[0] != '"' && term[0] != '\''
      && (forall k :: 0 <= k < |term| ==> !IsSpace(term[k]) && term[k] != '(' && term[k] != ')')
      && (forall k: nat :: k < |term| ==> !DoubledAt(term + after, k))
      && EndsAt(after)
  }

  ghost predicate Fit(ps: seq<Piece>, tail: string) {
    ps == [] || (Fits(ps[0], Text(ps[1..]) + tail) && Fit(ps[1..], tail))
  }

  /** The text is these pieces and then the tail. */
  ghost predicate Spells(ps: seq<Piece>, tail: string, text: string) {
    Fit(ps, tail) && Text(ps) + tail == text
  }

  /** The spaces are the 29 characters that Python's `str.isspace` knows. */
  lemma SpacesAre(c: char)
    ensures IsSpace(c) <==>
            c in "\t\n\U{b}\U{c}\r\U{1c}\U{1d}\U{1e}\U{1f} \U{85}\U{a0}\U{1680}"
                 + "\U{2000}\U{2001}\U{2002}\U{2003}\U{2004}\U{2005}\U{2006}\U{2007}\U{2008}\U{2009}\U{200a}"
                 + "\U{2028}\U{2029}\U{202f}\U{205f}\U{3000}"
  {
  }

  // ---- The tokenizer reads pieces ------------------------------------------------------------------

  lemma OperatorIff(text: string, i: nat)
    ensures OperatorAt(text, i) <==> DoubledAt(text, i)
  {
    if i + 2 <= |text| {
      assert text[i..i + 2] == [text[i], text[i + 1]];
    }
  }

  lemma {:induction false} WordEndFound(text: string, i: nat, end: nat)
    requires i <= end <= |text|
    requires forall k :: i <= k < end ==> WordChar(text, k)
    requires end == |text| || !WordChar(text, end)
    ensures WordEnd(text, i) == end
    decreases end - i
  {
    if i < end {
      WordEndFound(text, i + 1, end);
    }
  }

  lemma {:induction false} QuoteFound(text: string, i: nat, end: nat, quote: char)
    requires i <= end <= |text| && (end < |text| ==> text[end] == quote)
    requires forall k :: i <= k < end ==> text[k] != quote
    ensures QuoteEnd(text, i, quote) == end
    decreases end - i
  {
    if i < end {
      QuoteFound(text, i + 1, end, quote);
    }
  }

  lemma DoubledLater(text: string, i: nat, rest: string, k: nat)
    requires i <= |text| && text[i..] == rest
    ensures DoubledAt(text, i + k) <==> DoubledAt(rest, k)
    ensures k < |rest| ==> i + k < |text| && text[i + k] == rest[k]
  {
    assert |rest| == |text| - i;
    if k < |rest| {
      assert text[i..][k] == text[i + k];
    }
    if k + 1 < |rest| {
      assert text[i..][k + 1] == text[i + (k + 1)];
    }
  }

  lemma BareChar(term: string, text: string, i: nat, after: string, k: nat)
    requires Fits(Bare(term), after) && i <= |text| && text[i..] == term + after && k < |term|
    ensures i + k < |text| && text[i + k] == term[k] && WordChar(text, i + k)
  {
    DoubledLater(text, i, term + after, k);
    OperatorIff(text, i + k);
    assert (term + after)[k] == term[k];
  }

  lemma BareEnd(text: string, end: nat, after: string)
    requires end <= |text| && text[end..] == after && EndsAt(after)
    ensures end == |text| || !WordChar(text, end)
  {
    DoubledLater(text, end, after, 0);
    if end < |text| {
      OperatorIff(text, end);
    }
  }

  lemma SliceOf<T>(text: seq<T>, i: nat, front: seq<T>, after: seq<T>)
    requires i <= |text| && text[i..] == front + after
    ensures i + |front| <= |text| && text[i..i + |front|] == front && text[i + |front|..] == after
  {
    assert |text[i..]| == |front| + |after|;
    assert text[i..][..|front|] == front && text[i..][|front|..] == after;
  }

  lemma ReadsBare(term: string, text: string, i: nat, after: string)
    requires Fits(Bare(term), after) && i <= |text| && text[i..] == term + after
    ensures i < |text| && Step(text, i) == Ok(([term], i + |term|))
  {
    var end := i + |term|;
    SliceOf(text, i, term, after);
    forall k | i <= k < end ensures WordChar(text, k) {
      BareChar(term, text, i, after, k - i);
    }
    BareEnd(text, end, after);
    WordEndFound(text, i + 1, end);
    BareChar(term, text, i, after, 0);
  }

  lemma QuotedChars(quote: char, term: string, k: nat)
    requires k < |term| + 2
    ensures var shown := Shown(Quoted(quote, term));
            |shown| == |term| + 2 && shown[k] == if k == 0 || k == |term| + 1 then quote else term[k - 1]
  {
  }

  lemma ReadsQuoted(quote: char, term: string, text: string, i: nat, after: string)
    requires Fits(Quoted(quote, term), after) && i <= |text| && text[i..] == Shown(Quoted(quote, term)) + after
    ensures i < |text| && Step(text, i) == Ok(([term], i + |term| + 2))
  {
    var shown, end := Shown(Quoted(quote, term)), i + |term| + 1;
    SliceOf(text, i, shown, after);
    forall k | i <= k <= end ensures text[k] == if k == i || k == end then quote else term[k - i - 1] {
      assert text[k] == text[i..i + |shown|][k - i];
      QuotedChars(quote, term, k - i);
    }
    QuoteFound(text, i + 1, end, quote);
    assert text[i + 1..end] == term;
    OperatorIff(text, i);
  }

  lemma ReadsSign(p: Piece, text: string, i: nat, after: string)
    requires (p.Space? || p.Symbol?) && Fits(p, after) && i <= |text| && text[i..] == Shown(p) + after
    ensures i < |text| && Step(text, i) == Ok((Terms(p), i + |Shown(p)|))
  {
    assert |text[i..]| == |Shown(p)| + |after| && text[i] == text[i..][0] == Shown(p)[0];
    OperatorIff(text, i);
    if p.Symbol? && |p.sign| == 2 {
      assert text[i + 1] == text[i..][1] == p.sign[1];
      assert text[i..i + 2] == [text[i], text[i + 1]];
    }
  }

  lemma StepReads(p: Piece, text: string, i: nat, after: string)
    requires Fits(p, after) && i <= |text| && text[i..] == Shown(p) + after
    ensures i + |Shown(p)| <= |text| && text[i + |Shown(p)|..] == after
    ensures i < |text| && Step(text, i) == Ok((Terms(p), i + |Shown(p)|))
  {
    SliceOf(text, i, Shown(p), after);
    match p {
      case Bare(term) => ReadsBare(term, text, i, after);
      case Quoted(quote, term) => ReadsQuoted(quote, term, text, i, after);
      case Space(_) => ReadsSign(p, text, i, after);
      case Symbol(_) => ReadsSign(p, text, i, after);
    }
  }

  lemma LexStep(p: Piece, text: string, i: nat)
    requires i < |text| && i + |Shown(p)| <= |text| && Step(text, i) == Ok((Terms(p), i + |Shown(p)|))
    ensures Lex(text, i) == Prepend(Terms(p), Lex(text, i + |Shown(p)|))
  {
  }

  lemma {:induction false} TextCons(ps: seq<Piece>, tail: string)
    requires ps != []
    ensures Text(ps) + tail == Shown(ps[0]) + (Text(ps[1..]) + tail)
    ensures |Text(ps)| == |Shown(ps[0])| + |Text(ps[1..])|
  {
    Grouped(Shown(ps[0]), Text(ps[1..]), tail);
  }

  lemma Grouped<T>(a: seq<T>, b: seq<T>, c: seq<T>)
    ensures a + b + c == a + (b + c)
  {
  }

  lemma JoinReads(a: seq<string>, b: seq<string>, x: Lexed, y: Lexed, z: Lexed)
    requires x == Prepend(a, y) && y == Prepend(b, z)
    ensures x == Prepend(a + b, z)
  {
    PrependTwice(a, b, z);
  }

  /** The tokenizer as a function of the index alone. */
  function LexFrom(text: string): nat -> Lexed {
    (i: nat) => if i <= |text| then Lex(text, i) else Ok([])
  }

  /** Where the piece stands, it is read. */
  ghost predicate IsRead(lex: nat -> Lexed, text: string, p: Piece, after: string, i: nat) {
    Fits(p, after) && i <= |text| && text[i..] == Shown(p) + after ==>
      var next := i + |Shown(p)|;
      next <= |text| && text[next..] == after && lex(i) == Prepend(Terms(p), lex(next))
  }

  lemma PieceIsRead(text: string, p: Piece, after: string, i: nat)
    ensures IsRead(LexFrom(text), text, p, after, i)
  {
    if Fits(p, after) && i <= |text| && text[i..] == Shown(p) + after {
      StepReads(p, text, i, after);
      LexStep(p, text, i);
    }
  }

  lemma {:induction false} AllRead(ps: seq<Piece>, tail: string, lex: nat -> Lexed, text: string, i: nat)
    requires forall p, after, k: nat :: IsRead(lex, text, p, after, k)
    requires Fit(ps, tail) && i <= |text| && text[i..] == Text(ps) + tail
    ensures var end := i + |Text(ps)|;
            end <= |text| && text[end..] == tail && lex(i) == Prepend(AllTerms(ps), lex(end))
    decreases |ps|
  {
    if ps == [] {
      PrependNothing(lex(i));
    } else {
      var rest, next := ps[1..], i + |Shown(ps[0])|;
      TextCons(ps, tail);
      assert IsRead(lex, text, ps[0], Text(rest) + tail, i);
      AllRead(rest, tail, lex, text, next);
      JoinReads(Terms(ps[0]), AllTerms(rest), lex(i), lex(next), lex(next + |Text(rest)|));
    }
  }

  lemma {:induction false} LexReads(ps: seq<Piece>, tail: string, text: string)
    requires Spells(ps, tail, text)
    ensures |Text(ps)| <= |text| && text[|Text(ps)|..] == tail
    ensures Lex(text, 0) == Prepend(AllTerms(ps), Lex(text, |Text(ps)|))
  {
    forall p, after, k: nat ensures IsRead(LexFrom(text), text, p, after, k) {
      PieceIsRead(text, p, after, k);
    }
    assert text[0..] == text;
    AllRead(ps, tail, LexFrom(text), text, 0);
  }

  // ---- What the tokenizer cannot read ----------------------------------------------------------------

  /** A quote that no second one closes. */
  predicate Unclosed(tail: string) {
    tail != "" && (tail[0] == '"' || tail[0] == '\'') && forall k :: 0 < k < |tail| ==> tail[k] != tail[0]
  }

  /** Two quotes with nothing between them. */
  predicate Hollow(tail: string) {
    |tail| >= 2 && (tail[0] == '"' || tail[0] == '\'') && tail[1] == tail[0]
  }

  predicate Stuck(tail: string) {
    Unclosed(tail) || Hollow(tail)
  }

  lemma StuckStep(text: string, i: nat)
    requires i <= |text| && Stuck(text[i..])
    ensures i < |text| && Step(text, i) == Err(if Unclosed(text[i..]) then UnterminatedQuote else EmptyTerm)
  {
    var tail := text[i..];
    assert text[i] == tail[0];
    OperatorIff(text, i);
    if Unclosed(tail) {
      forall k | i + 1 <= k < |text| ensures text[k] != text[i] {
        assert text[k] == tail[k - i];
      }
      QuoteFound(text, i + 1, |text|, text[i]);
    } else {
      assert text[i + 1] == tail[1];
      QuoteFound(text, i + 1, i + 1, text[i]);
    }
  }

  // ---- Every text is pieces, up to the end or a bad quote ----------------------------------------------

  lemma {:induction false} WordEndIs(text: string, i: nat)
    requires i <= |text|
    ensures var end := WordEnd(text, i);
            && (forall k :: i <= k < end ==> WordChar(text, k))
            && (end == |text| || !WordChar(text, end))
    decreases |text| - i
  {
    if i < |text| && WordChar(text, i) {
      WordEndIs(text, i + 1);
    }
  }

  lemma {:induction false} QuoteEndIs(text: string, i: nat, quote: char)
    requires i <= |text|
    ensures var end := QuoteEnd(text, i, quote);
            && (forall k :: i <= k < end ==> text[k] != quote)
            && (end == |text| || text[end] == quote)
    decreases |text| - i
  {
    if i < |text| && text[i] != quote {
      QuoteEndIs(text, i + 1, quote);
    }
  }

  lemma WordHas(text: string, i: nat, end: nat)
    requires i <= end <= |text| && forall k :: i <= k < end ==> WordChar(text, k)
    ensures forall k :: 0 <= k < end - i ==> !IsSpace(text[i..end][k]) && !IsParen(text[i..end][k])
    ensures forall k: nat :: k < end - i ==> !DoubledAt(text[i..], k)
  {
    forall k | 0 <= k < end - i ensures !IsSpace(text[i..end][k]) && !IsParen(text[i..end][k]) {
      assert WordChar(text, i + k);
    }
    forall k: nat | k < end - i ensures !DoubledAt(text[i..], k) {
      NotDoubled(text, i, k);
    }
  }

  lemma {:induction false} BareFits(text: string, i: nat)
    requires i < |text| && WordChar(text, i) && !IsQuote(text[i])
    ensures var end := WordEnd(text, i + 1); Fits(Bare(text[i..end]), text[end..])
  {
    var end := WordEnd(text, i + 1);
    WordEndIs(text, i + 1);
    assert forall k :: i <= k < end ==> WordChar(text, k);
    WordHas(text, i, end);
    EndsThere(text, end);
    assert text[i..end] + text[end..] == text[i..] && text[i..end][0] == text[i];
  }

  lemma NotDoubled(text: string, i: nat, k: nat)
    requires i + k < |text| && WordChar(text, i + k)
    ensures !DoubledAt(text[i..], k)
  {
    DoubledLater(text, i, text[i..], k);
    OperatorIff(text, i + k);
  }

  lemma EndsThere(text: string, end: nat)
    requires end <= |text| && (end < |text| ==> !WordChar(text, end))
    ensures EndsAt(text[end..])
  {
    DoubledLater(text, end, text[end..], 0);
    if end < |text| {
      OperatorIff(text, end);
    }
  }

  /** The piece stands at i and fits there. */
  ghost predicate Stands(p: Piece, text: string, i: nat) {
    && 0 < |Shown(p)| && i + |Shown(p)| <= |text|
    && text[i..i + |Shown(p)|] == Shown(p) && Fits(p, text[i + |Shown(p)|..])
  }

  /** Some piece stands at i, unless a bad quote does. */
  lemma PieceAt(text: string, i: nat) returns (p: Piece)
    requires i < |text|
    ensures Stuck(text[i..]) || Stands(p, text, i)
  {
    if IsSpace(text[i]) || DoubledAt(text, i) || IsParen(text[i]) {
      p := SignAt(text, i);
    } else if IsQuote(text[i]) {
      p := QuotedAt(text, i);
    } else {
      OperatorIff(text, i);
      p := Bare(text[i..WordEnd(text, i + 1)]);
      BareFits(text, i);
    }
  }

  lemma SignAt(text: string, i: nat) returns (p: Piece)
    requires i < |text| && (IsSpace(text[i]) || DoubledAt(text, i) || IsParen(text[i]))
    ensures Stands(p, text, i)
  {
    if IsSpace(text[i]) {
      p := Space(text[i]);
    } else if DoubledAt(text, i) {
      p := Symbol([text[i], text[i + 1]]);
    } else {
      p := Symbol([text[i]]);
    }
  }

  lemma QuotedSlice<T>(text: seq<T>, i: nat, end: nat)
    requires i < end < |text|
    ensures text[i..end + 1] == [text[i]] + text[i + 1..end] + [text[end]]
  {
  }

  lemma UnclosedAt(text: string, i: nat)
    requires i < |text| && IsQuote(text[i]) && forall k :: i < k < |text| ==> text[k] != text[i]
    ensures Unclosed(text[i..])
  {
    forall k | 0 < k < |text[i..]| ensures text[i..][k] != text[i] {
      assert text[i..][k] == text[i + k];
    }
  }

  lemma QuotedAt(text: string, i: nat) returns (p: Piece)
    requires i < |text| && IsQuote(text[i])
    ensures Stuck(text[i..]) || Stands(p, text, i)
  {
    var quote, end := text[i], QuoteEnd(text, i + 1, text[i]);
    QuoteEndIs(text, i + 1, quote);
    p := Quoted(quote, text[i + 1..end]);
    if end == |text| {
      UnclosedAt(text, i);
    } else if end == i + 1 {
      assert Hollow(text[i..]);
    } else {
      QuotedSlice(text, i, end);
      assert forall k :: 0 <= k < |p.term| ==> p.term[k] == text[i + 1 + k];
    }
  }

  lemma SplitsAt<T>(text: seq<T>, i: nat, next: nat)
    requires i <= next <= |text|
    ensures text[i..] == text[i..next] + text[next..]
  {
  }

  lemma SpellsCons(p: Piece, rest: seq<Piece>, tail: string, text: string, i: nat)
    requires Stands(p, text, i) && Spells(rest, tail, text[i + |Shown(p)|..])
    ensures Spells([p] + rest, tail, text[i..])
  {
    assert ([p] + rest)[1..] == rest;
    SplitsAt(text, i, i + |Shown(p)|);
    TextCons([p] + rest, tail);
  }

  lemma {:induction false} PiecesOf(text: string, i: nat) returns (ps: seq<Piece>, tail: string)
    requires i <= |text|
    ensures Spells(ps, tail, text[i..]) && (tail == "" || Stuck(tail))
    decreases |text| - i
  {
    ps, tail := [], text[i..];
    assert Text([]) + tail == tail;
    if i < |text| && !Stuck(tail) {
      var p := PieceAt(text, i);
      var rest;
      rest, tail := PiecesOf(text, i + |Shown(p)|);
      ps := [p] + rest;
      SpellsCons(p, rest, tail, text, i);
    }
  }

  // ---- Main results ------------------------------------------------------------------------------------

  /** What the tokenizer makes of pieces and a tail: their terms, if nothing is left; else the tail's error. */
  lemma {:induction false} LexSpelled(ps: seq<Piece>, tail: string, text: string)
    requires Spells(ps, tail, text) && (tail == "" || Stuck(tail))
    ensures Lex(text, 0) == if tail == "" then Ok(AllTerms(ps))
                            else if Unclosed(tail) then Err(UnterminatedQuote) else Err(EmptyTerm)
  {
    LexReads(ps, tail, text);
    if tail == "" {
      assert AllTerms(ps) + [] == AllTerms(ps);
    } else {
      StuckStep(text, |Text(ps)|);
    }
  }

  /** The tokenizer returns a list of tokens if and only if the text is made of pieces with these terms, and
      it is at most 256 characters long and the list at most 32 tokens. Bare and quoted terms, single and
      double quotes may stand in any order, with or without spaces at operators and parentheses. */
  lemma TokensIff(text: string, tokens: seq<string>)
    ensures Tokens(text) == Ok(tokens) <==>
            |text| <= 256 && |tokens| <= 32 && exists ps :: Spells(ps, "", text) && AllTerms(ps) == tokens
  {
    var ps, tail := PiecesOf(text, 0);
    assert text[0..] == text;
    LexSpelled(ps, tail, text);
    if qs :| Spells(qs, "", text) && AllTerms(qs) == tokens {
      LexSpelled(qs, "", text);
    }
  }

  /** It raises for a quote that is not closed, or one with nothing in it, if and only if pieces lead up to
      such a quote; too many tokens are counted only in a text that is all pieces. */
  lemma TokenErrorIff(text: string)
    requires |text| <= 256
    ensures Tokens(text) == Err(UnterminatedQuote) <==> exists ps, tail :: Spells(ps, tail, text) && Unclosed(tail)
    ensures Tokens(text) == Err(EmptyTerm) <==> exists ps, tail :: Spells(ps, tail, text) && Hollow(tail)
    ensures Tokens(text) == Err(TooManyTokens) <==> exists ps :: Spells(ps, "", text) && |AllTerms(ps)| > 32
  {
    var ps, tail := PiecesOf(text, 0);
    assert text[0..] == text;
    LexSpelled(ps, tail, text);
    forall qs, end | Spells(qs, end, text) && (end == "" || Stuck(end))
      ensures Lex(text, 0) == if end == "" then Ok(AllTerms(qs))
                              else if Unclosed(end) then Err(UnterminatedQuote) else Err(EmptyTerm)
    {
      LexSpelled(qs, end, text);
    }
  }
}
