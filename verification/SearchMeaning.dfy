/** What an accepted search means, said about its tokens alone, and that the parser's
    condition means just that. */
module SearchMeaning {
  import opened Wrappers
  import opened SearchLexer
  import opened SearchParser
  import opened SearchGrammar

  /** Which terms match the event at hand. */
  type Truth = string -> bool

  ghost predicate Eval(q: Query, v: Truth) {
    match q
    case Term(t) => v(t)
    case And(l, r) => Eval(l, v) && Eval(r, v)
    case Or(l, r) => Eval(l, v) || Eval(r, v)
  }

  // ---- Meaning of a token list ---------------------------------------------------------------

  function DepthAfter(d: int, t: string): int {
    if t == "(" then d + 1 else if t == ")" then d - 1 else d
  }

  function Glue(prefix: seq<string>, parts: seq<seq<string>>): (r: seq<seq<string>>)
    requires parts != []
    ensures |r| == |parts|
  {
    [prefix + parts[0]] + parts[1..]
  }

  /** The parts between the occurrences of `op` that no open parenthesis encloses. */
  function Split(ts: seq<string>, op: string, d: int): (r: seq<seq<string>>)
    ensures r != []
    ensures forall i :: 0 <= i < |r| ==> |r[i]| <= |ts|
    decreases |ts|
  {
    if ts == [] then [[]]
    else
      var rest := Split(ts[1..], op, DepthAfter(d, ts[0]));
      if d == 0 && ts[0] == op then [[]] + rest else Glue([ts[0]], rest)
  }

  /** A search holds when, split at top-level `||` and each part at top-level `&&`, all factors
      of some part hold; a factor is one term or a parenthesized search. */
  ghost predicate Holds(ts: seq<string>, v: Truth)
    decreases |ts|, 2
  {
    var parts := Split(ts, "||", 0);
    exists i :: 0 <= i < |parts| && AllHold(parts[i], v)
  }

  ghost predicate AllHold(ts: seq<string>, v: Truth)
    decreases |ts|, 1
  {
    var parts := Split(ts, "&&", 0);
    forall i :: 0 <= i < |parts| ==> FactorHolds(parts[i], v)
  }

  ghost predicate FactorHolds(ts: seq<string>, v: Truth)
    decreases |ts|, 0
  {
    if |ts| == 1 then v(ts[0])
    else |ts| > 1 && ts[0] == "(" && ts[|ts| - 1] == ")" && Holds(ts[1..|ts| - 1], v)
  }

  // ---- Splitting an expression ---------------------------------------------------------------

  lemma {:induction false} SplitOther(t: string, b: seq<string>, op: string, d: int)
    requires d != 0 || t != op
    ensures Split([t] + b, op, d) == Glue([t], Split(b, op, DepthAfter(d, t)))
  {
    assert ([t] + b)[1..] == b;
  }

  lemma GlueTwice(a: seq<string>, b: seq<string>, parts: seq<seq<string>>)
    requires parts != []
    ensures Glue(a, Glue(b, parts)) == Glue(a + b, parts)
  {
    assert a + (b + parts[0]) == a + b + parts[0];
  }

  lemma GlueThrice(a: seq<string>, b: seq<string>, c: seq<string>, parts: seq<seq<string>>)
    requires parts != []
    ensures Glue(a, Glue(b, Glue(c, parts))) == Glue(a + b + c, parts)
  {
    GlueTwice(b, c, parts);
    GlueTwice(a, b + c, parts);
    assert a + (b + c) == a + b + c;
  }

  /** Below the top level nothing splits; at the top level only the operator itself does. */
  lemma {:induction false} SplitOverInfix(e: Infix, b: seq<string>, op: string, d: int)
    requires WellFormed(e) && d >= 0 && IsOperator(op)
    requires d > 0 || NoTop(e, op)
    ensures Split(Spelling(e) + b, op, d) == Glue(Spelling(e), Split(b, op, d))
    decreases e
  {
    match e
    case Word(t) =>
      SplitOther(t, b, op, d);
    case Parens(inner) =>
      SplitOverInfix(inner, [")"] + b, op, d + 1);
      SplitOverParens(Spelling(inner), b, op, d);
    case Binary(l, o, r) =>
      SplitOverInfix(l, [o] + (Spelling(r) + b), op, d);
      SplitOverInfix(r, b, op, d);
      SplitOverOperator(Spelling(l), o, Spelling(r), b, op, d);
  }

  lemma SplitOverParens(x: seq<string>, b: seq<string>, op: string, d: int)
    requires d >= 0 && IsOperator(op)
    requires Split(x + ([")"] + b), op, d + 1) == Glue(x, Split([")"] + b, op, d + 1))
    ensures Split(["("] + x + [")"] + b, op, d) == Glue(["("] + x + [")"], Split(b, op, d))
  {
    Regroup(["("], x, [")"], b);
    SplitOther("(", x + ([")"] + b), op, d);
    SplitOther(")", b, op, d + 1);
    GlueThrice(["("], x, [")"], Split(b, op, d));
  }

  lemma {:induction false} SplitOverOperator(x: seq<string>, o: string, y: seq<string>, b: seq<string>, op: string, d: int)
    requires d >= 0 && IsOperator(op) && IsOperator(o) && (d > 0 || o != op)
    requires Split(x + ([o] + (y + b)), op, d) == Glue(x, Split([o] + (y + b), op, d))
    requires Split(y + b, op, d) == Glue(y, Split(b, op, d))
    ensures Split(x + [o] + y + b, op, d) == Glue(x + [o] + y, Split(b, op, d))
  {
    Regroup(x, [o], y, b);
    SplitOther(o, y + b, op, d);
    GlueThrice(x, [o], y, Split(b, op, d));
  }

  /** No operator `op` outside parentheses. */
  ghost predicate NoTop(e: Infix, op: string) {
    match e
    case Binary(l, o, r) => o != op && NoTop(l, op) && NoTop(r, op)
    case _ => true
  }

  lemma {:induction false} SplitWhole(e: Infix, op: string)
    requires WellFormed(e) && IsOperator(op) && NoTop(e, op)
    ensures Split(Spelling(e), op, 0) == [Spelling(e)]
  {
    SplitOverInfix(e, [], op, 0);
    assert Spelling(e) + [] == Spelling(e);
  }

  lemma {:induction false} SplitAtOp(e: Infix, op: string, b: seq<string>)
    requires WellFormed(e) && IsOperator(op) && NoTop(e, op)
    ensures Split(Spelling(e) + [op] + b, op, 0) == [Spelling(e)] + Split(b, op, 0)
  {
    assert Spelling(e) + [op] + b == Spelling(e) + ([op] + b);
    SplitOverInfix(e, [op] + b, op, 0);
    assert ([op] + b)[1..] == b;
    assert Split([op] + b, op, 0) == [[]] + Split(b, op, 0);
    assert Spelling(e) + [] == Spelling(e);
  }

  // ---- The parser's condition means what its tokens mean ---------------------------------------

  ghost predicate OrTruth(e: OrExpr, v: Truth)
    decreases e
  {
    match e
    case Single(c) => AndTruth(c, v)
    case Either(c, rest) => AndTruth(c, v) || OrTruth(rest, v)
  }

  ghost predicate AndTruth(c: AndExpr, v: Truth)
    decreases c
  {
    match c
    case Lone(f) => FactorTruth(f, v)
    case Both(f, rest) => FactorTruth(f, v) && AndTruth(rest, v)
  }

  ghost predicate FactorTruth(f: Factor, v: Truth)
    decreases f
  {
    match f
    case Atom(t) => v(t)
    case Group(e) => OrTruth(e, v)
  }

  lemma {:induction false} EvalOr(e: OrExpr, v: Truth)
    ensures Eval(OrQuery(e), v) == OrTruth(e, v)
    decreases e, 1
  {
    match e
    case Single(c) => EvalAnd(c, v);
    case Either(c, rest) => EvalAnd(c, v); EvalJoinOr(AndQuery(c), rest, v);
  }

  lemma {:induction false} EvalJoinOr(acc: Query, e: OrExpr, v: Truth)
    ensures Eval(JoinOr(acc, e), v) == (Eval(acc, v) || OrTruth(e, v))
    decreases e, 0
  {
    match e
    case Single(c) => EvalAnd(c, v);
    case Either(c, rest) => EvalAnd(c, v); EvalJoinOr(Or(acc, AndQuery(c)), rest, v);
  }

  lemma {:induction false} EvalAnd(c: AndExpr, v: Truth)
    ensures Eval(AndQuery(c), v) == AndTruth(c, v)
    decreases c, 1
  {
    match c
    case Lone(f) => EvalFactor(f, v);
    case Both(f, rest) => EvalFactor(f, v); EvalJoinAnd(FactorQuery(f), rest, v);
  }

  lemma {:induction false} EvalJoinAnd(acc: Query, c: AndExpr, v: Truth)
    ensures Eval(JoinAnd(acc, c), v) == (Eval(acc, v) && AndTruth(c, v))
    decreases c, 0
  {
    match c
    case Lone(f) => EvalFactor(f, v);
    case Both(f, rest) => EvalFactor(f, v); EvalJoinAnd(And(acc, FactorQuery(f)), rest, v);
  }

  lemma {:induction false} EvalFactor(f: Factor, v: Truth)
    ensures Eval(FactorQuery(f), v) == FactorTruth(f, v)
    decreases f, 0
  {
    match f
    case Atom(_) =>
    case Group(e) => EvalOr(e, v);
  }

  lemma {:induction false} NoTopOr(c: AndExpr)
    ensures NoTop(AndInfix(c), "||")
  {
    match c
    case Lone(_) =>
    case Both(_, rest) => NoTopOr(rest);
  }

  ghost predicate SomePart(parts: seq<seq<string>>, v: Truth) {
    exists i :: 0 <= i < |parts| && AllHold(parts[i], v)
  }

  ghost predicate EveryPart(parts: seq<seq<string>>, v: Truth) {
    forall i :: 0 <= i < |parts| ==> FactorHolds(parts[i], v)
  }

  lemma {:induction false} SomePartCons(first: seq<string>, rest: seq<seq<string>>, v: Truth)
    ensures SomePart([first] + rest, v) <==> AllHold(first, v) || SomePart(rest, v)
  {
    var parts := [first] + rest;
    assert parts[0] == first;
    assert forall i :: 0 <= i < |rest| ==> parts[i + 1] == rest[i];
  }

  lemma {:induction false} EveryPartCons(first: seq<string>, rest: seq<seq<string>>, v: Truth)
    ensures EveryPart([first] + rest, v) <==> FactorHolds(first, v) && EveryPart(rest, v)
  {
    var parts := [first] + rest;
    assert parts[0] == first;
    assert forall i :: 0 <= i < |rest| ==> parts[i + 1] == rest[i];
  }

  lemma {:induction false} HoldsOr(e: OrExpr, v: Truth)
    requires WellFormed(OrInfix(e))
    ensures Holds(OrTokens(e), v) == SomePart(Split(OrTokens(e), "||", 0), v) == OrTruth(e, v)
    decreases e
  {
    match e
    case Single(c) =>
      NoTopOr(c);
      SplitWhole(AndInfix(c), "||");
      HoldsAnd(c, v);
      SomePartCons(AndTokens(c), [], v);
      assert [AndTokens(c)] + [] == [AndTokens(c)];
    case Either(c, rest) =>
      NoTopOr(c);
      SplitAtOp(AndInfix(c), "||", OrTokens(rest));
      HoldsAnd(c, v);
      HoldsOr(rest, v);
      SomePartCons(AndTokens(c), Split(OrTokens(rest), "||", 0), v);
  }

  lemma {:induction false} HoldsAnd(c: AndExpr, v: Truth)
    requires WellFormed(AndInfix(c))
    ensures AllHold(AndTokens(c), v) == EveryPart(Split(AndTokens(c), "&&", 0), v) == AndTruth(c, v)
    decreases c
  {
    match c
    case Lone(f) =>
      SplitWhole(FactorInfix(f), "&&");
      HoldsFactor(f, v);
      EveryPartCons(FactorTokens(f), [], v);
      assert [FactorTokens(f)] + [] == [FactorTokens(f)];
    case Both(f, rest) =>
      SplitAtOp(FactorInfix(f), "&&", AndTokens(rest));
      HoldsFactor(f, v);
      HoldsAnd(rest, v);
      EveryPartCons(FactorTokens(f), Split(AndTokens(rest), "&&", 0), v);
  }

  lemma {:induction false} HoldsFactor(f: Factor, v: Truth)
    requires WellFormed(FactorInfix(f))
    ensures FactorHolds(FactorTokens(f), v) == FactorTruth(f, v)
    decreases f
  {
    match f
    case Atom(_) =>
    case Group(e) =>
      var ts := FactorTokens(f);
      assert ts[1..|ts| - 1] == OrTokens(e);
      HoldsOr(e, v);
  }

  // ---- Main results ----------------------------------------------------------------------------

  lemma ParserFinds(tokens: seq<string>) returns (e: OrExpr)
    requires Accepted(tokens) && "" !in tokens
    ensures WellFormed(OrInfix(e)) && OrTokens(e) == tokens
    ensures ParseOr(tokens, 0) == Ok((OrQuery(e), |tokens|))
  {
    var rest;
    e, rest := FindOr(tokens, 0);
    assert rest == [];
    assert OrTokens(e) + [] == OrTokens(e);
    assert tokens[0..] == tokens;
    ParsesOr(e, tokens, 0, []);
  }

  /** On every accepted token list the parser raises nothing, consumes every token, and its
      condition is true of exactly the events the tokens describe. */
  lemma {:induction false} ParserIsCorrect(tokens: seq<string>, v: Truth)
    requires Accepted(tokens) && "" !in tokens
    ensures ParseOr(tokens, 0).Ok? && ParseOr(tokens, 0).value.1 == |tokens|
    ensures Eval(ParseOr(tokens, 0).value.0, v) <==> Holds(tokens, v)
  {
    var e := ParserFinds(tokens);
    EvalOr(e, v);
    HoldsOr(e, v);
  }

  lemma {:induction false} StripLeftStarts(text: string)
    ensures StripLeft(text) != "" ==> !IsSpace(StripLeft(text)[0])
  {
    if text != "" && IsSpace(text[0]) {
      StripLeftStarts(text[1..]);
    }
  }

  lemma {:induction false} StripRightKeeps(text: string)
    requires text != "" ==> !IsSpace(text[0])
    ensures StripRight(text) != "" ==> !IsSpace(StripRight(text)[0])
    ensures StripRight(StripRight(text)) == StripRight(text)
  {
    if text != "" && IsSpace(text[|text| - 1]) {
      StripRightKeeps(text[..|text| - 1]);
    }
  }

  lemma StripTwice(text: string)
    ensures Strip(Strip(text)) == Strip(text)
  {
    StripLeftStarts(text);
    StripRightKeeps(StripLeft(text));
  }

  lemma ValidatedTokens(text: string)
    requires Validated(text).Ok?
    ensures "" !in Validated(text).value
    ensures HasSyntax(Validated(text).value) ==> Accepted(Validated(text).value)
    ensures Validated(Strip(text)) == Validated(text)
  {
    StripTwice(text);
    if Strip(text) != "" {
      TokensNonempty(Strip(text), 0);
    }
  }

  /** What the search box accepts, when it uses syntax, is filtered by a condition that means
      its tokens. */
  lemma {:induction false} FilterMeansTokens(text: string, v: Truth)
    requires Validated(text).Ok? && HasSyntax(Validated(text).value)
    ensures Filter(text).Ok? && Filter(text).value.Some?
    ensures Eval(Filter(text).value.value, v) <==> Holds(Validated(text).value, v)
  {
    ValidatedTokens(text);
    ParserIsCorrect(Validated(text).value, v);
  }

  lemma {:induction false} FirstTermOnly(tokens: seq<string>)
    requires tokens != [] && !HasSyntax(tokens) && "" !in tokens
    ensures ParseOr(tokens, 0) == Ok((Term(tokens[0]), 1))
  {
    assert tokens[0] in tokens;
    if |tokens| > 1 {
      assert tokens[1] in tokens;
    }
    assert ParseFactor(tokens, 0) == Ok((Term(tokens[0]), 1));
    assert AndLoop(tokens, 1, Term(tokens[0])) == Ok((Term(tokens[0]), 1));
    assert OrLoop(tokens, 1, Term(tokens[0])) == Ok((Term(tokens[0]), 1));
  }

  /** What the parser makes of lists that the validator refuses: it tolerates a missing closing parenthesis and
      a leftover one, and raises where a term is missing or empty. */
  lemma {:induction false} ParserTolerates()
    ensures ParseOr(["(", "a"], 0) == Ok((Term("a"), 2)) && ParseOr(["a", ")"], 0) == Ok((Term("a"), 1))
    ensures ParseOr([], 0) == Err(Invalid) && ParseOr(["a", "&&"], 0) == Err(Invalid) && ParseOr([")"], 0) == Err(Invalid)
    ensures ParseOr([""], 0) == Err(EmptyTerm)
  {
    var open := ["(", "a"];
    assert ParseFactor(open, 1) == Ok((Term("a"), 2));
    assert AndLoop(open, 2, Term("a")) == Ok((Term("a"), 2)) && OrLoop(open, 2, Term("a")) == Ok((Term("a"), 2));
    assert ParseFactor(open, 0) == Ok((Term("a"), 2));
    var closed, cut := ["a", ")"], ["a", "&&"];
    assert ParseFactor(closed, 0) == Ok((Term("a"), 1)) && ParseFactor(cut, 0) == Ok((Term("a"), 1));
    assert AndLoop(closed, 1, Term("a")) == Ok((Term("a"), 1));
    assert ParseFactor(cut, 2) == Err(Invalid) && AndLoop(cut, 1, Term("a")) == Err(Invalid);
  }

  /** When the validator refuses a list with syntax: for its depth if and only if, at some opening
      parenthesis where a term may begin, four are open already; and else as invalid. */
  lemma {:induction false} RefusedIff(tokens: seq<string>)
    requires HasSyntax(tokens)
    ensures Checked(tokens) == Err(TooDeep) <==>
            exists k :: 0 <= k < |tokens| && tokens[k] == "(" && ScanTokens(Scan(0, true), tokens[..k]) == Ok(Scan(4, true))
    ensures Checked(tokens) == Ok(tokens) || Checked(tokens) == Err(TooDeep) || Checked(tokens) == Err(Invalid)
  {
    TooDeepIff(Scan(0, true), tokens);
  }

  lemma {:induction false} TooDeepIff(s: Scan, tokens: seq<string>)
    requires s.depth <= 4
    ensures ScanTokens(s, tokens) == Err(TooDeep) <==>
            exists k :: 0 <= k < |tokens| && tokens[k] == "(" && ScanTokens(s, tokens[..k]) == Ok(Scan(4, true))
    ensures ScanTokens(s, tokens).Err? ==> ScanTokens(s, tokens).error == TooDeep || ScanTokens(s, tokens).error == Invalid
    decreases |tokens|
  {
    assert tokens[..0] == [];
    if tokens != [] {
      var r, rest := ScanToken(s, tokens[0]), tokens[1..];
      forall k | 1 <= k < |tokens|
        ensures ScanTokens(s, tokens[..k]) == if r.Err? then r else ScanTokens(r.value, rest[..k - 1])
      {
        assert tokens[..k][0] == tokens[0] && tokens[..k][1..] == rest[..k - 1];
      }
      if r.Ok? {
        TooDeepIff(r.value, rest);
        assert forall k :: 1 <= k < |tokens| ==> tokens[k] == rest[k - 1];
        if k :| 0 <= k < |rest| && rest[k] == "(" && ScanTokens(r.value, rest[..k]) == Ok(Scan(4, true)) {
          assert tokens[k + 1] == "(" && ScanTokens(s, tokens[..k + 1]) == Ok(Scan(4, true));
        }
      }
    }
  }

  /** The filter raises exactly what the validator raises: on validated tokens the parser never does. */
  lemma {:induction false} FilterRaisesIff(text: string)
    ensures Filter(text).Err? <==> Validated(text).Err?
    ensures Filter(text).Err? ==> Filter(text).error == Validated(text).error
  {
    StripTwice(text);
    if Validated(text).Ok? && Strip(text) != "" {
      ConsumesAllIff(text);
    }
  }

  /** Validated tokens are all consumed exactly when they use syntax or are a single term: of
      quoted terms side by side only the first one filters. */
  lemma {:induction false} ConsumesAllIff(text: string)
    requires Validated(text).Ok? && Validated(text).value != []
    ensures var tokens := Validated(text).value;
            && ParseOr(tokens, 0).Ok?
            && (ParseOr(tokens, 0).value.1 == |tokens| <==> HasSyntax(tokens) || |tokens| == 1)
            && (!HasSyntax(tokens) ==> ParseOr(tokens, 0) == Ok((Term(tokens[0]), 1)))
  {
    ValidatedTokens(text);
    if HasSyntax(Validated(text).value) {
      ParserIsCorrect(Validated(text).value, _ => true);
    } else {
      FirstTermOnly(Validated(text).value);
    }
  }
}
