/** The grammar of the boolean search language, independent of the validator and the parser,
    and the proof that both agree with it. */
module SearchGrammar {
  import opened Wrappers
  import opened SearchParser

  // ---- The grammar ---------------------------------------------------------------------------

  /** Infix expressions as a user writes them: terms, parenthesized groups, operators between. */
  datatype Infix = Word(term: string) | Parens(inner: Infix) | Binary(left: Infix, op: string, right: Infix)

  ghost predicate WellFormed(e: Infix) {
    match e
    case Word(t) => !IsSyntax(t)
    case Parens(inner) => WellFormed(inner)
    case Binary(l, op, r) => IsOperator(op) && WellFormed(l) && WellFormed(r)
  }

  ghost function Spelling(e: Infix): seq<string> {
    match e
    case Word(t) => [t]
    case Parens(inner) => ["("] + Spelling(inner) + [")"]
    case Binary(l, op, r) => Spelling(l) + [op] + Spelling(r)
  }

  ghost function Nesting(e: Infix): nat {
    match e
    case Word(_) => 0
    case Parens(inner) => 1 + Nesting(inner)
    case Binary(l, _, r) => if Nesting(l) >= Nesting(r) then Nesting(l) else Nesting(r)
  }

  ghost predicate Derivable(tokens: seq<string>) {
    exists e :: WellFormed(e) && Spelling(e) == tokens && Nesting(e) <= MAX_SEARCH_DEPTH
  }

  ghost predicate Accepted(tokens: seq<string>) {
    ScanTokens(Scan(0, true), tokens) == Ok(Scan(0, false))
  }

  lemma Regroup<T>(a: seq<T>, b: seq<T>, c: seq<T>, d: seq<T>)
    ensures a + b + c + d == a + (b + (c + d))
  {
  }

  /** The validator's automaton reads any expression from "expects a term" to "expects an
      operator" at the same depth. */
  lemma {:induction false} ScansInfix(e: Infix, d: nat, rest: seq<string>)
    requires WellFormed(e) && d + Nesting(e) <= MAX_SEARCH_DEPTH
    ensures ScanTokens(Scan(d, true), Spelling(e) + rest) == ScanTokens(Scan(d, false), rest)
    decreases e
  {
    match e
    case Word(t) =>
      assert ([t] + rest)[1..] == rest;
    case Parens(inner) =>
      var tail := Spelling(inner) + ([")"] + rest);
      Regroup(["("], Spelling(inner), [")"], rest);
      assert (["("] + tail)[1..] == tail;
      ScansInfix(inner, d + 1, [")"] + rest);
      assert ([")"] + rest)[1..] == rest;
    case Binary(l, op, r) =>
      Regroup(Spelling(l), [op], Spelling(r), rest);
      ScansInfix(l, d, [op] + (Spelling(r) + rest));
      assert ([op] + (Spelling(r) + rest))[1..] == Spelling(r) + rest;
      ScansInfix(r, d, rest);
  }

  // ---- The same language with precedence -----------------------------------------------------

  /** `||` binds weaker than `&&`; each level lists its operands from the left. */
  datatype OrExpr = Single(only: AndExpr) | Either(first: AndExpr, others: OrExpr)
  datatype AndExpr = Lone(only: Factor) | Both(first: Factor, others: AndExpr)
  datatype Factor = Atom(term: string) | Group(inner: OrExpr)

  ghost function OrInfix(e: OrExpr): Infix
    decreases e
  {
    match e
    case Single(c) => AndInfix(c)
    case Either(c, rest) => Binary(AndInfix(c), "||", OrInfix(rest))
  }

  ghost function AndInfix(c: AndExpr): Infix
    decreases c
  {
    match c
    case Lone(f) => FactorInfix(f)
    case Both(f, rest) => Binary(FactorInfix(f), "&&", AndInfix(rest))
  }

  ghost function FactorInfix(f: Factor): Infix
    decreases f
  {
    match f
    case Atom(t) => Word(t)
    case Group(e) => Parens(OrInfix(e))
  }

  ghost function OrTokens(e: OrExpr): seq<string> { Spelling(OrInfix(e)) }
  ghost function AndTokens(c: AndExpr): seq<string> { Spelling(AndInfix(c)) }
  ghost function FactorTokens(f: Factor): seq<string> { Spelling(FactorInfix(f)) }

  ghost predicate Stops(rest: seq<string>, at: set<string>) {
    rest == [] || rest[0] in at
  }

  lemma Rejoin<T>(ts: seq<T>, a: seq<T>, rest: seq<T>, b: seq<T>, after: seq<T>)
    requires ts == a + rest && rest != [] && rest[1..] == b + after
    ensures ts == a + [rest[0]] + b + after && |after| < |ts|
  {
    assert rest == [rest[0]] + rest[1..];
  }

  /** What the automaton accepts from depth d on is an expression and what follows it. */
  lemma FindOr(ts: seq<string>, d: nat) returns (e: OrExpr, rest: seq<string>)
    requires d <= MAX_SEARCH_DEPTH && ScanTokens(Scan(d, true), ts) == Ok(Scan(0, false))
    ensures WellFormed(OrInfix(e)) && d + Nesting(OrInfix(e)) <= MAX_SEARCH_DEPTH
    ensures ts == OrTokens(e) + rest && |rest| < |ts| && Stops(rest, {")"})
    ensures ScanTokens(Scan(d, false), rest) == Ok(Scan(0, false))
    decreases |ts|, 2
  {
    var c;
    c, rest := FindAnd(ts, d);
    e := Single(c);
    if rest != [] && rest[0] == "||" {
      var others, after := FindOr(rest[1..], d);
      Rejoin(ts, AndTokens(c), rest, OrTokens(others), after);
      e, rest := Either(c, others), after;
    }
  }

  lemma FindAnd(ts: seq<string>, d: nat) returns (c: AndExpr, rest: seq<string>)
    requires d <= MAX_SEARCH_DEPTH && ScanTokens(Scan(d, true), ts) == Ok(Scan(0, false))
    ensures WellFormed(AndInfix(c)) && d + Nesting(AndInfix(c)) <= MAX_SEARCH_DEPTH
    ensures ts == AndTokens(c) + rest && |rest| < |ts| && Stops(rest, {")", "||"})
    ensures ScanTokens(Scan(d, false), rest) == Ok(Scan(0, false))
    decreases |ts|, 1
  {
    var f;
    f, rest := FindFactor(ts, d);
    c := Lone(f);
    if rest != [] && rest[0] == "&&" {
      var others, after := FindAnd(rest[1..], d);
      Rejoin(ts, FactorTokens(f), rest, AndTokens(others), after);
      c, rest := Both(f, others), after;
    }
  }

  lemma FindFactor(ts: seq<string>, d: nat) returns (f: Factor, rest: seq<string>)
    requires d <= MAX_SEARCH_DEPTH && ScanTokens(Scan(d, true), ts) == Ok(Scan(0, false))
    ensures WellFormed(FactorInfix(f)) && d + Nesting(FactorInfix(f)) <= MAX_SEARCH_DEPTH
    ensures ts == FactorTokens(f) + rest && |rest| < |ts| && Stops(rest, {")", "||", "&&"})
    ensures ScanTokens(Scan(d, false), rest) == Ok(Scan(0, false))
    decreases |ts|, 0
  {
    if ts[0] == "(" {
      var e, after := FindOr(ts[1..], d + 1);
      assert ts == ["("] + OrTokens(e) + after;
      assert after == [")"] + after[1..];
      f, rest := Group(e), after[1..];
    } else {
      f, rest := Atom(ts[0]), ts[1..];
      assert ts == [ts[0]] + ts[1..];
    }
  }

  /** The validator accepts exactly the token lists the grammar derives with at most four
      levels of parentheses. */
  lemma ValidatorIsGrammar(tokens: seq<string>)
    ensures Accepted(tokens) <==> Derivable(tokens)
  {
    if Accepted(tokens) {
      var e, rest := FindOr(tokens, 0);
      assert rest == [];
      assert tokens == Spelling(OrInfix(e));
    }
    if Derivable(tokens) {
      var e :| WellFormed(e) && Spelling(e) == tokens && Nesting(e) <= MAX_SEARCH_DEPTH;
      ScansInfix(e, 0, []);
      assert Spelling(e) + [] == tokens;
    }
  }

  /** So validation refuses a list with an operator or a parenthesis exactly when it is not derivable. */
  lemma CheckedIffDerivable(tokens: seq<string>)
    requires HasSyntax(tokens)
    ensures Checked(tokens).Ok? <==> Derivable(tokens)
    ensures Checked(tokens).Ok? ==> Checked(tokens).value == tokens
  {
    ValidatorIsGrammar(tokens);
  }

  // ---- What the parser builds ----------------------------------------------------------------

  /** Left-associated conditions, as the parser's loops join them. */
  ghost function OrQuery(e: OrExpr): Query
    decreases e
  {
    match e
    case Single(c) => AndQuery(c)
    case Either(c, rest) => JoinOr(AndQuery(c), rest)
  }

  ghost function JoinOr(acc: Query, e: OrExpr): Query
    decreases e
  {
    match e
    case Single(c) => Or(acc, AndQuery(c))
    case Either(c, rest) => JoinOr(Or(acc, AndQuery(c)), rest)
  }

  ghost function AndQuery(c: AndExpr): Query
    decreases c
  {
    match c
    case Lone(f) => FactorQuery(f)
    case Both(f, rest) => JoinAnd(FactorQuery(f), rest)
  }

  ghost function JoinAnd(acc: Query, c: AndExpr): Query
    decreases c
  {
    match c
    case Lone(f) => And(acc, FactorQuery(f))
    case Both(f, rest) => JoinAnd(And(acc, FactorQuery(f)), rest)
  }

  ghost function FactorQuery(f: Factor): Query
    decreases f
  {
    match f
    case Atom(t) => Term(t)
    case Group(e) => OrQuery(e)
  }

  /** `ts` reads `x` and then `rest` from position p on. */
  ghost predicate Reads(ts: seq<string>, p: nat, x: seq<string>, rest: seq<string>) {
    p <= |ts| && ts[p..] == x + rest
  }

  lemma SkipTokens(ts: seq<string>, p: nat, x: seq<string>, rest: seq<string>)
    requires Reads(ts, p, x, rest)
    ensures p + |x| <= |ts| && ts[p + |x|..] == rest
    ensures x != [] ==> ts[p] == x[0]
    ensures rest != [] ==> p + |x| < |ts| && ts[p + |x|] == rest[0]
  {
    assert |ts[p..]| == |x| + |rest|;
    assert ts[p..][|x|..] == rest;
    if x != [] {
      assert ts[p] == ts[p..][0] == x[0];
    }
    if rest != [] {
      assert ts[p + |x|] == ts[p..][|x|] == rest[0];
    }
  }

  lemma SplitAtOperator(ts: seq<string>, p: nat, a: seq<string>, op: string, b: seq<string>, rest: seq<string>)
    requires Reads(ts, p, a + [op] + b, rest)
    ensures Reads(ts, p, a, [op] + b + rest)
    ensures p + |a| < |ts| && ts[p + |a|] == op
    ensures Reads(ts, p + |a| + 1, b, rest)
  {
    assert a + [op] + b + rest == a + ([op] + b + rest);
    SkipTokens(ts, p, a, [op] + b + rest);
    assert [op] + b + rest == [op] + (b + rest);
    SkipTokens(ts, p + |a|, [op], b + rest);
  }

  lemma {:induction false} OrEnd(ts: seq<string>, p: nat, acc: Query)
    requires p <= |ts| && Stops(ts[p..], {")"})
    ensures OrLoop(ts, p, acc) == Ok((acc, p))
  {
    assert p < |ts| ==> ts[p..][0] == ts[p];
  }

  lemma {:induction false} AndEnd(ts: seq<string>, p: nat, acc: Query)
    requires p <= |ts| && Stops(ts[p..], {")", "||"})
    ensures AndLoop(ts, p, acc) == Ok((acc, p))
  {
    assert p < |ts| ==> ts[p..][0] == ts[p];
  }

  /** Where the parts of two operands or more stand; the first operand is followed by its operator. */
  lemma {:induction false} EitherParts(c: AndExpr, others: OrExpr, ts: seq<string>, p: nat, rest: seq<string>)
    requires WellFormed(OrInfix(Either(c, others))) && Reads(ts, p, OrTokens(Either(c, others)), rest)
    ensures WellFormed(AndInfix(c)) && WellFormed(OrInfix(others))
    ensures var tail := ["||"] + OrTokens(others) + rest;
            Reads(ts, p, AndTokens(c), tail) && Stops(tail, {")", "||"})
    ensures var q := p + |AndTokens(c)|;
            && q < |ts| && ts[q] == "||" && Reads(ts, q + 1, OrTokens(others), rest)
            && p + |OrTokens(Either(c, others))| == q + 1 + |OrTokens(others)|
  {
    SplitAtOperator(ts, p, AndTokens(c), "||", OrTokens(others), rest);
    SkipTokens(ts, p, AndTokens(c), ["||"] + OrTokens(others) + rest);
  }

  lemma {:induction false} BothParts(f: Factor, others: AndExpr, ts: seq<string>, p: nat, rest: seq<string>)
    requires WellFormed(AndInfix(Both(f, others))) && Reads(ts, p, AndTokens(Both(f, others)), rest)
    ensures WellFormed(FactorInfix(f)) && WellFormed(AndInfix(others))
    ensures Reads(ts, p, FactorTokens(f), ["&&"] + AndTokens(others) + rest)
    ensures var q := p + |FactorTokens(f)|;
            && q < |ts| && ts[q] == "&&" && Reads(ts, q + 1, AndTokens(others), rest)
            && p + |AndTokens(Both(f, others))| == q + 1 + |AndTokens(others)|
  {
    SplitAtOperator(ts, p, FactorTokens(f), "&&", AndTokens(others), rest);
  }

  lemma {:induction false} ParsesOr(e: OrExpr, ts: seq<string>, p: nat, rest: seq<string>)
    requires WellFormed(OrInfix(e)) && "" !in ts
    requires Reads(ts, p, OrTokens(e), rest) && Stops(rest, {")"})
    ensures ParseOr(ts, p) == Ok((OrQuery(e), p + |OrTokens(e)|))
    decreases e, 1
  {
    SkipTokens(ts, p, OrTokens(e), rest);
    match e
    case Single(c) =>
      ParsesAnd(c, ts, p, rest);
    case Either(c, others) =>
      EitherParts(c, others, ts, p, rest);
      ParsesAnd(c, ts, p, ["||"] + OrTokens(others) + rest);
      LoopsOr(others, AndQuery(c), ts, p + |AndTokens(c)|, rest);
  }

  lemma {:induction false} LoopsOr(e: OrExpr, acc: Query, ts: seq<string>, p: nat, rest: seq<string>)
    requires WellFormed(OrInfix(e)) && "" !in ts && p < |ts| && ts[p] == "||"
    requires Reads(ts, p + 1, OrTokens(e), rest) && Stops(rest, {")"})
    ensures OrLoop(ts, p, acc) == Ok((JoinOr(acc, e), p + 1 + |OrTokens(e)|))
    decreases e, 0
  {
    match e
    case Single(c) =>
      OrRound(c, acc, ts, p, rest);
      OrEnd(ts, p + 1 + |AndTokens(c)|, Or(acc, AndQuery(c)));
    case Either(c, others) =>
      OrStep(c, others, acc, ts, p, rest);
      LoopsOr(others, Or(acc, AndQuery(c)), ts, p + 1 + |AndTokens(c)|, rest);
  }

  lemma {:induction false} OrStep(c: AndExpr, others: OrExpr, acc: Query, ts: seq<string>, p: nat, rest: seq<string>)
    requires WellFormed(OrInfix(Either(c, others))) && "" !in ts && p < |ts| && ts[p] == "||"
    requires Reads(ts, p + 1, OrTokens(Either(c, others)), rest)
    ensures WellFormed(OrInfix(others))
    ensures var next := p + 1 + |AndTokens(c)|;
            && next < |ts| && ts[next] == "||" && Reads(ts, next + 1, OrTokens(others), rest)
            && p + |OrTokens(Either(c, others))| == next + |OrTokens(others)|
            && OrLoop(ts, p, acc) == OrLoop(ts, next, Or(acc, AndQuery(c)))
    decreases c, 3
  {
    EitherParts(c, others, ts, p + 1, rest);
    OrRound(c, acc, ts, p, ["||"] + OrTokens(others) + rest);
  }

  /** One round of the or-level's loop takes one operand. */
  lemma {:induction false} OrRound(c: AndExpr, acc: Query, ts: seq<string>, p: nat, rest: seq<string>)
    requires WellFormed(AndInfix(c)) && "" !in ts && p < |ts| && ts[p] == "||"
    requires Reads(ts, p + 1, AndTokens(c), rest) && Stops(rest, {")", "||"})
    ensures var next := p + 1 + |AndTokens(c)|;
            && next <= |ts| && ts[next..] == rest
            && OrLoop(ts, p, acc) == OrLoop(ts, next, Or(acc, AndQuery(c)))
    decreases c, 2
  {
    SkipTokens(ts, p + 1, AndTokens(c), rest);
    ParsesAnd(c, ts, p + 1, rest);
  }

  lemma {:induction false} ParsesAnd(c: AndExpr, ts: seq<string>, p: nat, rest: seq<string>)
    requires WellFormed(AndInfix(c)) && "" !in ts
    requires Reads(ts, p, AndTokens(c), rest) && Stops(rest, {")", "||"})
    ensures ParseAnd(ts, p) == Ok((AndQuery(c), p + |AndTokens(c)|))
    decreases c, 1
  {
    SkipTokens(ts, p, AndTokens(c), rest);
    match c
    case Lone(f) =>
      ParsesFactor(f, ts, p, rest);
    case Both(f, others) =>
      BothParts(f, others, ts, p, rest);
      ParsesFactor(f, ts, p, ["&&"] + AndTokens(others) + rest);
      LoopsAnd(others, FactorQuery(f), ts, p + |FactorTokens(f)|, rest);
  }

  lemma {:induction false} LoopsAnd(c: AndExpr, acc: Query, ts: seq<string>, p: nat, rest: seq<string>)
    requires WellFormed(AndInfix(c)) && "" !in ts && p < |ts| && ts[p] == "&&"
    requires Reads(ts, p + 1, AndTokens(c), rest) && Stops(rest, {")", "||"})
    ensures AndLoop(ts, p, acc) == Ok((JoinAnd(acc, c), p + 1 + |AndTokens(c)|))
    decreases c, 0
  {
    match c
    case Lone(f) =>
      AndRound(f, acc, ts, p, rest);
      AndEnd(ts, p + 1 + |FactorTokens(f)|, And(acc, FactorQuery(f)));
    case Both(f, others) =>
      AndStep(f, others, acc, ts, p, rest);
      LoopsAnd(others, And(acc, FactorQuery(f)), ts, p + 1 + |FactorTokens(f)|, rest);
  }

  lemma {:induction false} AndStep(f: Factor, others: AndExpr, acc: Query, ts: seq<string>, p: nat, rest: seq<string>)
    requires WellFormed(AndInfix(Both(f, others))) && "" !in ts && p < |ts| && ts[p] == "&&"
    requires Reads(ts, p + 1, AndTokens(Both(f, others)), rest)
    ensures WellFormed(AndInfix(others))
    ensures var next := p + 1 + |FactorTokens(f)|;
            && next < |ts| && ts[next] == "&&" && Reads(ts, next + 1, AndTokens(others), rest)
            && p + |AndTokens(Both(f, others))| == next + |AndTokens(others)|
            && AndLoop(ts, p, acc) == AndLoop(ts, next, And(acc, FactorQuery(f)))
    decreases f, 2
  {
    BothParts(f, others, ts, p + 1, rest);
    AndRound(f, acc, ts, p, ["&&"] + AndTokens(others) + rest);
  }

  /** One round of the and-level's loop takes one factor. */
  lemma {:induction false} AndRound(f: Factor, acc: Query, ts: seq<string>, p: nat, rest: seq<string>)
    requires WellFormed(FactorInfix(f)) && "" !in ts && p < |ts| && ts[p] == "&&"
    requires Reads(ts, p + 1, FactorTokens(f), rest)
    ensures var next := p + 1 + |FactorTokens(f)|;
            && next <= |ts| && ts[next..] == rest
            && AndLoop(ts, p, acc) == AndLoop(ts, next, And(acc, FactorQuery(f)))
    decreases f, 1
  {
    SkipTokens(ts, p + 1, FactorTokens(f), rest);
    ParsesFactor(f, ts, p + 1, rest);
  }

  /** Where the parts of a group stand. */
  lemma GroupParts(e: OrExpr, ts: seq<string>, p: nat, rest: seq<string>)
    requires Reads(ts, p, FactorTokens(Group(e)), rest)
    ensures ts[p] == "(" && Reads(ts, p + 1, OrTokens(e), [")"] + rest)
    ensures var q := p + 1 + |OrTokens(e)|; q < |ts| && ts[q] == ")" && q + 1 == p + |FactorTokens(Group(e))|
  {
    var tail := [")"] + rest;
    Regroup(["("], OrTokens(e), [")"], rest);
    SkipTokens(ts, p, ["("], OrTokens(e) + tail);
    SkipTokens(ts, p + 1, OrTokens(e), tail);
  }

  lemma {:induction false} ParsesFactor(f: Factor, ts: seq<string>, p: nat, rest: seq<string>)
    requires WellFormed(FactorInfix(f)) && "" !in ts
    requires Reads(ts, p, FactorTokens(f), rest)
    ensures ParseFactor(ts, p) == Ok((FactorQuery(f), p + |FactorTokens(f)|))
    decreases f, 0
  {
    SkipTokens(ts, p, FactorTokens(f), rest);
    match f
    case Atom(t) =>
    case Group(e) =>
      GroupParts(e, ts, p, rest);
      ParsesOr(e, ts, p + 1, [")"] + rest);
  }
}
