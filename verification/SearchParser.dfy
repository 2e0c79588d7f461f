/** The validator and the recursive-descent parser of the boolean search language
    (backend/app/services/events.py). */
module SearchParser {
  import opened Wrappers
  import opened SearchLexer

  const MAX_SEARCH_DEPTH: nat := 4

  predicate IsOperator(t: string) { t == "&&" || t == "||" }

  predicate IsSyntax(t: string) { IsOperator(t) || t == "(" || t == ")" }

  predicate HasSyntax(tokens: seq<string>) {
    exists t :: t in tokens && IsSyntax(t)
  }

  // ---- Validation ----------------------------------------------------------------------------

  datatype Scan = Scan(depth: nat, expectsTerm: bool)

  /** One token in the validator's loop. */
  function ScanToken(s: Scan, t: string): Result<Scan, SearchError> {
    if t == "(" then
      if !s.expectsTerm then Err(Invalid)
      else if s.depth + 1 > MAX_SEARCH_DEPTH then Err(TooDeep)
      else Ok(Scan(s.depth + 1, s.expectsTerm))
    else if t == ")" then
      if s.expectsTerm || s.depth == 0 then Err(Invalid) else Ok(Scan(s.depth - 1, false))
    else if IsOperator(t) then
      if s.expectsTerm then Err(Invalid) else Ok(Scan(s.depth, true))
    else
      if !s.expectsTerm then Err(Invalid) else Ok(Scan(s.depth, false))
  }

  function ScanTokens(s: Scan, tokens: seq<string>): Result<Scan, SearchError>
    decreases |tokens|
  {
    if tokens == [] then Ok(s)
    else
      var r := ScanToken(s, tokens[0]);
      if r.Err? then r else ScanTokens(r.value, tokens[1..])
  }

  /** The linear validator's verdict on a token list. */
  function Checked(tokens: seq<string>): Lexed {
    if !HasSyntax(tokens) then Ok(tokens)
    else
      var r := ScanTokens(Scan(0, true), tokens);
      if r.Err? then Err(r.error)
      else if r.value.expectsTerm || r.value.depth != 0 then Err(Invalid)
      else Ok(tokens)
  }

  function StripLeft(text: string): string {
    if text != "" && IsSpace(text[0]) then StripLeft(text[1..]) else text
  }

  function StripRight(text: string): string {
    if text != "" && IsSpace(text[|text| - 1]) then StripRight(text[..|text| - 1]) else text
  }

  function Strip(text: string): string { StripRight(StripLeft(text)) }

  function Validated(text: string): Lexed {
    var stripped := Strip(text);
    if stripped == "" then Ok([])
    else
      var r := Tokens(stripped);
      if r.Err? then r else if r.value == [] then Err(EmptyTerm) else Checked(r.value)
  }

  method CheckTokens(tokens: seq<string>) returns (r: Lexed)
    ensures r == Checked(tokens)
  {
    var syntax := false;
    for i := 0 to |tokens|
      invariant syntax <==> exists k :: 0 <= k < i && IsSyntax(tokens[k])
    {
      syntax := syntax || IsSyntax(tokens[i]);
    }
    if !syntax {
      return Ok(tokens);
    }
    var depth: nat, expectsTerm := 0, true;
    var i := 0;
    while i < |tokens|
      invariant 0 <= i <= |tokens|
      invariant ScanTokens(Scan(0, true), tokens) == ScanTokens(Scan(depth, expectsTerm), tokens[i..])
    {
      var token := tokens[i];
      assert tokens[i..][0] == token && tokens[i..][1..] == tokens[i + 1..];
      if token == "(" {
        if !expectsTerm {
          return Err(Invalid);
        }
        depth := depth + 1;
        if depth > MAX_SEARCH_DEPTH {
          return Err(TooDeep);
        }
      } else if token == ")" {
        if expectsTerm || depth == 0 {
          return Err(Invalid);
        }
        depth := depth - 1;
        expectsTerm := false;
      } else if token == "&&" || token == "||" {
        if expectsTerm {
          return Err(Invalid);
        }
        expectsTerm := true;
      } else {
        if !expectsTerm {
          return Err(Invalid);
        }
        expectsTerm := false;
      }
      i := i + 1;
    }
    if expectsTerm || depth != 0 {
      return Err(Invalid);
    }
    return Ok(tokens);
  }

  method ValidateSearchExpression(text: string) returns (r: Lexed)
    ensures r == Validated(text)
  {
    var stripped := Strip(text);
    if stripped == "" {
      return Ok([]);
    }
    r := Tokenize(stripped);
    if r.Ok? {
      if r.value == [] {
        return Err(EmptyTerm);
      }
      r := CheckTokens(r.value);
    }
  }

  // ---- Parsing -------------------------------------------------------------------------------

  /** The condition tree the parser builds; a term's own condition is not modelled. */
  datatype Query = Term(text: string) | And(left: Query, right: Query) | Or(left: Query, right: Query)

  /** A parsed prefix: the expression and the position after it. */
  type Parsed = Result<(Query, nat), SearchError>

  function ParseOr(ts: seq<string>, p: nat): (r: Parsed)
    requires p <= |ts|
    ensures r.Ok? ==> p < r.value.1 <= |ts|
    decreases |ts| - p, 4
  {
    var r := ParseAnd(ts, p);
    if r.Err? then r else OrLoop(ts, r.value.1, r.value.0)
  }

  function OrLoop(ts: seq<string>, p: nat, acc: Query): (r: Parsed)
    requires p <= |ts|
    ensures r.Ok? ==> p <= r.value.1 <= |ts|
    decreases |ts| - p, 3
  {
    if p < |ts| && ts[p] == "||" then
      var r := ParseAnd(ts, p + 1);
      if r.Err? then r else OrLoop(ts, r.value.1, Or(acc, r.value.0))
    else Ok((acc, p))
  }

  function ParseAnd(ts: seq<string>, p: nat): (r: Parsed)
    requires p <= |ts|
    ensures r.Ok? ==> p < r.value.1 <= |ts|
    decreases |ts| - p, 2
  {
    var r := ParseFactor(ts, p);
    if r.Err? then r else AndLoop(ts, r.value.1, r.value.0)
  }

  function AndLoop(ts: seq<string>, p: nat, acc: Query): (r: Parsed)
    requires p <= |ts|
    ensures r.Ok? ==> p <= r.value.1 <= |ts|
    decreases |ts| - p, 1
  {
    if p < |ts| && ts[p] == "&&" then
      var r := ParseFactor(ts, p + 1);
      if r.Err? then r else AndLoop(ts, r.value.1, And(acc, r.value.0))
    else Ok((acc, p))
  }

  /** A group whose closing parenthesis is missing is accepted here; only the validator refuses it. */
  function ParseFactor(ts: seq<string>, p: nat): (r: Parsed)
    requires p <= |ts|
    ensures r.Ok? ==> p < r.value.1 <= |ts|
    decreases |ts| - p, 0
  {
    if p == |ts| then Err(Invalid)
    else if ts[p] == "(" then
      var r := ParseOr(ts, p + 1);
      if r.Ok? && r.value.1 < |ts| && ts[r.value.1] == ")" then Ok((r.value.0, r.value.1 + 1)) else r
    else if ts[p] == ")" then Err(Invalid)
    else if ts[p] == "" then Err(EmptyTerm)
    else Ok((Term(ts[p]), p + 1))
  }

  /** `build_search_expression`: three nested functions that share the token position. */
  class Parser {
    const tokens: seq<string>
    var position: nat

    constructor (tokens: seq<string>)
      ensures this.tokens == tokens && position == 0
    {
      this.tokens := tokens;
      position := 0;
    }

    ghost predicate Tells(r: Result<Query, SearchError>, spec: Parsed)
      reads this
    {
      if r.Ok? then spec == Ok((r.value, position)) else spec == Err(r.error)
    }

    method Or() returns (r: Result<Query, SearchError>)
      requires position <= |tokens|
      modifies this
      ensures position <= |tokens| || r.Err?
      ensures Tells(r, ParseOr(tokens, old(position)))
      decreases |tokens| - position, 2
    {
      r := And();
      if r.Err? {
        return;
      }
      while position < |tokens| && tokens[position] == "||"
        invariant old(position) < position <= |tokens|
        invariant r.Ok?
        invariant ParseOr(tokens, old(position)) == OrLoop(tokens, position, r.value)
        decreases |tokens| - position
      {
        position := position + 1;
        var right := And();
        if right.Err? {
          return right;
        }
        r := Ok(Query.Or(r.value, right.value));
      }
    }

    method And() returns (r: Result<Query, SearchError>)
      requires position <= |tokens|
      modifies this
      ensures position <= |tokens| || r.Err?
      ensures Tells(r, ParseAnd(tokens, old(position)))
      decreases |tokens| - position, 1
    {
      r := Factor();
      if r.Err? {
        return;
      }
      while position < |tokens| && tokens[position] == "&&"
        invariant old(position) < position <= |tokens|
        invariant r.Ok?
        invariant ParseAnd(tokens, old(position)) == AndLoop(tokens, position, r.value)
        decreases |tokens| - position
      {
        position := position + 1;
        var right := Factor();
        if right.Err? {
          return right;
        }
        r := Ok(Query.And(r.value, right.value));
      }
    }

    method Factor() returns (r: Result<Query, SearchError>)
      requires position <= |tokens|
      modifies this
      ensures position <= |tokens| || r.Err?
      ensures Tells(r, ParseFactor(tokens, old(position)))
      decreases |tokens| - position, 0
    {
      if position >= |tokens| {
        return Err(Invalid);
      }
      var token := tokens[position];
      if token == "(" {
        position := position + 1;
        r := Or();
        if r.Ok? && position < |tokens| && tokens[position] == ")" {
          position := position + 1;
        }
        return;
      }
      position := position + 1;
      if token == ")" {
        return Err(Invalid);
      }
      if token == "" {
        return Err(EmptyTerm);
      }
      return Ok(Term(token));
    }
  }

  method BuildSearchExpression(tokens: seq<string>) returns (r: Result<Query, SearchError>)
    ensures var spec := ParseOr(tokens, 0);
            r == if spec.Ok? then Ok(spec.value.0) else Err(spec.error)
  {
    var parser := new Parser(tokens);
    r := parser.Or();
  }

  // ---- The search filter ---------------------------------------------------------------------

  predicate HasQuote(text: string) {
    exists c :: c in text && IsQuote(c)
  }

  /** The `q` branch of `apply_event_filters`: no condition for blank text, the parsed
      expression when the text uses syntax or quotes, else the whole text as one term. */
  function Filter(text: string): Result<Option<Query>, SearchError> {
    var q := Strip(text);
    if q == "" then Ok(None)
    else
      var tokens := Validated(q);
      if tokens.Err? then Err(tokens.error)
      else if HasSyntax(tokens.value) || HasQuote(q) then
        var r := ParseOr(tokens.value, 0);
        if r.Err? then Err(r.error) else Ok(Some(r.value.0))
      else Ok(Some(Term(q)))
  }
}
