/** The tokenizer of the boolean search language (backend/app/services/events.py). */
module SearchLexer {
  import opened Wrappers

  const MAX_SEARCH_LENGTH: nat := 256
  const MAX_SEARCH_TOKENS: nat := 32

  datatype SearchError = TooLong | TooManyTokens | UnterminatedQuote | EmptyTerm | Invalid | TooDeep

  type Lexed = Result<seq<string>, SearchError>

  /** `str.isspace` for one character. */
  predicate IsSpace(c: char) {
    || '\t' <= c <= '\r' || '\U{1c}' <= c <= ' ' || c == '\U{85}' || c == '\U{a0}' || c == '\U{1680}'
    || '\U{2000}' <= c <= '\U{200a}' || c == '\U{2028}' || c == '\U{2029}' || c == '\U{202f}'
    || c == '\U{205f}' || c == '\U{3000}'
  }

  predicate IsParen(c: char) { c == '(' || c == ')' }

  predicate IsQuote(c: char) { c == '"' || c == '\'' }

  predicate OperatorAt(text: string, i: nat) {
    i + 2 <= |text| && (text[i..i + 2] == "&&" || text[i..i + 2] == "||")
  }

  /** The first index from `i` on that holds the quote, or the end of the text. */
  function QuoteEnd(text: string, i: nat, quote: char): (r: nat)
    requires i <= |text|
    ensures i <= r <= |text|
    decreases |text| - i
  {
    if i == |text| || text[i] == quote then i else QuoteEnd(text, i + 1, quote)
  }

  predicate WordChar(text: string, i: nat)
    requires i < |text|
  {
    !IsSpace(text[i]) && !IsParen(text[i]) && !OperatorAt(text, i)
  }

  /** The end of the bare word that runs through `i`. */
  function WordEnd(text: string, i: nat): (r: nat)
    requires i <= |text|
    ensures i <= r <= |text|
    decreases |text| - i
  {
    if i < |text| && WordChar(text, i) then WordEnd(text, i + 1) else i
  }

  function Prepend(tokens: seq<string>, rest: Lexed): Lexed {
    if rest.Ok? then Ok(tokens + rest.value) else rest
  }

  /** What starts at `i`: the tokens it yields (none for a space) and the index after it. */
  function Step(text: string, i: nat): (r: Result<(seq<string>, nat), SearchError>)
    requires i < |text|
    ensures r.Ok? ==> i < r.value.1 <= |text|
  {
    if IsSpace(text[i]) then Ok(([], i + 1))
    else if OperatorAt(text, i) then Ok(([text[i..i + 2]], i + 2))
    else if IsParen(text[i]) then Ok(([[text[i]]], i + 1))
    else if IsQuote(text[i]) then
      var end := QuoteEnd(text, i + 1, text[i]);
      if end == |text| then Err(UnterminatedQuote)
      else if end == i + 1 then Err(EmptyTerm)
      else Ok(([text[i + 1..end]], end + 1))
    else Ok(([text[i..WordEnd(text, i + 1)]], WordEnd(text, i + 1)))
  }

  /** The tokens of `text` from index `i` on. */
  function Lex(text: string, i: nat): Lexed
    requires i <= |text|
    decreases |text| - i
  {
    if i == |text| then Ok([])
    else
      var step := Step(text, i);
      if step.Err? then Err(step.error) else Prepend(step.value.0, Lex(text, step.value.1))
  }

  function Tokens(text: string): Lexed {
    if |text| > MAX_SEARCH_LENGTH then Err(TooLong)
    else
      var r := Lex(text, 0);
      if r.Ok? && |r.value| > MAX_SEARCH_TOKENS then Err(TooManyTokens) else r
  }

  lemma PrependTwice(a: seq<string>, b: seq<string>, rest: Lexed)
    ensures Prepend(a, Prepend(b, rest)) == Prepend(a + b, rest)
  {
    if rest.Ok? {
      assert a + (b + rest.value) == a + b + rest.value;
    }
  }

  lemma PrependNothing(rest: Lexed)
    ensures Prepend([], rest) == rest
  {
    if rest.Ok? {
      assert [] + rest.value == rest.value;
    }
  }

  /** No token is empty, so dropping empty tokens at the end changes nothing. */
  lemma {:induction false} TokensNonempty(text: string, i: nat)
    requires i <= |text|
    ensures Lex(text, i).Ok? ==> forall k :: 0 <= k < |Lex(text, i).value| ==> Lex(text, i).value[k] != ""
    decreases |text| - i
  {
    if i < |text| && Step(text, i).Ok? {
      TokensNonempty(text, Step(text, i).value.1);
    }
  }

  function Nonempty(tokens: seq<string>): seq<string> {
    if tokens == [] then []
    else (if tokens[0] != "" then [tokens[0]] else []) + Nonempty(tokens[1..])
  }

  lemma {:induction false} NonemptyAll(tokens: seq<string>)
    requires forall k :: 0 <= k < |tokens| ==> tokens[k] != ""
    ensures Nonempty(tokens) == tokens
  {
    if tokens != [] {
      NonemptyAll(tokens[1..]);
    }
  }

  method ScanQuote(text: string, start: nat, quote: char) returns (i: nat)
    requires start <= |text|
    ensures i == QuoteEnd(text, start, quote)
  {
    i := start;
    while i < |text| && text[i] != quote
      invariant start <= i <= |text|
      invariant QuoteEnd(text, start, quote) == QuoteEnd(text, i, quote)
    {
      i := i + 1;
    }
  }

  method ScanWord(text: string, start: nat) returns (i: nat)
    requires start < |text| && WordChar(text, start)
    ensures i == WordEnd(text, start + 1)
  {
    i := start;
    while i < |text| && !IsSpace(text[i]) && !IsParen(text[i])
      invariant start <= i <= |text|
      invariant WordEnd(text, start) == WordEnd(text, i)
    {
      if OperatorAt(text, i) {
        break;
      }
      i := i + 1;
    }
  }

  /** One round of the tokenizer's loop. */
  method LexOne(text: string, i: nat) returns (r: Result<(seq<string>, nat), SearchError>)
    requires i < |text|
    ensures r == Step(text, i)
  {
    if IsSpace(text[i]) {
      return Ok(([], i + 1));
    }
    if OperatorAt(text, i) {
      return Ok(([text[i..i + 2]], i + 2));
    }
    if IsParen(text[i]) {
      return Ok(([[text[i]]], i + 1));
    }
    if IsQuote(text[i]) {
      var end := ScanQuote(text, i + 1, text[i]);
      if end >= |text| {
        return Err(UnterminatedQuote);
      }
      if end == i + 1 {
        return Err(EmptyTerm);
      }
      return Ok(([text[i + 1..end]], end + 1));
    }
    var end := ScanWord(text, i);
    return Ok(([text[i..end]], end));
  }

  method Tokenize(text: string) returns (r: Lexed)
    ensures r == Tokens(text)
  {
    if |text| > MAX_SEARCH_LENGTH {
      return Err(TooLong);
    }
    var tokens: seq<string> := [];
    var i := 0;
    PrependNothing(Lex(text, 0));
    while i < |text|
      invariant 0 <= i <= |text|
      invariant Lex(text, 0) == Prepend(tokens, Lex(text, i))
    {
      var step := LexOne(text, i);
      if step.Err? {
        return Err(step.error);
      }
      PrependTwice(tokens, step.value.0, Lex(text, step.value.1));
      tokens, i := tokens + step.value.0, step.value.1;
    }
    assert tokens + [] == tokens;
    TokensNonempty(text, 0);
    NonemptyAll(tokens);
    tokens := Nonempty(tokens);
    if |tokens| > MAX_SEARCH_TOKENS {
      return Err(TooManyTokens);
    }
    return Ok(tokens);
  }
}
