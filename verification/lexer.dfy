/** The token view of a lease file. pyparsing matches the grammar directly on
    characters, skipping the default whitespace (space, tab, newline, carriage
    return) before each element; this model first cuts the text into the
    tokens the grammar's elements match: runs of non-blank characters, the
    punctuation `{`, `}` and `;`, and double-quoted strings that end on the
    same line (`QuotedString('"')`). */
module Lexer {
  import opened Results

  datatype Token =
    | Word(text: string)     // a maximal run of word characters
    | Quoted(text: string)   // the contents of a "..." string, quotes removed
    | Punct(symbol: char)    // `{`, `}` or `;`
    | Stray                  // a `"` with no closing quote on its line

  /** pyparsing's default whitespace. */
  predicate IsBlank(c: char) { c == ' ' || c == '\t' || c == '\n' || c == '\r' }

  predicate IsPunct(c: char) { c == '{' || c == '}' || c == ';' }

  predicate IsWordBody(c: char) { !IsBlank(c) && !IsPunct(c) && c != '"' }

  /** A character allowed inside a quoted string: `QuotedString('"')` stops at
      the closing quote and refuses line breaks. */
  predicate IsQuotedBody(c: char) { c != '"' && c != '\n' && c != '\r' }

  /** The tokens `Tokenize` can produce. */
  predicate WellFormed(t: Token) {
    match t
    case Word(w) => |w| > 0 && forall i :: 0 <= i < |w| ==> IsWordBody(w[i])
    case Quoted(q) => forall i :: 0 <= i < |q| ==> IsQuotedBody(q[i])
    case Punct(c) => IsPunct(c)
    case Stray => true
  }

  /** The length of the longest prefix of `s` made of word characters. */
  function WordLength(s: string): (n: nat)
    ensures n <= |s|
    ensures forall i :: 0 <= i < n ==> IsWordBody(s[i])
    ensures n < |s| ==> !IsWordBody(s[n])
  {
    if |s| == 0 || !IsWordBody(s[0]) then 0 else 1 + WordLength(s[1..])
  }

  /** Where the quoted string that starts just before `s` closes: the index of
      the first `"` in `s`, provided no line break comes before it. */
  function QuoteEnd(s: string): (r: Option<nat>)
    ensures r.Some? ==> r.value < |s| && s[r.value] == '"'
    ensures r.Some? ==> forall i :: 0 <= i < r.value ==> IsQuotedBody(s[i])
    ensures r.None? ==> forall k :: 0 <= k < |s| && s[k] == '"' ==> exists i :: 0 <= i < k && !IsQuotedBody(s[i])
  {
    if |s| == 0 then None
    else if s[0] == '"' then Some(0)
    else if s[0] == '\n' || s[0] == '\r' then None
    else
      match QuoteEnd(s[1..])
      case Some(k) => Some(k + 1)
      case None =>
        assert forall k :: 1 <= k < |s| && s[k] == '"' ==> s[1..][k - 1] == '"';
        None
  }

  /** Cuts lease-file text into tokens, left to right, dropping blanks. */
  function Tokenize(s: string): (ts: seq<Token>)
    ensures forall k :: 0 <= k < |ts| ==> WellFormed(ts[k])
    decreases |s|
  {
    if |s| == 0 then []
    else if IsBlank(s[0]) then Tokenize(s[1..])
    else if IsPunct(s[0]) then [Punct(s[0])] + Tokenize(s[1..])
    else if s[0] == '"' then
      match QuoteEnd(s[1..])
      case Some(k) => [Quoted(s[1..k + 1])] + Tokenize(s[k + 2..])
      case None => [Stray] + Tokenize(s[1..])
    else
      var n := WordLength(s);
      [Word(s[..n])] + Tokenize(s[n..])
  }

  /** The text of one token as it appears in a file. */
  function TokenText(t: Token): string {
    match t
    case Word(w) => w
    case Quoted(q) => "\"" + q + "\""
    case Punct(c) => [c]
    case Stray => "\""
  }

  /** Writes tokens out one per line. */
  function Render(ts: seq<Token>): string {
    if |ts| == 0 then [] else TokenText(ts[0]) + "\n" + Render(ts[1..])
  }

  lemma {:induction false} WordLengthOf(w: string, rest: string)
    requires forall i :: 0 <= i < |w| ==> IsWordBody(w[i])
    ensures WordLength(w + "\n" + rest) == |w|
    decreases |w|
  {
    if |w| > 0 {
      WordLengthOf(w[1..], rest);
      assert (w + "\n" + rest)[1..] == w[1..] + "\n" + rest;
    }
  }

  lemma {:induction false} QuoteEndOf(q: string, rest: string)
    requires forall i :: 0 <= i < |q| ==> IsQuotedBody(q[i])
    ensures QuoteEnd(q + "\"" + rest) == Some(|q|)
    decreases |q|
  {
    if |q| > 0 {
      QuoteEndOf(q[1..], rest);
      assert (q + "\"" + rest)[1..] == q[1..] + "\"" + rest;
    }
  }

  lemma TokenizeAfterBreak(rest: string)
    ensures Tokenize("\n" + rest) == Tokenize(rest)
  {
    assert ("\n" + rest)[1..] == rest;
  }

  lemma TokenizeWord(w: string, rest: string)
    requires WellFormed(Word(w))
    ensures Tokenize(w + "\n" + rest) == [Word(w)] + Tokenize(rest)
  {
    var s := w + "\n" + rest;
    WordLengthOf(w, rest);
    assert s[..|w|] == w;
    assert s[|w|..] == "\n" + rest;
    TokenizeAfterBreak(rest);
  }

  lemma TokenizeQuoted(q: string, rest: string)
    requires WellFormed(Quoted(q))
    ensures Tokenize("\"" + q + "\"" + "\n" + rest) == [Quoted(q)] + Tokenize(rest)
  {
    var s := "\"" + q + "\"" + "\n" + rest;
    assert s[1..] == q + "\"" + ("\n" + rest);
    QuoteEndOf(q, "\n" + rest);
    assert s[1..|q| + 1] == q;
    assert s[|q| + 2..] == "\n" + rest;
    TokenizeAfterBreak(rest);
  }

  lemma TokenizeSingle(c: char, rest: string)
    requires IsPunct(c) || c == '"'
    ensures Tokenize([c] + "\n" + rest) == [if c == '"' then Stray else Punct(c)] + Tokenize(rest)
  {
    var s := [c] + "\n" + rest;
    assert s[1..] == "\n" + rest;
    TokenizeAfterBreak(rest);
  }

  /** A well-formed token followed by a line break is read back as itself. */
  lemma TokenizeOne(t: Token, rest: string)
    requires WellFormed(t)
    ensures Tokenize(TokenText(t) + "\n" + rest) == [t] + Tokenize(rest)
  {
    match t
    case Word(w) => TokenizeWord(w, rest);
    case Quoted(q) => TokenizeQuoted(q, rest);
    case Punct(c) => TokenizeSingle(c, rest);
    case Stray => TokenizeSingle('"', rest);
  }

  /** Rendering well-formed tokens and cutting the text again gives the same tokens. */
  lemma {:induction false} TokenizeRender(ts: seq<Token>)
    requires forall k :: 0 <= k < |ts| ==> WellFormed(ts[k])
    ensures Tokenize(Render(ts)) == ts
  {
    if |ts| > 0 {
      TokenizeRender(ts[1..]);
      TokenizeOne(ts[0], Render(ts[1..]));
      assert ts == [ts[0]] + ts[1..];
    }
  }
}
