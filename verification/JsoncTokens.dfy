/** Cutting a JSONC text into tokens, and what the tokens are. */
module JsoncTokens {

  /** A string literal, a comment, or one character of anything else. */
  datatype Token = Literal(text: string) | Comment(text: string) | Other(c: char)

  function TextOf(t: Token): string {
    match t case Literal(s) => s case Comment(s) => s case Other(c) => [c]
  }

  function Render(ts: seq<Token>): string {
    if ts == [] then [] else TextOf(ts[0]) + Render(ts[1..])
  }

  // ----- Where tokens end -------------------------------------------------------------

  /** The two characters at `i` are `c` and `d`. */
  predicate At(text: string, i: nat, c: char, d: char) {
    i + 1 < |text| && text[i] == c && text[i + 1] == d
  }

  /** Where a literal ends whose remainder starts at `i`: after the closing quote, or with the
      text. A backslash takes the next character with it. */
  function LiteralEnd(text: string, i: nat): (e: nat)
    requires i <= |text|
    ensures i <= e <= |text|
    decreases |text| - i
  {
    if i == |text| then i
    else if text[i] == '\\' && i + 1 < |text| then LiteralEnd(text, i + 2)
    else if text[i] == '"' then i + 1
    else LiteralEnd(text, i + 1)
  }

  /** A line comment ends before the newline. */
  function LineEnd(text: string, i: nat): (e: nat)
    requires i <= |text|
    ensures i <= e <= |text|
    decreases |text| - i
  {
    if i == |text| || text[i] == '\n' then i else LineEnd(text, i + 1)
  }

  /** A block comment ends after its terminator, or with the text. */
  function BlockEnd(text: string, i: nat): (e: nat)
    requires i <= |text|
    ensures i <= e <= |text|
    decreases |text| - i
  {
    if i == |text| then i
    else if At(text, i, '*', '/') then i + 2
    else BlockEnd(text, i + 1)
  }

  predicate CommentAt(text: string, i: nat) {
    At(text, i, '/', '/') || At(text, i, '/', '*')
  }

  function TokenEnd(text: string, i: nat): (e: nat)
    requires i < |text|
    ensures i < e <= |text|
  {
    if text[i] == '"' then LiteralEnd(text, i + 1)
    else if At(text, i, '/', '/') then LineEnd(text, i + 2)
    else if At(text, i, '/', '*') then BlockEnd(text, i + 2)
    else i + 1
  }

  function TokenAt(text: string, i: nat): (t: Token)
    requires i < |text|
    ensures TextOf(t) == text[i..TokenEnd(text, i)]
  {
    if text[i] == '"' then Literal(text[i..TokenEnd(text, i)])
    else if CommentAt(text, i) then Comment(text[i..TokenEnd(text, i)])
    else Other(text[i])
  }

  function LexFrom(text: string, i: nat): seq<Token>
    requires i <= |text|
    decreases |text| - i
  {
    if i == |text| then [] else [TokenAt(text, i)] + LexFrom(text, TokenEnd(text, i))
  }

  function Lex(text: string): seq<Token> {
    LexFrom(text, 0)
  }

  lemma RenderCons(t: Token, ts: seq<Token>)
    ensures Render([t] + ts) == TextOf(t) + Render(ts)
  {
    assert ([t] + ts)[1..] == ts;
  }

  /** The tokens are the text, cut up. */
  lemma {:induction false} RenderLex(text: string, i: nat)
    requires i <= |text|
    ensures Render(LexFrom(text, i)) == text[i..]
    decreases |text| - i
  {
    if i == |text| {
    } else {
      var e := TokenEnd(text, i);
      RenderLex(text, e);
      RenderCons(TokenAt(text, i), LexFrom(text, e));
      assert text[i..] == text[i..e] + text[e..];
    }
  }

  // ----- What a token is --------------------------------------------------------------

  ghost predicate Has(text: string, p: int, word: string) {
    0 <= p <= p + |word| <= |text| && text[p..p + |word|] == word
  }

  /** Two slashes and what follows up to a newline, or up to the end of the text. */
  ghost predicate IsLineComment(text: string, i: nat, e: nat)
    requires i < e <= |text|
  {
    Has(text, i, "//") && (forall p :: i <= p < e ==> text[p] != '\n') && (e == |text| || text[e] == '\n')
  }

  /** A slash and a star and what follows up to and including the first terminator, or up to the
      end of the text. */
  ghost predicate IsBlockComment(text: string, i: nat, e: nat)
    requires i < e <= |text|
  {
    && Has(text, i, "/*") && (forall p :: i + 2 <= p < e - 2 ==> !Has(text, p, "*/"))
    && (e == |text| || (i + 2 <= e - 2 && Has(text, e - 2, "*/")))
  }

  /** How many backslashes stand directly before `p`, but not before `low`. */
  ghost function Backslashes(text: string, low: nat, p: nat): nat
    requires low <= p <= |text|
  {
    if low < p && text[p - 1] == '\\' then Backslashes(text, low, p - 1) + 1 else 0
  }

  /** A quote that closes the literal at `i`: no backslash before it takes it. */
  ghost predicate Closes(text: string, i: nat, p: int) {
    i < p < |text| && text[p] == '"' && Backslashes(text, i + 1, p) % 2 == 0
  }

  /** A quote and what follows up to and including the first one that closes it, or up to the end
      of the text. */
  ghost predicate IsLiteral(text: string, i: nat, e: nat)
    requires i < e <= |text|
  {
    text[i] == '"' && (forall p :: i < p < e - 1 ==> !Closes(text, i, p)) && (e == |text| || Closes(text, i, e - 1))
  }

  ghost predicate IsToken(text: string, i: nat, t: Token) {
    var e := i + |TextOf(t)|;
    i < e <= |text| && TextOf(t) == text[i..e] &&
    match t
    case Literal(_) => IsLiteral(text, i, e)
    case Comment(_) => IsLineComment(text, i, e) || IsBlockComment(text, i, e)
    case Other(c) => c != '"' && !Has(text, i, "//") && !Has(text, i, "/*")
  }

  lemma AtHas(text: string, i: nat, c: char, d: char)
    ensures At(text, i, c, d) <==> Has(text, i, [c, d])
  {
    if i + 1 < |text| {
      assert text[i..i + 2] == [text[i], text[i + 1]];
    }
  }

  lemma {:induction false} LineEndMeans(text: string, i: nat)
    requires i <= |text|
    ensures var e := LineEnd(text, i); (forall p :: i <= p < e ==> text[p] != '\n') && (e == |text| || text[e] == '\n')
    decreases |text| - i
  {
    if i == |text| || text[i] == '\n' {
    } else {
      LineEndMeans(text, i + 1);
    }
  }

  lemma {:induction false} BlockEndMeans(text: string, i: nat)
    requires i <= |text|
    ensures var e := BlockEnd(text, i);
            (forall p :: i <= p < e - 2 ==> !Has(text, p, "*/")) && (e == |text| || (i <= e - 2 && Has(text, e - 2, "*/")))
    decreases |text| - i
  {
    AtHas(text, i, '*', '/');
    if i == |text| || At(text, i, '*', '/') {
    } else {
      BlockEndMeans(text, i + 1);
    }
  }

  /** From a position in the literal at `i` that no backslash takes. */
  lemma {:induction false} LiteralEndMeans(text: string, i: nat, q: nat)
    requires i < q <= |text| && Backslashes(text, i + 1, q) % 2 == 0
    ensures var e := LiteralEnd(text, q);
            (forall p :: q <= p < e - 1 ==> !Closes(text, i, p)) && (e == |text| || (q <= e - 1 && Closes(text, i, e - 1)))
    decreases |text| - q
  {
    if q == |text| {
    } else if text[q] == '\\' && q + 1 < |text| {
      assert Backslashes(text, i + 1, q + 1) == Backslashes(text, i + 1, q) + 1;
      LiteralEndMeans(text, i, q + 2);
    } else if text[q] == '"' {
    } else if q + 1 < |text| {
      LiteralEndMeans(text, i, q + 1);
    }
  }

  lemma LiteralMeans(text: string, i: nat)
    requires i < |text| && text[i] == '"'
    ensures IsLiteral(text, i, LiteralEnd(text, i + 1))
  {
    LiteralEndMeans(text, i, i + 1);
  }

  lemma LineCommentMeans(text: string, i: nat)
    requires At(text, i, '/', '/')
    ensures IsLineComment(text, i, LineEnd(text, i + 2))
  {
    AtHas(text, i, '/', '/');
    LineEndMeans(text, i + 2);
  }

  lemma BlockCommentMeans(text: string, i: nat)
    requires At(text, i, '/', '*')
    ensures IsBlockComment(text, i, BlockEnd(text, i + 2))
  {
    AtHas(text, i, '/', '*');
    BlockEndMeans(text, i + 2);
  }

  lemma TokenAtMeans(text: string, i: nat)
    requires i < |text|
    ensures IsToken(text, i, TokenAt(text, i))
  {
    var e := TokenEnd(text, i);
    assert |text[i..e]| == e - i;
    if text[i] == '"' {
      LiteralMeans(text, i);
    } else if At(text, i, '/', '/') {
      LineCommentMeans(text, i);
    } else if At(text, i, '/', '*') {
      BlockCommentMeans(text, i);
    } else {
      AtHas(text, i, '/', '/');
      AtHas(text, i, '/', '*');
    }
  }

  lemma OnlyToken(text: string, i: nat, t: Token, u: Token)
    requires IsToken(text, i, t) && IsToken(text, i, u)
    ensures t == u
  {
    AtHas(text, i, '/', '/');
    AtHas(text, i, '/', '*');
    assert |TextOf(t)| == |TextOf(u)|;
  }

  /** The `k`-th token is the one where those before it end, counted from `i`. */
  predicate InPlace(text: string, i: nat, ts: seq<Token>, k: nat)
    requires k < |ts|
  {
    var p := i + |Render(ts[..k])|;
    p < |text| && ts[k] == TokenAt(text, p)
  }

  lemma FirstInPlace(text: string, i: nat, rest: seq<Token>)
    requires i < |text|
    ensures InPlace(text, i, [TokenAt(text, i)] + rest, 0)
  {
    assert ([TokenAt(text, i)] + rest)[..0] == [];
  }

  lemma {:induction false} LexedInPlace(text: string, i: nat, k: nat)
    requires i <= |text| && k < |LexFrom(text, i)|
    ensures InPlace(text, i, LexFrom(text, i), k)
    decreases k
  {
    var e := TokenEnd(text, i);
    var t, rest := TokenAt(text, i), LexFrom(text, e);
    if k == 0 {
      FirstInPlace(text, i, rest);
    } else {
      LexedInPlace(text, e, k - 1);
      PlaceAfter(text, i, t, rest, k - 1);
    }
  }

  lemma PlaceAfter(text: string, i: nat, t: Token, rest: seq<Token>, k: nat)
    requires k < |rest|
    ensures InPlace(text, i, [t] + rest, k + 1) <==> InPlace(text, i + |TextOf(t)|, rest, k)
  {
    assert ([t] + rest)[..k + 1] == [t] + rest[..k];
    RenderCons(t, rest[..k]);
  }

  lemma {:induction false} OnlyInPlace(text: string, i: nat, ts: seq<Token>)
    requires i <= |text| && Render(ts) == text[i..] && forall k :: 0 <= k < |ts| ==> InPlace(text, i, ts, k)
    ensures ts == LexFrom(text, i)
    decreases |ts|
  {
    if ts == [] {
    } else {
      var t, rest := ts[0], ts[1..];
      assert ts == [t] + rest && ts[..0] == [];
      assert InPlace(text, i, ts, 0);
      var e := TokenEnd(text, i);
      SuffixAfter(text, i, e, Render(rest));
      forall k | 0 <= k < |rest| ensures InPlace(text, e, rest, k) {
        PlaceAfter(text, i, t, rest, k);
      }
      OnlyInPlace(text, e, rest);
    }
  }

  lemma SuffixAfter(text: string, i: nat, e: nat, rest: string)
    requires i <= e <= |text| && text[i..] == text[i..e] + rest
    ensures rest == text[e..]
  {
    assert text[i..] == text[i..e] + text[e..];
    assert text[i..][e - i..] == text[e..] && (text[i..e] + rest)[e - i..] == rest;
  }

  /** The `k`-th token starts where those before it end. */
  ghost predicate IsTokenOf(text: string, ts: seq<Token>, k: nat)
    requires k < |ts|
  {
    IsToken(text, |Render(ts[..k])|, ts[k])
  }

  /** A cutting of the text into tokens. */
  ghost predicate IsLexing(text: string, ts: seq<Token>) {
    Render(ts) == text && forall k :: 0 <= k < |ts| ==> IsTokenOf(text, ts, k)
  }

  lemma TokenInPlace(text: string, ts: seq<Token>, k: nat)
    requires k < |ts|
    ensures IsTokenOf(text, ts, k) <==> InPlace(text, 0, ts, k)
  {
    var p := |Render(ts[..k])|;
    if p < |text| {
      TokenAtMeans(text, p);
      if IsTokenOf(text, ts, k) {
        OnlyToken(text, p, ts[k], TokenAt(text, p));
      }
    }
  }

  /** There is one cutting into tokens, and it is the one that is computed. */
  lemma LexExactly(text: string, ts: seq<Token>)
    ensures IsLexing(text, ts) <==> ts == Lex(text)
  {
    assert text[0..] == text;
    RenderLex(text, 0);
    forall k | 0 <= k < |Lex(text)| ensures IsTokenOf(text, Lex(text), k) {
      LexedInPlace(text, 0, k);
      TokenInPlace(text, Lex(text), k);
    }
    if IsLexing(text, ts) {
      forall k | 0 <= k < |ts| ensures InPlace(text, 0, ts, k) {
        assert IsTokenOf(text, ts, k);
        TokenInPlace(text, ts, k);
      }
      OnlyInPlace(text, 0, ts);
    }
  }
}
