/** Stripping the comments of a JSONC text. */
module JsoncComments {
  import opened Collections
  import opened JsoncTokens

  function WithoutComments(ts: seq<Token>): seq<Token> {
    if ts == [] then []
    else if ts[0].Comment? then WithoutComments(ts[1..])
    else [ts[0]] + WithoutComments(ts[1..])
  }

  /** The text from `i` on, without its comments. */
  function StrippedFrom(text: string, i: nat): string
    requires i <= |text|
    decreases |text| - i
  {
    if i == |text| then []
    else
      var rest := StrippedFrom(text, TokenEnd(text, i));
      if TokenAt(text, i).Comment? then rest else text[i..TokenEnd(text, i)] + rest
  }

  function Stripped(text: string): string {
    StrippedFrom(text, 0)
  }

  // ----- The loop -------------------------------------------------------------------

  /** What is left to emit from position `i` on. */
  function Left(text: string, i: nat, inString: bool): string {
    if i >= |text| then []
    else if inString then text[i..LiteralEnd(text, i)] + StrippedFrom(text, LiteralEnd(text, i))
    else StrippedFrom(text, i)
  }

  /** A literal's first character, then what its remainder leaves. */
  lemma LiteralSplits(text: string, i: nat, e: nat, rest: string)
    requires i < e <= |text|
    ensures text[i..e] + rest == [text[i]] + (text[i + 1..e] + rest)
  {
    assert text[i..e] == [text[i]] + text[i + 1..e];
    Regrouped([text[i]], text[i + 1..e], rest);
  }

  lemma LeftInLiteral(text: string, i: nat)
    requires i < |text|
    ensures if text[i] == '\\' && i + 1 < |text|
            then Left(text, i, true) == [text[i]] + ([text[i + 1]] + Left(text, i + 2, true))
            else Left(text, i, true) == [text[i]] + Left(text, i + 1, text[i] != '"')
  {
    var e := LiteralEnd(text, i);
    LiteralSplits(text, i, e, StrippedFrom(text, e));
    if text[i] == '\\' && i + 1 < |text| {
      LiteralSplits(text, i + 1, e, StrippedFrom(text, e));
    }
  }

  lemma LeftOutside(text: string, i: nat)
    requires i < |text| && !CommentAt(text, i)
    ensures Left(text, i, false) == [text[i]] + Left(text, i + 1, text[i] == '"')
  {
    var e := TokenEnd(text, i);
    LiteralSplits(text, i, e, StrippedFrom(text, e));
  }

  /** Copying a character moves it from what is left to the result. */
  lemma CopiedEscape(text: string, i: nat, result: string)
    requires i + 1 < |text| && text[i] == '\\'
    ensures (result + [text[i]] + [text[i + 1]]) + Left(text, i + 2, true) == result + Left(text, i, true)
  {
    LeftInLiteral(text, i);
    Regrouped(result, [text[i]], [text[i + 1]] + Left(text, i + 2, true));
    Regrouped(result + [text[i]], [text[i + 1]], Left(text, i + 2, true));
  }

  lemma CopiedInLiteral(text: string, i: nat, result: string)
    requires i < |text| && (text[i] == '\\' ==> i + 1 == |text|)
    ensures (result + [text[i]]) + Left(text, i + 1, text[i] != '"') == result + Left(text, i, true)
  {
    LeftInLiteral(text, i);
    Regrouped(result, [text[i]], Left(text, i + 1, text[i] != '"'));
  }

  lemma CopiedOutside(text: string, i: nat, result: string)
    requires i < |text| && !CommentAt(text, i)
    ensures (result + [text[i]]) + Left(text, i + 1, text[i] == '"') == result + Left(text, i, false)
  {
    LeftOutside(text, i);
    Regrouped(result, [text[i]], Left(text, i + 1, text[i] == '"'));
  }

  lemma LeftLineComment(text: string, i: nat)
    requires At(text, i, '/', '/')
    ensures LineEnd(text, i) == LineEnd(text, i + 2) > i
    ensures Left(text, i, false) == Left(text, LineEnd(text, i), false)
  {
    assert text[i + 1] != '\n';
  }

  lemma LeftBlockComment(text: string, i: nat)
    requires At(text, i, '/', '*')
    ensures Left(text, i, false) == Left(text, BlockEnd(text, i + 2), false)
  {
    assert CommentAt(text, i) && TokenEnd(text, i) == BlockEnd(text, i + 2);
    assert TokenAt(text, i).Comment?;
    assert StrippedFrom(text, i) == StrippedFrom(text, BlockEnd(text, i + 2));
  }

  /** Advances to the end of the line. */
  method SkipLine(text: string, start: nat) returns (i: nat)
    requires start <= |text|
    ensures i == LineEnd(text, start)
  {
    i := start;
    while i < |text| && text[i] != '\n'
      invariant start <= i <= |text| && LineEnd(text, i) == LineEnd(text, start)
    {
      i := i + 1;
    }
  }

  /** Advances past the terminator of a block comment; past the text where there is none. */
  method SkipBlock(text: string, start: nat) returns (i: nat)
    requires start <= |text|
    ensures start < i && Left(text, i, false) == Left(text, BlockEnd(text, start), false)
  {
    i := start;
    while i < |text| && !At(text, i, '*', '/')
      invariant start <= i <= |text| && BlockEnd(text, i) == BlockEnd(text, start)
    {
      i := i + 1;
    }
    i := i + 2;
  }

  /** One turn of the loop inside a literal; an escape takes two characters. */
  method CopyInLiteral(text: string, start: nat, before: string) returns (i: nat, result: string, inString: bool)
    requires start < |text|
    ensures start < i && result + Left(text, i, inString) == before + Left(text, start, true)
  {
    i, result, inString := start, before + [text[start]], true;
    if text[i] == '\\' && i + 1 < |text| {
      CopiedEscape(text, start, before);
      i := i + 1;
      result := result + [text[i]];
    } else {
      CopiedInLiteral(text, start, before);
      if text[i] == '"' {
        inString := false;
      }
    }
    i := i + 1;
  }

  /** One turn of the loop outside literals. */
  method CopyOutside(text: string, start: nat, before: string) returns (i: nat, result: string, inString: bool)
    requires start < |text|
    ensures start < i && result + Left(text, i, inString) == before + Left(text, start, false)
  {
    i, result, inString := start, before, false;
    if At(text, i, '/', '/') {
      LeftLineComment(text, i);
      i := SkipLine(text, i);
    } else if At(text, i, '/', '*') {
      LeftBlockComment(text, i);
      i := SkipBlock(text, i + 2);
    } else {
      CopiedOutside(text, i, result);
      inString := text[i] == '"';
      result := result + [text[i]];
      i := i + 1;
    }
  }

  // ----- What stripping guarantees -----------------------------------------------------

  /** `u` holds at `a` what `text` holds from `i` up to `e`. */
  ghost predicate Copied(text: string, i: nat, e: nat, u: string, a: nat) {
    i <= e <= |text| && a + e - i <= |u| && text[i..e] == u[a..a + e - i]
  }

  lemma CopiedFrom(text: string, i: nat, e: nat, u: string, a: nat, n: nat)
    requires Copied(text, i, e, u, a) && i + n <= e
    ensures Copied(text, i + n, e, u, a + n)
    ensures n > 0 ==> u[a] == text[i]
  {
    assert text[i..e][n..] == text[i + n..e];
    assert u[a..a + e - i][n..] == u[a + n..a + e - i];
    assert n > 0 ==> text[i..e][0] == u[a..a + e - i][0];
  }

  /** A copied literal ends where its copy ends, if it is closed, or if nothing follows. */
  lemma {:induction false} CopiedLiteral(text: string, i: nat, u: string, a: nat)
    requires i <= |text| && Copied(text, i, LiteralEnd(text, i), u, a)
    requires LiteralEnd(text, i) < |text| || a + LiteralEnd(text, i) - i == |u|
    ensures LiteralEnd(u, a) == a + LiteralEnd(text, i) - i
    decreases |text| - i
  {
    var e := LiteralEnd(text, i);
    if i < e {
      CopiedFrom(text, i, e, u, a, 1);
      if text[i] == '\\' && i + 1 < |text| {
        CopiedFrom(text, i, e, u, a, 2);
        CopiedLiteral(text, i + 2, u, a + 2);
      } else if text[i] != '"' {
        CopiedLiteral(text, i + 1, u, a + 1);
      }
    }
  }

  lemma SuffixSplits(u: string, a: nat, x: string, y: string)
    requires a <= |u| && u[a..] == x + y
    ensures a + |x| <= |u| && u[a..a + |x|] == x && u[a + |x|..] == y
  {
    assert u[a..a + |x|] == u[a..][..|x|] == x;
    assert u[a + |x|..] == u[a..][|x|..] == y;
  }

  lemma SameSlash(text: string, i: nat, u: string, a: nat)
    requires i < |text| && text[i] == '/' && !CommentAt(text, i) && a < |u| && u[a] == '/'
    requires if i + 1 == |text| then a + 1 == |u| else CommentAt(text, i + 1) || (a + 1 < |u| && u[a + 1] == text[i + 1])
    ensures !CommentAt(u, a)
  {}

  /** A token that is kept is still the same token before the stripped rest of the text. */
  lemma KeptTokenStands(text: string, i: nat, u: string, a: nat)
    requires i < |text| && a < |u| && !CommentAt(text, i)
    requires u[a..] == StrippedFrom(text, i)
    ensures TokenAt(u, a) == TokenAt(text, i)
    ensures u[TokenEnd(u, a)..] == StrippedFrom(text, TokenEnd(text, i))
  {
    var e := TokenEnd(text, i);
    var rest := StrippedFrom(text, e);
    var b := a + e - i;
    SuffixSplits(u, a, text[i..e], rest);
    CopiedFrom(text, i, e, u, a, 1);
    if text[i] == '"' {
      CopiedLiteral(text, i + 1, u, a + 1);
    } else if text[i] == '/' {
      if e < |text| && !CommentAt(text, e) {
        assert rest[0] == text[e] && u[b..][0] == u[b];
      }
      SameSlash(text, i, u, a);
    }
  }

  /** Stripping a text and cutting it into tokens commute: the tokens of the output are those
      of the input without its comments. So the output has no comment, and every literal that
      starts outside a comment is in it, verbatim and in order. */
  lemma {:induction false} StrippedTokensFrom(text: string, i: nat, u: string, a: nat)
    requires i <= |text| && a <= |u| && u[a..] == StrippedFrom(text, i)
    ensures LexFrom(u, a) == WithoutComments(LexFrom(text, i))
    decreases |text| - i
  {
    if i == |text| {
    } else {
      var e := TokenEnd(text, i);
      assert LexFrom(text, i)[1..] == LexFrom(text, e);
      if CommentAt(text, i) {
        StrippedTokensFrom(text, e, u, a);
      } else {
        KeptTokenStands(text, i, u, a);
        StrippedTokensFrom(text, e, u, TokenEnd(u, a));
      }
    }
  }

  lemma StrippedTokens(text: string)
    ensures Lex(Stripped(text)) == WithoutComments(Lex(text))
  {
    var u := Stripped(text);
    assert u[0..] == u;
    StrippedTokensFrom(text, 0, u, 0);
  }

  lemma {:induction false} NoCommentsLeft(ts: seq<Token>)
    ensures forall t :: t in WithoutComments(ts) <==> t in ts && !t.Comment?
    ensures WithoutComments(WithoutComments(ts)) == WithoutComments(ts)
  {
    if ts == [] {
    } else {
      NoCommentsLeft(ts[1..]);
      if !ts[0].Comment? {
        assert WithoutComments(ts) == [ts[0]] + WithoutComments(ts[1..]);
        assert WithoutComments(ts)[1..] == WithoutComments(ts[1..]);
      }
    }
  }

  /** Stripping again changes nothing. */
  lemma StrippingIsIdempotent(text: string)
    ensures Stripped(Stripped(text)) == Stripped(text)
    ensures Stripped(text) == Render(WithoutComments(Lex(text)))
  {
    var u := Stripped(text);
    StrippedTokens(text);
    StrippedTokens(u);
    NoCommentsLeft(Lex(text));
    RenderLex(u, 0);
    RenderLex(Stripped(u), 0);
    assert u[0..] == u && Stripped(u)[0..] == Stripped(u);
  }

  /** Whatever the text, its tokens but the comments are what is left. */
  method StripJsoncComments(text: string) returns (result: string)
    ensures result == Stripped(text)
    ensures forall ts :: IsLexing(text, ts) ==> result == Render(WithoutComments(ts))
  {
    result := [];
    var i: nat := 0;
    var inString := false;
    while i < |text|
      invariant result + Left(text, i, inString) == Left(text, 0, false)
      decreases |text| - i
    {
      if inString {
        i, result, inString := CopyInLiteral(text, i, result);
      } else {
        i, result, inString := CopyOutside(text, i, result);
      }
    }
    forall ts | IsLexing(text, ts) ensures result == Render(WithoutComments(ts)) {
      LexExactly(text, ts);
      StrippingIsIdempotent(text);
    }
  }
}
