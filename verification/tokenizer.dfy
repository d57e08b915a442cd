/** The markup tokenizer of the typing engine (parseHtmlToTokens): an HTML fragment becomes a
    flat sequence of print directives, one per text character and one per `<...>` tag. */
module Tokenizer {

  /** One print directive: a single character of text, or one whole tag with its
      literal text and whether it closes an element. */
  datatype Token = Text(ch: char) | Tag(tag: string, isClose: bool)

  /** JavaScript's `s.indexOf(c, from)`: the first position at or after `from` that
      holds `c`, or -1 when there is none. */
  function IndexOf(s: string, c: char, from: nat): (r: int)
    decreases |s| - from
    ensures r == -1 || (from <= r < |s| && s[r] == c)
  {
    if from >= |s| then -1
    else if s[from] == c then from
    else IndexOf(s, c, from + 1)
  }

  /** IndexOf finds the first occurrence: none is skipped, and -1 means there is none. */
  lemma {:induction false} IndexOfFirst(s: string, c: char, from: nat)
    ensures var r := IndexOf(s, c, from);
      r == -1 ==> forall k :: from <= k < |s| ==> s[k] != c
    ensures var r := IndexOf(s, c, from);
      r != -1 ==> forall k :: from <= k < r ==> s[k] != c
    decreases |s| - from
  {
    if from < |s| && s[from] != c {
      IndexOfFirst(s, c, from + 1);
    }
  }

  /** JavaScript's `tag.startsWith('</')`. */
  predicate IsClosingTag(tag: string) {
    |tag| >= 2 && tag[0] == '<' && tag[1] == '/'
  }

  /** A tag as the tokenizer cuts it out: from a `<` up to and including the first `>`. */
  predicate WellShapedTag(tag: string) {
    && |tag| >= 2
    && tag[0] == '<'
    && tag[|tag| - 1] == '>'
    && forall k :: 0 <= k < |tag| - 1 ==> tag[k] != '>'
  }

  /** The token that starts at position `i`: a `<` that has a `>` somewhere after it
      starts a tag running to the first such `>`; any other character, a `<` with no
      later `>` included, is a one-character text token. */
  function TokenAt(html: string, i: nat): (t: Token)
    requires i < |html|
    ensures Literal(t) == html[i..NextIndex(html, i)]
  {
    var tagEnd := IndexOf(html, '>', i);
    if html[i] == '<' && tagEnd != -1 then
      var tag := html[i..tagEnd + 1];
      Tag(tag, IsClosingTag(tag))
    else
      Text(html[i])
  }

  /** Where scanning resumes after the token at `i`: just past its `>` for a tag, at the
      next character otherwise. Each token consumes at least one character. */
  function NextIndex(html: string, i: nat): (j: nat)
    requires i < |html|
    ensures i < j <= |html|
  {
    var tagEnd := IndexOf(html, '>', i);
    if html[i] == '<' && tagEnd != -1 then tagEnd + 1 else i + 1
  }

  /** The tokens of `html` from position `i` on, one token after the other. */
  function TokenizeFrom(html: string, i: nat): seq<Token>
    decreases |html| - i
  {
    if i >= |html| then [] else [TokenAt(html, i)] + TokenizeFrom(html, NextIndex(html, i))
  }

  /** The tokens of a whole fragment. */
  function Tokenize(html: string): seq<Token> {
    TokenizeFrom(html, 0)
  }

  /** The literal text a token stands for. */
  function Literal(t: Token): string {
    match t
    case Text(c) => [c]
    case Tag(tag, _) => tag
  }

  /** The literals of a token sequence, in order. */
  function Concat(tokens: seq<Token>): string {
    if tokens == [] then [] else Literal(tokens[0]) + Concat(tokens[1..])
  }

  /** The characters of the text tokens, in order (what the typing engine prints). */
  function TextChars(tokens: seq<Token>): string {
    if tokens == [] then []
    else (if tokens[0].Text? then [tokens[0].ch] else []) + TextChars(tokens[1..])
  }

  /** IndexOf returns the position of the first `c` at or after `from`. */
  lemma {:induction false} IndexOfAt(s: string, c: char, from: nat, k: nat)
    requires from <= k < |s| && s[k] == c
    requires forall j :: from <= j < k ==> s[j] != c
    ensures IndexOf(s, c, from) == k
    decreases k - from
  {
    if from < k {
      IndexOfAt(s, c, from + 1, k);
    }
  }

  /** IndexOf returns -1 when no `c` stands at or after `from`. */
  lemma {:induction false} IndexOfNone(s: string, c: char, from: nat)
    requires forall j :: from <= j < |s| ==> s[j] != c
    ensures IndexOf(s, c, from) == -1
    decreases |s| - from
  {
    if from < |s| {
      IndexOfNone(s, c, from + 1);
    }
  }

  /** Searching `p + s` past the prefix `p` is searching `s`, shifted by `|p|`. */
  lemma {:induction false} IndexOfShift(p: string, s: string, c: char, j: nat)
    ensures IndexOf(p + s, c, |p| + j) == (if IndexOf(s, c, j) == -1 then -1 else |p| + IndexOf(s, c, j))
    decreases |s| - j
  {
    if j < |s| {
      assert (p + s)[|p| + j] == s[j];
      if s[j] != c {
        IndexOfShift(p, s, c, j + 1);
      }
    }
  }

  lemma AppendAssoc<T>(a: seq<T>, b: seq<T>, c: seq<T>)
    ensures (a + b) + c == a + (b + c)
  {
  }

  lemma SliceSplit<T>(s: seq<T>, i: nat, j: nat)
    requires i <= j <= |s|
    ensures s[i..] == s[i..j] + s[j..]
  {
  }

  lemma ConcatCons(t: Token, rest: seq<Token>)
    ensures Concat([t] + rest) == Literal(t) + Concat(rest)
  {
    assert ([t] + rest)[1..] == rest;
  }

  /** The token found at a position of `s` is the same when `s` is preceded by `p`. */
  lemma TokenAtShift(p: string, s: string, j: nat)
    requires j < |s|
    ensures TokenAt(p + s, |p| + j) == TokenAt(s, j)
    ensures NextIndex(p + s, |p| + j) == |p| + NextIndex(s, j)
  {
    var html := p + s;
    assert html[|p| + j] == s[j];
    IndexOfShift(p, s, '>', j);
    var tagEnd := IndexOf(s, '>', j);
    if s[j] == '<' && tagEnd != -1 {
      assert html[|p| + j..|p| + tagEnd + 1] == s[j..tagEnd + 1];
    }
  }

  /** Tokenizing `p + s` from the end of `p` on is tokenizing `s`: what precedes a
      position never changes the tokens found after it. */
  lemma {:induction false} TokenizeShift(p: string, s: string, j: nat)
    ensures TokenizeFrom(p + s, |p| + j) == TokenizeFrom(s, j)
    decreases |s| - j
  {
    if j < |s| {
      TokenAtShift(p, s, j);
      TokenizeShift(p, s, NextIndex(s, j));
    }
  }

  /** One step of the loop: emitting the token at `i` and moving past it keeps the tokens
      emitted so far followed by the tokens still to come unchanged. */
  lemma TokenizeStep(html: string, tokens: seq<Token>, i: nat)
    requires i < |html|
    ensures tokens + TokenizeFrom(html, i)
         == (tokens + [TokenAt(html, i)]) + TokenizeFrom(html, NextIndex(html, i))
  {
    AppendAssoc(tokens, [TokenAt(html, i)], TokenizeFrom(html, NextIndex(html, i)));
  }

  /** The loop of parseHtmlToTokens: the index `i` walks the string once, a tag moves it
      past its `>`, anything else moves it by one. */
  method ParseHtmlToTokens(html: string) returns (tokens: seq<Token>)
    ensures tokens == Tokenize(html)
  {
    tokens := [];
    var i := 0;
    while i < |html|
      invariant 0 <= i <= |html|
      invariant tokens + TokenizeFrom(html, i) == Tokenize(html)
    {
      TokenizeStep(html, tokens, i);
      if html[i] == '<' {
        var tagEnd := IndexOf(html, '>', i);
        if tagEnd != -1 {
          var tag := html[i..tagEnd + 1];
          var isClosingTag := IsClosingTag(tag);
          tokens := tokens + [Tag(tag, isClosingTag)];
          i := tagEnd + 1;
          continue;
        }
      }
      tokens := tokens + [Text(html[i])];
      i := i + 1;
    }
    assert tokens + [] == tokens;
  }

  /** Round trip: the literals of the tokens, concatenated in order, give back the input
      exactly (nothing is normalised, dropped or validated). */
  lemma {:induction false} TokenizeRoundTrip(html: string, i: nat)
    requires i <= |html|
    ensures Concat(TokenizeFrom(html, i)) == html[i..]
    decreases |html| - i
  {
    if i < |html| {
      var j := NextIndex(html, i);
      ConcatCons(TokenAt(html, i), TokenizeFrom(html, j));
      TokenizeRoundTrip(html, j);
      SliceSplit(html, i, j);
    }
  }

  /** What the tokenizer promises of one tag token. */
  predicate TagOk(t: Token)
    requires t.Tag?
  {
    WellShapedTag(t.tag) && (t.isClose <==> IsClosingTag(t.tag))
  }

  /** Every tag token runs from a `<` to the first `>` after it, and is marked closing
      exactly when its text starts with `</`. */
  lemma {:induction false} TagTokensWellShaped(html: string, i: nat)
    ensures forall t :: t in TokenizeFrom(html, i) && t.Tag? ==> TagOk(t)
    decreases |html| - i
  {
    if i < |html| {
      var t := TokenAt(html, i);
      TagTokensWellShaped(html, NextIndex(html, i));
      if t.Tag? {
        IndexOfFirst(html, '>', i);
        assert WellShapedTag(t.tag);
      }
    }
  }

  /** Totality and progress: every token consumes at least one character, so there are
      never more tokens than characters left, and characters left yield at least one. */
  lemma {:induction false} TokenCountBounded(html: string, i: nat)
    requires i <= |html|
    ensures |TokenizeFrom(html, i)| <= |html| - i
    ensures i < |html| ==> |TokenizeFrom(html, i)| > 0
    decreases |html| - i
  {
    if i < |html| {
      TokenCountBounded(html, NextIndex(html, i));
    }
  }

  /** Past the last `>` there are no tags: every character, each `<` included, is a
      text token of its own. */
  lemma {:induction false} NoCloseBracketAllText(html: string, i: nat)
    requires i <= |html|
    requires forall k :: i <= k < |html| ==> html[k] != '>'
    ensures |TokenizeFrom(html, i)| == |html| - i
    ensures forall k :: i <= k < |html| ==> TokenizeFrom(html, i)[k - i] == Text(html[k])
    decreases |html| - i
  {
    if i < |html| {
      IndexOfNone(html, '>', i);
      NoCloseBracketAllText(html, i + 1);
      var ts := TokenizeFrom(html, i);
      var rest := TokenizeFrom(html, i + 1);
      assert ts == [Text(html[i])] + rest;
      forall k | i < k < |html|
        ensures ts[k - i] == Text(html[k])
      {
        assert ts[k - i] == rest[k - (i + 1)];
      }
    }
  }

  /** An unterminated `<` degrades to an ordinary character. */
  lemma UnterminatedTagIsText(html: string, i: nat)
    requires i < |html| && html[i] == '<'
    requires forall k :: i <= k < |html| ==> html[k] != '>'
    ensures TokenizeFrom(html, i) == [Text('<')] + TokenizeFrom(html, i + 1)
  {
    IndexOfNone(html, '>', i);
  }

  /** A well-shaped tag at the front of a string is cut out as one token, whatever follows. */
  lemma TokenizeTagThen(tag: string, rest: string)
    requires WellShapedTag(tag)
    ensures Tokenize(tag + rest) == [Tag(tag, IsClosingTag(tag))] + Tokenize(rest)
  {
    var html := tag + rest;
    forall j | 0 <= j < |tag| - 1 ensures html[j] != '>' {
      assert html[j] == tag[j];
    }
    IndexOfAt(html, '>', 0, |tag| - 1);
    assert html[0..|tag|] == tag;
    TokenizeShift(tag, rest, 0);
  }

  /** A character other than `<` at the front of a string is one text token. */
  lemma TokenizeCharThen(c: char, rest: string)
    requires c != '<'
    ensures Tokenize([c] + rest) == [Text(c)] + Tokenize(rest)
  {
    TokenizeShift([c], rest, 0);
  }

  lemma EmphasisTagsWellShaped()
    ensures WellShapedTag("<em>") && !IsClosingTag("<em>")
    ensures WellShapedTag("</em>") && IsClosingTag("</em>")
  {
  }

  /** The documented example: `<em>x</em>` is an opening tag, one character, a closing tag. */
  lemma EmphasisExample()
    ensures Tokenize("<em>x</em>") == [Tag("<em>", false), Text('x'), Tag("</em>", true)]
  {
    EmphasisTagsWellShaped();
    TokenizeTagThen("</em>", "");
    TokenizeCharThen('x', "</em>");
    TokenizeTagThen("<em>", "x</em>");
    assert "</em>" + "" == "</em>";
    assert ['x'] + "</em>" == "x</em>";
    assert "<em>" + "x</em>" == "<em>x</em>";
    assert Tokenize("") == [];
  }
}
