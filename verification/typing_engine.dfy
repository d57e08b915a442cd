/** typeTokens: replaying a token sequence into an element, one token per step, with the
    shared cursor marking where the next node goes. Opening tags create an element and
    move the cursor into it, closing tags move the cursor out again, characters become
    text nodes in front of the cursor. */
module TypingEngine {
  import opened Tokenizer
  import opened Dom

  /** The delay between two typed characters, in milliseconds. */
  const SPEED: nat := 5

  /** The effect of one token on the cursor path. `makesElement(tag)` says whether the
      browser, parsing `tag` as markup, yields an element as its first child; when it
      does not (a comment, a stray tag, text), the opening tag has no effect. */
  function Step(fs: seq<Frame>, t: Token, makesElement: string -> bool): (r: seq<Frame>)
    requires |fs| > 0
    ensures t.Text? ==> |r| == |fs|
    ensures t.Tag? && !t.isClose ==> |r| == if makesElement(t.tag) then |fs| + 1 else |fs|
    ensures t.Tag? && t.isClose ==> |r| == if |fs| > 1 then |fs| - 1 else 1
    ensures t.Tag? && !t.isClose && !makesElement(t.tag) ==> r == fs
    ensures t.Tag? && t.isClose && |fs| == 1 ==> r == fs
  {
    match t
    case Text(c) => InsertBeforeCursor(fs, TextNode(c))
    case Tag(tag, isClose) =>
      if isClose then StepOut(fs)
      else if makesElement(tag) then EnterNew(fs, tag)
      else fs
  }

  /** The cursor path after typing all of `tokens`. */
  function Run(fs: seq<Frame>, tokens: seq<Token>, makesElement: string -> bool): (r: seq<Frame>)
    requires |fs| > 0
    ensures |r| > 0
    decreases |tokens|
  {
    if tokens == [] then fs else Run(Step(fs, tokens[0], makesElement), tokens[1..], makesElement)
  }

  /** The children an element ends up with when `html` is tokenized and typed into it
      from empty, once the cursor is removed. */
  function TypeMarkup(html: string, makesElement: string -> bool): seq<Node>
  {
    Detached(Run(RootFrames([]), Tokenize(html), makesElement))
  }

  lemma {:induction false} RunAppend(fs: seq<Frame>, a: seq<Token>, b: seq<Token>, makesElement: string -> bool)
    requires |fs| > 0
    ensures Run(fs, a + b, makesElement) == Run(Run(fs, a, makesElement), b, makesElement)
    decreases |a|
  {
    if a == [] {
      assert a + b == b;
    } else {
      assert (a + b)[0] == a[0];
      assert (a + b)[1..] == a[1..] + b;
      RunAppend(Step(fs, a[0], makesElement), a[1..], b, makesElement);
    }
  }

  /** Every step keeps the cursor at the end of each element on its path. */
  lemma StepRightSpine(fs: seq<Frame>, t: Token, makesElement: string -> bool)
    requires |fs| > 0 && RightSpine(fs)
    ensures RightSpine(Step(fs, t, makesElement))
  {
    match t
    case Text(c) => InsertKeepsRightSpine(fs, TextNode(c));
    case Tag(tag, isClose) =>
      if isClose {
        StepOutKeepsRightSpine(fs);
      } else if makesElement(tag) {
        EnterKeepsRightSpine(fs, tag);
      }
  }

  lemma {:induction false} RunRightSpine(fs: seq<Frame>, tokens: seq<Token>, makesElement: string -> bool)
    requires |fs| > 0 && RightSpine(fs)
    ensures RightSpine(Run(fs, tokens, makesElement))
    decreases |tokens|
  {
    if tokens != [] {
      StepRightSpine(fs, tokens[0], makesElement);
      RunRightSpine(Step(fs, tokens[0], makesElement), tokens[1..], makesElement);
    }
  }

  /** One step adds the token's character, if it has one, at the end of the text. */
  lemma StepText(fs: seq<Frame>, t: Token, makesElement: string -> bool)
    requires |fs| > 0 && RightSpine(fs)
    ensures TextOf(Detached(Step(fs, t, makesElement))) ==
            TextOf(Detached(fs)) + (if t.Text? then [t.ch] else [])
  {
    match t
    case Text(c) =>
      PlugInsert(fs, TextNode(c), []);
      TextOfPlug(fs, [TextNode(c)]);
      assert [TextNode(c)] + [] == [TextNode(c)];
      assert TextOf([TextNode(c)]) == [c];
    case Tag(tag, isClose) =>
      if isClose {
        if |fs| > 1 {
          PlugStepOut(fs);
        }
      } else if makesElement(tag) {
        PlugEnter(fs, tag, []);
        TextOfPlug(fs, [Element(tag, [])]);
        TextOfElement(tag, []);
      }
  }

  /** The text of the element after typing is the text it had followed by the typed
      characters, in the order of the tokens, whatever the tags are: unbalanced or
      unknown tags change the structure, never the text. */
  lemma {:induction false} TypedTextInOrder(fs: seq<Frame>, tokens: seq<Token>, makesElement: string -> bool)
    requires |fs| > 0 && RightSpine(fs)
    ensures TextOf(Detached(Run(fs, tokens, makesElement))) == TextOf(Detached(fs)) + TextChars(tokens)
    decreases |tokens|
  {
    if tokens != [] {
      var t := tokens[0];
      var fs' := Step(fs, t, makesElement);
      var x: string := if t.Text? then [t.ch] else [];
      var shown := TextOf(Detached(fs));
      var later := TextChars(tokens[1..]);
      assert Run(fs, tokens, makesElement) == Run(fs', tokens[1..], makesElement);
      assert TextChars(tokens) == x + later;
      assert TextOf(Detached(fs')) == shown + x by {
        StepText(fs, t, makesElement);
      }
      assert TextOf(Detached(Run(fs', tokens[1..], makesElement))) == TextOf(Detached(fs')) + later by {
        StepRightSpine(fs, t, makesElement);
        TypedTextInOrder(fs', tokens[1..], makesElement);
      }
      AppendAssoc(shown, x, later);
    } else {
      assert TextChars(tokens) == [];
    }
  }

  lemma StepCursorFree(fs: seq<Frame>, t: Token, makesElement: string -> bool)
    requires |fs| > 0 && CursorFree(fs)
    ensures CursorFree(Step(fs, t, makesElement))
  {
    match t
    case Text(c) => InsertKeepsCursorFree(fs, TextNode(c));
    case Tag(tag, isClose) =>
      if isClose {
        StepOutKeepsCursorFree(fs);
      } else if makesElement(tag) {
        EnterKeepsCursorFree(fs, tag);
      }
  }

  lemma {:induction false} RunCursorFree(fs: seq<Frame>, tokens: seq<Token>, makesElement: string -> bool)
    requires |fs| > 0 && CursorFree(fs)
    ensures CursorFree(Run(fs, tokens, makesElement))
    decreases |tokens|
  {
    if tokens != [] {
      StepCursorFree(fs, tokens[0], makesElement);
      RunCursorFree(Step(fs, tokens[0], makesElement), tokens[1..], makesElement);
    }
  }

  /** Removing the cursor at any point of the typing (`cursor.remove()`) leaves exactly
      the nodes typed so far: the cursor is the only node taken away. */
  lemma TypedCursorRemoval(children: seq<Node>, tokens: seq<Token>, makesElement: string -> bool)
    requires !HasCursor(children)
    ensures StripCursor(Content(Run(RootFrames(children), tokens, makesElement)))
         == Detached(Run(RootFrames(children), tokens, makesElement))
  {
    assert CursorFree(RootFrames(children)) by {
      assert !HasCursor([]);
    }
    RunCursorFree(RootFrames(children), tokens, makesElement);
    CursorRemoval(Run(RootFrames(children), tokens, makesElement));
  }

  /** A forest that typing can rebuild exactly: no cursor, characters the serializer
      writes as themselves, elements whose opening tag is a well-shaped, non-closing tag
      that the browser turns into an element. */
  predicate WellFormed(ns: seq<Node>, makesElement: string -> bool)
    decreases ns
  {
    forall k :: 0 <= k < |ns| ==> WellFormedNode(ns[k], makesElement)
  }

  predicate WellFormedNode(n: Node, makesElement: string -> bool)
    decreases n
  {
    match n
    case TextNode(c) => PlainChar(c)
    case Element(tag, kids) =>
      WellShapedTag(tag) && !IsClosingTag(tag) && makesElement(tag) && WellFormed(kids, makesElement)
    case CursorNode => false
  }

  /** The tokens that describe a forest: each element as its opening tag, its children
      and its end tag. */
  function TokensOf(ns: seq<Node>): seq<Token>
    decreases ns
  {
    if ns == [] then [] else NodeTokens(ns[0]) + TokensOf(ns[1..])
  }

  function NodeTokens(n: Node): seq<Token>
    decreases n
  {
    match n
    case TextNode(c) => [Text(c)]
    case Element(tag, kids) => [Tag(tag, false)] + TokensOf(kids) + [Tag(EndTag(tag), true)]
    case CursorNode => []
  }

  /** Typing the tokens of a well-formed forest places exactly that forest before the
      cursor and leaves the cursor where it was. */
  lemma {:induction false} TypingRebuildsForest(fs: seq<Frame>, ns: seq<Node>, makesElement: string -> bool)
    requires |fs| > 0 && WellFormed(ns, makesElement)
    ensures Run(fs, TokensOf(ns), makesElement) == AppendAtCursor(fs, ns)
    decreases ns
  {
    if ns == [] {
      assert AppendAtCursor(fs, ns) == fs by {
        var f := fs[|fs| - 1];
        assert f.before + [] == f.before;
        assert fs[..|fs| - 1] + [f] == fs;
      }
    } else {
      var n := ns[0];
      var rest := ns[1..];
      var mid := AppendAtCursor(fs, [n]);
      assert TokensOf(ns) == NodeTokens(n) + TokensOf(rest);
      assert Run(fs, NodeTokens(n) + TokensOf(rest), makesElement)
          == Run(Run(fs, NodeTokens(n), makesElement), TokensOf(rest), makesElement) by {
        RunAppend(fs, NodeTokens(n), TokensOf(rest), makesElement);
      }
      assert Run(fs, NodeTokens(n), makesElement) == mid by {
        assert WellFormedNode(n, makesElement);
        TypingRebuildsNode(fs, n, makesElement);
      }
      assert Run(mid, TokensOf(rest), makesElement) == AppendAtCursor(mid, rest) by {
        assert WellFormed(rest, makesElement) by {
          forall k | 0 <= k < |rest| ensures WellFormedNode(rest[k], makesElement) {
            assert rest[k] == ns[k + 1];
          }
        }
        TypingRebuildsForest(mid, rest, makesElement);
      }
      assert AppendAtCursor(mid, rest) == AppendAtCursor(fs, ns) by {
        AppendAtCursorTwice(fs, [n], rest);
        assert [n] + rest == ns;
      }
    }
  }

  lemma {:induction false} TypingRebuildsNode(fs: seq<Frame>, n: Node, makesElement: string -> bool)
    requires |fs| > 0 && WellFormedNode(n, makesElement)
    ensures Run(fs, NodeTokens(n), makesElement) == AppendAtCursor(fs, [n])
    decreases n
  {
    match n
    case TextNode(c) =>
      assert Run(fs, [Text(c)], makesElement) == Run(InsertBeforeCursor(fs, TextNode(c)), [], makesElement);
    case Element(tag, kids) =>
      var open := [Tag(tag, false)];
      var close := [Tag(EndTag(tag), true)];
      var inner := EnterNew(fs, tag);
      var full := AppendAtCursor(inner, kids);
      assert NodeTokens(n) == open + (TokensOf(kids) + close);
      assert Run(fs, open + (TokensOf(kids) + close), makesElement)
          == Run(Run(fs, open, makesElement), TokensOf(kids) + close, makesElement) by {
        RunAppend(fs, open, TokensOf(kids) + close, makesElement);
      }
      assert Run(fs, open, makesElement) == inner by {
        RunOpenTag(fs, tag, makesElement);
      }
      assert Run(inner, TokensOf(kids) + close, makesElement)
          == Run(Run(inner, TokensOf(kids), makesElement), close, makesElement) by {
        RunAppend(inner, TokensOf(kids), close, makesElement);
      }
      assert Run(inner, TokensOf(kids), makesElement) == full by {
        TypingRebuildsForest(inner, kids, makesElement);
      }
      RunCloseTag(full, EndTag(tag), makesElement);
      StepOutEntered(fs, tag, kids);
  }

  lemma RunOpenTag(fs: seq<Frame>, tag: string, makesElement: string -> bool)
    requires |fs| > 0 && makesElement(tag)
    ensures Run(fs, [Tag(tag, false)], makesElement) == EnterNew(fs, tag)
  {
    assert Run(fs, [Tag(tag, false)], makesElement) == Run(EnterNew(fs, tag), [], makesElement);
  }

  lemma RunCloseTag(fs: seq<Frame>, tag: string, makesElement: string -> bool)
    requires |fs| > 0
    ensures Run(fs, [Tag(tag, true)], makesElement) == StepOut(fs)
  {
    assert Run(fs, [Tag(tag, true)], makesElement) == Run(StepOut(fs), [], makesElement);
  }

  /** Entering a new element, placing nodes in it and leaving it places the element. */
  lemma StepOutEntered(fs: seq<Frame>, tag: string, kids: seq<Node>)
    requires |fs| > 0
    ensures StepOut(AppendAtCursor(EnterNew(fs, tag), kids)) == AppendAtCursor(fs, [Element(tag, kids)])
  {
    var inner := EnterNew(fs, tag);
    var full := AppendAtCursor(inner, kids);
    assert full == fs + [Frame(tag, kids, [])] by {
      assert inner[..|inner| - 1] == fs;
      assert [] + kids == kids;
    }
    assert full[..|full| - 1] == fs;
    assert kids + [] == kids;
  }

  /** Typing the markup of a well-formed forest into an empty element rebuilds exactly
      that forest: tokenizing the serialization gives the forest's tokens, and typing
      those tokens places the forest before the cursor. */
  lemma MarkupRoundTrip(ns: seq<Node>, makesElement: string -> bool)
    requires WellFormed(ns, makesElement)
    ensures TypeMarkup(Serialize(ns), makesElement) == ns
  {
    var fs := RootFrames([]);
    assert Tokenize(Serialize(ns)) == TokensOf(ns) by {
      TokenizeSerialized(ns, [], makesElement);
      assert Serialize(ns) + [] == Serialize(ns);
      assert TokensOf(ns) + [] == TokensOf(ns);
    }
    assert Run(fs, TokensOf(ns), makesElement) == AppendAtCursor(fs, ns) by {
      TypingRebuildsForest(fs, ns, makesElement);
    }
    assert Detached(AppendAtCursor(fs, ns)) == ns by {
      AppendAtCursorPlug(fs, ns, []);
      assert [] + ns + [] == ns;
    }
  }

  lemma StrongTagWellFormed()
    ensures WellShapedTag("<strong>") && !IsClosingTag("<strong>")
    ensures EndTag("<strong>") == "</strong>"
  {
    assert NameFrom("<strong>", 7) == [];
    assert TagName("<strong>") == "strong";
  }

  /** The forest `a<strong>b</strong>c` should become. */
  function NestingForest(): seq<Node>
  {
    [TextNode('a'), Element("<strong>", [TextNode('b')]), TextNode('c')]
  }

  lemma NestingForestWellFormed(makesElement: string -> bool)
    requires makesElement("<strong>")
    ensures WellFormed(NestingForest(), makesElement)
  {
    StrongTagWellFormed();
    assert WellFormed([TextNode('b')], makesElement);
    assert WellFormedNode(Element("<strong>", [TextNode('b')]), makesElement);
  }

  lemma StrongElementMarkup()
    ensures SerializeNode(Element("<strong>", [TextNode('b')])) == "<strong>b</strong>"
  {
    assert Serialize([TextNode('b')]) == "b" by {
      assert [TextNode('b')][1..] == [];
    }
    StrongTagWellFormed();
    assert "<strong>" + "b" + "</strong>" == "<strong>b</strong>";
  }

  lemma NestingForestMarkup()
    ensures Serialize(NestingForest()) == "a<strong>b</strong>c"
  {
    NestingForestSplit();
    NestingTailMarkup();
    LeadingCharMarkup();
  }

  lemma NestingForestSplit()
    ensures Serialize(NestingForest())
         == Escape('a') + Serialize([Element("<strong>", [TextNode('b')]), TextNode('c')])
  {
    assert NestingForest()[1..] == [Element("<strong>", [TextNode('b')]), TextNode('c')];
  }

  lemma LeadingCharMarkup()
    ensures Escape('a') + "<strong>b</strong>c" == "a<strong>b</strong>c"
  {
  }

  lemma NestingTailMarkup()
    ensures Serialize([Element("<strong>", [TextNode('b')]), TextNode('c')]) == "<strong>b</strong>c"
  {
    var tail := [Element("<strong>", [TextNode('b')]), TextNode('c')];
    assert Serialize([TextNode('c')]) == "c" by {
      assert [TextNode('c')][1..] == [];
    }
    StrongElementMarkup();
    assert tail[1..] == [TextNode('c')];
    assert "<strong>b</strong>" + "c" == "<strong>b</strong>c";
  }

  /** Nesting is preserved: typing `a<strong>b</strong>c` into an empty element puts
      the `b` inside a `strong` element between the `a` and the `c`. */
  lemma NestingExample(makesElement: string -> bool)
    requires makesElement("<strong>")
    ensures TypeMarkup("a<strong>b</strong>c", makesElement)
         == [TextNode('a'), Element("<strong>", [TextNode('b')]), TextNode('c')]
  {
    NestingForestWellFormed(makesElement);
    NestingForestMarkup();
    MarkupRoundTrip(NestingForest(), makesElement);
  }

  /** While an element is being typed, everything typed since its opening tag is inside
      it, together with the cursor: after the opening tag and the tokens of its first `j`
      children, the element holds exactly those children followed by the cursor. */
  lemma TypingInsideElement(fs: seq<Frame>, tag: string, kids: seq<Node>, j: nat, makesElement: string -> bool)
    requires |fs| > 0 && WellFormedNode(Element(tag, kids), makesElement) && j <= |kids|
    ensures Content(Run(fs, [Tag(tag, false)] + TokensOf(kids[..j]), makesElement))
         == Plug(fs, [Element(tag, kids[..j] + [CursorNode])])
  {
    var inner := EnterNew(fs, tag);
    assert Run(fs, [Tag(tag, false)], makesElement) == inner by {
      assert [Tag(tag, false)][1..] == [];
    }
    RunAppend(fs, [Tag(tag, false)], TokensOf(kids[..j]), makesElement);
    assert WellFormed(kids[..j], makesElement) by {
      forall k | 0 <= k < j ensures WellFormedNode(kids[..j][k], makesElement) {
        assert kids[..j][k] == kids[k];
      }
    }
    TypingRebuildsForest(inner, kids[..j], makesElement);
    AppendAtCursorPlug(inner, kids[..j], [CursorNode]);
    PlugEnter(fs, tag, kids[..j] + [CursorNode]);
  }

  /** A character, a tag and a character at the front of a string are three tokens. */
  lemma TokenizeCharTagChar(a: char, tag: string, b: char, rest: string)
    requires a != '<' && b != '<' && WellShapedTag(tag)
    ensures Tokenize([a] + (tag + ([b] + rest)))
         == [Text(a)] + ([Tag(tag, IsClosingTag(tag))] + ([Text(b)] + Tokenize(rest)))
  {
    var tail := [Text(b)] + Tokenize(rest);
    assert Tokenize([b] + rest) == tail by {
      TokenizeCharThen(b, rest);
    }
    assert Tokenize(tag + ([b] + rest)) == [Tag(tag, IsClosingTag(tag))] + tail by {
      TokenizeTagThen(tag, [b] + rest);
    }
    TokenizeCharThen(a, tag + ([b] + rest));
  }

  /** Typing a character and then an opening tag into an empty element leaves the
      cursor alone inside the new element, after the character. */
  lemma TypingIntoNewElement(a: char, tag: string, makesElement: string -> bool)
    requires makesElement(tag)
    ensures Content(Run(RootFrames([]), [Text(a), Tag(tag, false)], makesElement))
         == [TextNode(a), Element(tag, [CursorNode])]
  {
    var root := RootFrames([]);
    var afterA := AppendAtCursor(root, [TextNode(a)]);
    assert Run(root, [Text(a), Tag(tag, false)], makesElement) == EnterNew(afterA, tag) by {
      var ts := [Text(a), Tag(tag, false)];
      assert ts[0] == Text(a) && ts[1..] == [Tag(tag, false)];
      assert Step(root, Text(a), makesElement) == afterA;
      assert Step(afterA, Tag(tag, false), makesElement) == EnterNew(afterA, tag);
      assert [Tag(tag, false)][1..] == [];
      assert Run(EnterNew(afterA, tag), [], makesElement) == EnterNew(afterA, tag);
    }
    PlugEnter(afterA, tag, [CursorNode]);
    AppendAtCursorPlug(root, [TextNode(a)], [Element(tag, [CursorNode])]);
  }

  /** A character typed after the opening tag goes inside the new element, in front
      of the cursor. */
  lemma TypingInsideNewElement(a: char, tag: string, b: char, makesElement: string -> bool)
    requires makesElement(tag)
    ensures Content(Run(RootFrames([]), [Text(a), Tag(tag, false), Text(b)], makesElement))
         == [TextNode(a), Element(tag, [TextNode(b), CursorNode])]
    ensures Detached(Run(RootFrames([]), [Text(a), Tag(tag, false), Text(b)], makesElement))
         == [TextNode(a), Element(tag, [TextNode(b)])]
  {
    var root := RootFrames([]);
    var afterA := AppendAtCursor(root, [TextNode(a)]);
    var inner := EnterNew(afterA, tag);
    var done := AppendAtCursor(inner, [TextNode(b)]);
    assert Run(inner, [Text(b)], makesElement) == done by {
      assert [Text(b)][1..] == [];
      assert Step(inner, Text(b), makesElement) == done;
    }
    assert Run(afterA, [Tag(tag, false), Text(b)], makesElement) == done by {
      assert [Tag(tag, false), Text(b)][1..] == [Text(b)];
      assert Step(afterA, Tag(tag, false), makesElement) == inner;
    }
    assert Run(root, [Text(a), Tag(tag, false), Text(b)], makesElement) == done by {
      assert [Text(a), Tag(tag, false), Text(b)][1..] == [Tag(tag, false), Text(b)];
      assert Step(root, Text(a), makesElement) == afterA;
    }
    forall h: seq<Node> ensures Plug(done, h) == [TextNode(a), Element(tag, [TextNode(b)] + h)] {
      AppendAtCursorPlug(inner, [TextNode(b)], h);
      PlugEnter(afterA, tag, [TextNode(b)] + h);
      AppendAtCursorPlug(root, [TextNode(a)], [Element(tag, [TextNode(b)] + h)]);
    }
    assert [TextNode(b)] + [CursorNode] == [TextNode(b), CursorNode];
    assert [TextNode(b)] + [] == [TextNode(b)];
  }

  /** The first three tokens of `a<strong>b</strong>c`. */
  lemma NestingTokens(makesElement: string -> bool)
    requires makesElement("<strong>")
    ensures |Tokenize("a<strong>b</strong>c")| >= 3
    ensures Tokenize("a<strong>b</strong>c")[..3] == [Text('a'), Tag("<strong>", false), Text('b')]
  {
    var ns := NestingForest();
    assert Tokenize("a<strong>b</strong>c") == TokensOf(ns) by {
      NestingForestWellFormed(makesElement);
      NestingForestMarkup();
      TokenizeSerialized(ns, [], makesElement);
      assert Serialize(ns) + [] == Serialize(ns);
      assert TokensOf(ns) + [] == TokensOf(ns);
    }
    assert ns == [TextNode('a'), Element("<strong>", [TextNode('b')])] + [TextNode('c')];
    LeadingTokens('a', "<strong>", 'b', [TextNode('c')]);
  }

  /** The tokens of a forest that starts with a character and an element holding one
      character begin with those three tokens. */
  lemma LeadingTokens(a: char, tag: string, b: char, rest: seq<Node>)
    ensures |TokensOf([TextNode(a), Element(tag, [TextNode(b)])] + rest)| >= 3
    ensures TokensOf([TextNode(a), Element(tag, [TextNode(b)])] + rest)[..3]
         == [Text(a), Tag(tag, false), Text(b)]
  {
    var ns := [TextNode(a), Element(tag, [TextNode(b)])] + rest;
    var strong := Element(tag, [TextNode(b)]);
    assert TokensOf(ns) == [Text(a)] + TokensOf(ns[1..]) by {
      assert NodeTokens(ns[0]) == [Text(a)];
    }
    assert TokensOf(ns[1..]) == NodeTokens(strong) + TokensOf(ns[2..]) by {
      assert ns[1..][0] == strong && ns[1..][1..] == ns[2..];
    }
    assert NodeTokens(strong) == [Tag(tag, false), Text(b), Tag(EndTag(tag), true)] by {
      assert TokensOf([TextNode(b)]) == [Text(b)] by {
        assert [TextNode(b)][1..] == [];
      }
    }
  }

  /** Text inside `<strong>` is already inside the `strong` element while it is typed:
      after the opening tag, and again after the `b`, the cursor and everything typed
      since the tag are children of the new element. */
  lemma NestingWhileTyping(makesElement: string -> bool)
    requires makesElement("<strong>")
    ensures var tokens := Tokenize("a<strong>b</strong>c");
      |tokens| >= 3 &&
      Content(Run(RootFrames([]), tokens[..2], makesElement))
        == [TextNode('a'), Element("<strong>", [CursorNode])] &&
      Content(Run(RootFrames([]), tokens[..3], makesElement))
        == [TextNode('a'), Element("<strong>", [TextNode('b'), CursorNode])]
  {
    NestingTokens(makesElement);
    TypingFirstTokens(Tokenize("a<strong>b</strong>c"), 'a', "<strong>", 'b', makesElement);
  }

  /** Typing a character, an opening tag and a character, read off the first three
      tokens of any token sequence that starts with them. */
  lemma TypingFirstTokens(tokens: seq<Token>, a: char, tag: string, b: char, makesElement: string -> bool)
    requires makesElement(tag)
    requires |tokens| >= 3 && tokens[..3] == [Text(a), Tag(tag, false), Text(b)]
    ensures Content(Run(RootFrames([]), tokens[..2], makesElement))
         == [TextNode(a), Element(tag, [CursorNode])]
    ensures Content(Run(RootFrames([]), tokens[..3], makesElement))
         == [TextNode(a), Element(tag, [TextNode(b), CursorNode])]
  {
    assert tokens[..2] == [Text(a), Tag(tag, false)] by {
      assert tokens[..2] == tokens[..3][..2];
    }
    TypingIntoNewElement(a, tag, makesElement);
    TypingInsideNewElement(a, tag, b, makesElement);
  }

  /** The tokenizer reads a void element's tag as an opening tag with no end tag to
      follow, so the text after `<br>` is typed inside the `br` element. */
  lemma VoidElementSwallowsText(makesElement: string -> bool)
    requires makesElement("<br>")
    ensures TypeMarkup("a<br>b", makesElement) == [TextNode('a'), Element("<br>", [TextNode('b')])]
  {
    var typed := [Text('a'), Tag("<br>", false), Text('b')];
    assert Tokenize("a<br>b") == typed by {
      assert WellShapedTag("<br>") && !IsClosingTag("<br>");
      TokenizeCharTagChar('a', "<br>", 'b', "");
      assert ['a'] + ("<br>" + (['b'] + "")) == "a<br>b";
      assert Tokenize("") == [];
    }
    TypingInsideNewElement('a', "<br>", 'b', makesElement);
  }

  /** A void element holds the text typed after it only up to the next closing tag.
      That closing tag, meant for the enclosing element, steps out of the void element
      instead, so what follows stays inside the enclosing element, one level deeper than
      the markup says: `<b>x<br>y</b>z` types `z` inside `b`. */
  lemma VoidThenClose(outer: string, void: string, close: string, x: char, y: char, z: char,
                      makesElement: string -> bool)
    requires makesElement(outer) && makesElement(void)
    ensures Detached(Run(RootFrames([]),
              [Tag(outer, false), Text(x), Tag(void, false), Text(y), Tag(close, true), Text(z)], makesElement))
         == [Element(outer, [TextNode(x), Element(void, [TextNode(y)]), TextNode(z)])]
  {
    var ts := [Tag(outer, false), Text(x), Tag(void, false), Text(y), Tag(close, true), Text(z)];
    var done := [Frame("", [], []), Frame(outer, [TextNode(x), Element(void, [TextNode(y)]), TextNode(z)], [])];
    assert ts == [Tag(outer, false), Text(x), Tag(void, false)] + [Text(y), Tag(close, true), Text(z)];
    RunAppend(RootFrames([]), [Tag(outer, false), Text(x), Tag(void, false)], [Text(y), Tag(close, true), Text(z)], makesElement);
    OpenOuterThenVoid(outer, void, x, makesElement);
    TypeInVoidThenClose(outer, void, close, x, y, z, makesElement);
    assert Detached(done) == [Element(outer, [TextNode(x), Element(void, [TextNode(y)]), TextNode(z)])] by {
      var kids := [TextNode(x), Element(void, [TextNode(y)]), TextNode(z)];
      var f := Frame(outer, kids, []);
      PlugLast([Frame("", [], [])], f, f, [], []);
      PlugLast([], Frame("", [], []), Frame("", [], []), [Element(outer, kids + [] + [])], [Element(outer, kids + [] + [])]);
      assert kids + [] + [] == kids;
      assert [] + [Element(outer, kids)] + [] == [Element(outer, kids)];
      assert done == [Frame("", [], [])] + [f];
    }
  }

  /** The markup of an element holding a character, a void element and a character, such
      as `<b>x<br>y</b>z`, is typed with the last character inside the outer element
      (`z` inside `b`): the end tag leaves the void element, not the outer one. */
  lemma VoidThenCloseMarkup(outer: string, void: string, close: string, x: char, y: char, z: char,
                            makesElement: string -> bool)
    requires WellShapedTag(outer) && !IsClosingTag(outer) && makesElement(outer)
    requires WellShapedTag(void) && !IsClosingTag(void) && makesElement(void)
    requires WellShapedTag(close) && IsClosingTag(close)
    requires x != '<' && y != '<' && z != '<'
    ensures TypeMarkup(outer + ([x] + (void + ([y] + (close + [z])))), makesElement)
         == [Element(outer, [TextNode(x), Element(void, [TextNode(y)]), TextNode(z)])]
  {
    assert Tokenize(close + [z]) == [Tag(close, true), Text(z)] by {
      TokenizeCharThen(z, []);
      assert [z] + [] == [z];
      assert Tokenize([]) == [];
      TokenizeTagThen(close, [z]);
    }
    var markup := outer + ([x] + (void + ([y] + (close + [z]))));
    var tokens := [Tag(outer, false), Text(x), Tag(void, false), Text(y), Tag(close, true), Text(z)];
    assert Tokenize(markup) == tokens by {
      TokenizeCharTagChar(x, void, y, close + [z]);
      TokenizeTagThen(outer, [x] + (void + ([y] + (close + [z]))));
      assert [Tag(outer, false)] + ([Text(x)] + ([Tag(void, false)] + ([Text(y)] + [Tag(close, true), Text(z)])))
          == tokens;
    }
    VoidThenClose(outer, void, close, x, y, z, makesElement);
  }

  lemma OpenOuterThenVoid(outer: string, void: string, x: char, makesElement: string -> bool)
    requires makesElement(outer) && makesElement(void)
    ensures Run(RootFrames([]), [Tag(outer, false), Text(x), Tag(void, false)], makesElement)
         == [Frame("", [], []), Frame(outer, [TextNode(x)], []), Frame(void, [], [])]
  {
    var top := Frame("", [], []);
    var ts := [Tag(outer, false), Text(x), Tag(void, false)];
    var f1 := [top] + [Frame(outer, [], [])];
    var f2 := [top] + [Frame(outer, [TextNode(x)], [])];
    var f3 := [top, Frame(outer, [TextNode(x)], [])] + [Frame(void, [], [])];
    assert Run(f2, ts[2..], makesElement) == f3 by {
      assert ts[2..][1..] == [];
      assert Step(f2, Tag(void, false), makesElement) == f3;
    }
    assert Run(f1, ts[1..], makesElement) == f3 by {
      assert ts[1..][1..] == ts[2..];
      AppendAtLast([top], Frame(outer, [], []), [TextNode(x)]);
      assert [] + [TextNode(x)] == [TextNode(x)];
    }
    assert Step(RootFrames([]), Tag(outer, false), makesElement) == f1;
  }

  lemma TypeInVoidThenClose(outer: string, void: string, close: string, x: char, y: char, z: char,
                            makesElement: string -> bool)
    ensures Run([Frame("", [], []), Frame(outer, [TextNode(x)], []), Frame(void, [], [])],
                [Text(y), Tag(close, true), Text(z)], makesElement)
         == [Frame("", [], []), Frame(outer, [TextNode(x), Element(void, [TextNode(y)]), TextNode(z)], [])]
  {
    var top := Frame("", [], []);
    var x1, inVoid, z1 := TextNode(x), Element(void, [TextNode(y)]), TextNode(z);
    var ts := [Text(y), Tag(close, true), Text(z)];
    var f0 := [top, Frame(outer, [x1], [])] + [Frame(void, [], [])];
    var f1 := [top, Frame(outer, [x1], [])] + [Frame(void, [TextNode(y)], [])];
    var f2 := [top] + [Frame(outer, [x1, inVoid], [])];
    var f3 := [top] + [Frame(outer, [x1, inVoid, z1], [])];
    assert Run(f2, ts[2..], makesElement) == f3 by {
      assert ts[2..][1..] == [];
      AppendAtLast([top], Frame(outer, [x1, inVoid], []), [z1]);
      assert [x1, inVoid] + [z1] == [x1, inVoid, z1];
    }
    assert Run(f1, ts[1..], makesElement) == f3 by {
      assert ts[1..][1..] == ts[2..];
      assert f1 == [top] + [Frame(outer, [x1], []), Frame(void, [TextNode(y)], [])];
      StepOutLast([top], Frame(outer, [x1], []), Frame(void, [TextNode(y)], []));
      assert [TextNode(y)] + [] == [TextNode(y)];
      assert [x1] + [inVoid] == [x1, inVoid];
    }
    assert Step(f0, Text(y), makesElement) == f1 by {
      AppendAtLast([top, Frame(outer, [x1], [])], Frame(void, [], []), [TextNode(y)]);
      assert [] + [TextNode(y)] == [TextNode(y)];
    }
    assert Run(f0, ts, makesElement) == Run(f1, ts[1..], makesElement) by {
      assert ts[0] == Text(y);
    }
    assert f0 == [top, Frame(outer, [x1], []), Frame(void, [], [])];
  }

  lemma AppendAtLast(ps: seq<Frame>, f: Frame, ns: seq<Node>)
    ensures AppendAtCursor(ps + [f], ns) == ps + [Frame(f.tag, f.before + ns, f.after)]
  {
    assert (ps + [f])[..|ps|] == ps;
  }

  lemma StepOutLast(ps: seq<Frame>, p: Frame, f: Frame)
    ensures StepOut(ps + [p, f]) == ps + [Frame(p.tag, p.before + [Element(f.tag, f.before + f.after)], p.after)]
  {
    var fs := ps + [p, f];
    assert fs[..|fs| - 1] == ps + [p];
    assert (ps + [p])[..|ps|] == ps;
  }

  /** The end tag written for a well-shaped opening tag is a well-shaped closing tag. */
  lemma EndTagWellShaped(tag: string)
    ensures WellShapedTag(EndTag(tag)) && IsClosingTag(EndTag(tag))
  {
    var e := EndTag(tag);
    var name := TagName(tag);
    forall k | 0 <= k < |e| - 1 ensures e[k] != '>' {
      if k >= 2 {
        assert e[k] == name[k - 2];
      }
    }
  }

  /** Tokenizing the markup of a well-formed forest, followed by anything, yields the
      forest's tokens followed by the tokens of what follows. */
  lemma {:induction false} TokenizeSerialized(ns: seq<Node>, rest: string, makesElement: string -> bool)
    requires WellFormed(ns, makesElement)
    ensures Tokenize(Serialize(ns) + rest) == TokensOf(ns) + Tokenize(rest)
    decreases ns
  {
    if ns == [] {
      assert Serialize(ns) + rest == rest;
      assert TokensOf(ns) + Tokenize(rest) == Tokenize(rest);
    } else {
      var n := ns[0];
      var tail := ns[1..];
      assert Serialize(ns) + rest == SerializeNode(n) + (Serialize(tail) + rest) by {
        AppendAssoc(SerializeNode(n), Serialize(tail), rest);
      }
      assert Tokenize(SerializeNode(n) + (Serialize(tail) + rest))
          == NodeTokens(n) + Tokenize(Serialize(tail) + rest) by {
        assert WellFormedNode(n, makesElement);
        TokenizeSerializedNode(n, Serialize(tail) + rest, makesElement);
      }
      assert Tokenize(Serialize(tail) + rest) == TokensOf(tail) + Tokenize(rest) by {
        assert WellFormed(tail, makesElement) by {
          forall k | 0 <= k < |tail| ensures WellFormedNode(tail[k], makesElement) {
            assert tail[k] == ns[k + 1];
          }
        }
        TokenizeSerialized(tail, rest, makesElement);
      }
      assert TokensOf(ns) == NodeTokens(n) + TokensOf(tail);
      AppendAssoc(NodeTokens(n), TokensOf(tail), Tokenize(rest));
    }
  }

  lemma {:induction false} TokenizeSerializedNode(n: Node, rest: string, makesElement: string -> bool)
    requires WellFormedNode(n, makesElement)
    ensures Tokenize(SerializeNode(n) + rest) == NodeTokens(n) + Tokenize(rest)
    decreases n
  {
    match n
    case TextNode(c) =>
      assert Escape(c) == [c];
      TokenizeCharThen(c, rest);
    case Element(tag, kids) =>
      var end := EndTag(tag);
      var inner := Serialize(kids);
      assert SerializeNode(n) + rest == tag + (inner + (end + rest)) by {
        AppendAssoc(tag + inner, end, rest);
        AppendAssoc(tag, inner, end + rest);
      }
      assert Tokenize(tag + (inner + (end + rest)))
          == [Tag(tag, false)] + Tokenize(inner + (end + rest)) by {
        TokenizeTagThen(tag, inner + (end + rest));
      }
      assert Tokenize(inner + (end + rest)) == TokensOf(kids) + Tokenize(end + rest) by {
        TokenizeSerialized(kids, end + rest, makesElement);
      }
      assert Tokenize(end + rest) == [Tag(end, true)] + Tokenize(rest) by {
        EndTagWellShaped(tag);
        TokenizeTagThen(end, rest);
      }
      assert NodeTokens(n) + Tokenize(rest)
          == [Tag(tag, false)] + (TokensOf(kids) + ([Tag(end, true)] + Tokenize(rest))) by {
        AppendAssoc([Tag(tag, false)] + TokensOf(kids), [Tag(end, true)], Tokenize(rest));
        AppendAssoc([Tag(tag, false)], TokensOf(kids), [Tag(end, true)] + Tokenize(rest));
      }
  }

  /** The element being typed, as typeTokens sees it: the path to the cursor and whether
      the cursor is still attached. */
  class CursorTree {
    var frames: seq<Frame>
    var cursorAttached: bool

    ghost predicate Valid()
      reads this
    {
      |frames| > 0 && RightSpine(frames)
    }

    /** The element's children, with the cursor while it is attached. */
    function Children(): seq<Node>
      reads this
      requires |frames| > 0
    {
      if cursorAttached then Content(frames) else Detached(frames)
    }

    /** `rootElement.appendChild(cursor)`, on an element whose children are `children`. */
    constructor AppendCursor(children: seq<Node>)
      ensures Valid() && cursorAttached
      ensures frames == RootFrames(children)
      ensures Children() == children + [CursorNode]
    {
      frames := RootFrames(children);
      cursorAttached := true;
    }

    /** A character: a new text node goes in front of the cursor. */
    method InsertText(c: char)
      requires Valid() && cursorAttached
      modifies this
      ensures Valid() && cursorAttached
      ensures frames == InsertBeforeCursor(old(frames), TextNode(c))
      ensures Detached(frames) == Plug(old(frames), [TextNode(c)])
    {
      PlugInsert(frames, TextNode(c), []);
      InsertKeepsRightSpine(frames, TextNode(c));
      frames := InsertBeforeCursor(frames, TextNode(c));
      assert [TextNode(c)] + [] == [TextNode(c)];
    }

    /** An opening tag that yields an element: the new element goes in front of the
        cursor and the cursor moves into it. */
    method OpenElement(tag: string)
      requires Valid() && cursorAttached
      modifies this
      ensures Valid() && cursorAttached
      ensures frames == EnterNew(old(frames), tag)
      ensures Content(frames) == Plug(old(frames), [Element(tag, [CursorNode])])
      ensures Detached(frames) == Plug(old(frames), [Element(tag, [])])
    {
      PlugEnter(frames, tag, [CursorNode]);
      PlugEnter(frames, tag, []);
      EnterKeepsRightSpine(frames, tag);
      frames := EnterNew(frames, tag);
    }

    /** A closing tag: the cursor moves to just after its parent unless its parent is
        the element being typed. */
    method CloseElement()
      requires Valid() && cursorAttached
      modifies this
      ensures Valid() && cursorAttached
      ensures frames == StepOut(old(frames))
      ensures Detached(frames) == Detached(old(frames))
    {
      if |frames| > 1 {
        PlugStepOut(frames);
      }
      StepOutKeepsRightSpine(frames);
      frames := StepOut(frames);
    }

    /** `cursor.parentNode.removeChild(cursor)`. */
    method RemoveCursor()
      requires Valid()
      modifies this
      ensures Valid() && !cursorAttached
      ensures frames == old(frames)
      ensures Children() == Detached(old(frames))
    {
      cursorAttached := false;
    }
  }

  lemma RunFrom(fs: seq<Frame>, tokens: seq<Token>, i: nat, makesElement: string -> bool)
    requires |fs| > 0 && i < |tokens|
    ensures Run(fs, tokens[i..], makesElement) == Run(Step(fs, tokens[i], makesElement), tokens[i + 1..], makesElement)
  {
    assert tokens[i..][0] == tokens[i] && tokens[i..][1..] == tokens[i + 1..];
  }

  lemma TextCharsFrom(tokens: seq<Token>, i: nat)
    requires i < |tokens|
    ensures |TextChars(tokens[i..])| == (if tokens[i].Text? then 1 else 0) + |TextChars(tokens[i + 1..])|
  {
    assert tokens[i..][0] == tokens[i] && tokens[i..][1..] == tokens[i + 1..];
  }

  /** One call of typeTokens with a token left: a tag opens or closes an element at
      once, a character is inserted before the cursor and followed by a SPEED pause. */
  method TypeToken(tree: CursorTree, token: Token, makesElement: string -> bool) returns (pause: nat)
    requires tree.Valid() && tree.cursorAttached
    modifies tree
    ensures tree.Valid() && tree.cursorAttached
    ensures tree.frames == Step(old(tree.frames), token, makesElement)
    ensures pause == if token.Text? then SPEED else 0
  {
    pause := 0;
    match token {
      case Tag(tag, isClose) =>
        if isClose {
          tree.CloseElement();
        } else if makesElement(tag) {
          tree.OpenElement(tag);
        }
      case Text(c) =>
        tree.InsertText(c);
        pause := SPEED;
    }
  }

  /** typeTokens for one element: each token in turn, a timer of SPEED milliseconds
      after every character, then the cursor is removed. The result is the time spent
      waiting, in milliseconds, so an element without characters completes without
      ever waiting. */
  method TypeTokens(tree: CursorTree, tokens: seq<Token>, makesElement: string -> bool) returns (elapsed: nat)
    requires tree.Valid() && tree.cursorAttached
    modifies tree
    ensures tree.Valid() && !tree.cursorAttached
    ensures tree.frames == Run(old(tree.frames), tokens, makesElement)
    ensures elapsed == SPEED * |TextChars(tokens)|
  {
    var tokenIndex := 0;
    elapsed := 0;
    while tokenIndex < |tokens|
      invariant 0 <= tokenIndex <= |tokens|
      invariant tree.Valid() && tree.cursorAttached
      invariant Run(tree.frames, tokens[tokenIndex..], makesElement) == Run(old(tree.frames), tokens, makesElement)
      invariant elapsed + SPEED * |TextChars(tokens[tokenIndex..])| == SPEED * |TextChars(tokens)|
    {
      RunFrom(tree.frames, tokens, tokenIndex, makesElement);
      TextCharsFrom(tokens, tokenIndex);
      var pause := TypeToken(tree, tokens[tokenIndex], makesElement);
      elapsed := elapsed + pause;
      tokenIndex := tokenIndex + 1;
    }
    tree.RemoveCursor();
  }
}
