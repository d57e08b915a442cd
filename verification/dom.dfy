/** The part of the DOM the typing engine touches: the children of one element, the
    elements nested in them, single-character text nodes and the shared cursor node.
    The position of the cursor is kept as a zipper: a path of frames from the element
    being typed (frame 0) down to the element that currently holds the cursor. */
module Dom {
  import Tokenizer

  datatype Node =
    | TextNode(ch: char)
    | Element(tag: string, children: seq<Node>)
    | CursorNode

  /** One level of the path to the cursor: the element at that level (labelled by the
      opening tag it was created from) and its children before and after the hole that
      holds the next level down. The tag of frame 0 is not used: frame 0 stands for the
      element being typed, of which only the children are rebuilt. */
  datatype Frame = Frame(tag: string, before: seq<Node>, after: seq<Node>)

  /** The text the cursor shows, and the markup it serializes to. */
  const CURSOR_TEXT: string := "_"
  const CURSOR_MARKUP: string := "<span class=\"cursor\">_</span>"

  /** The children of the element being typed, with `hole` placed at the cursor position. */
  function Plug(fs: seq<Frame>, hole: seq<Node>): seq<Node>
    requires |fs| > 0
    decreases |fs|
  {
    var f := fs[|fs| - 1];
    var kids := f.before + hole + f.after;
    if |fs| == 1 then kids else Plug(fs[..|fs| - 1], [Element(f.tag, kids)])
  }

  /** What the element holds while the cursor is attached. */
  function Content(fs: seq<Frame>): seq<Node>
    requires |fs| > 0
  {
    Plug(fs, [CursorNode])
  }

  /** What the element holds once the cursor is removed. */
  function Detached(fs: seq<Frame>): seq<Node>
    requires |fs| > 0
  {
    Plug(fs, [])
  }

  /** The frames the path starts from when the cursor is appended to an element whose
      children are `children`. */
  function RootFrames(children: seq<Node>): (fs: seq<Frame>)
    ensures |fs| == 1 && Content(fs) == children + [CursorNode]
  {
    [Frame("", children, [])]
  }

  /** The cursor path once the nodes `ns` have been placed, in order, right before the
      cursor. */
  function AppendAtCursor(fs: seq<Frame>, ns: seq<Node>): (r: seq<Frame>)
    requires |fs| > 0
    ensures |r| == |fs|
  {
    var f := fs[|fs| - 1];
    fs[..|fs| - 1] + [Frame(f.tag, f.before + ns, f.after)]
  }

  /** `parent.insertBefore(node, cursor)`, where `parent` holds the cursor. */
  function InsertBeforeCursor(fs: seq<Frame>, n: Node): (r: seq<Frame>)
    requires |fs| > 0
    ensures |r| == |fs|
  {
    AppendAtCursor(fs, [n])
  }

  /** `parent.insertBefore(element, cursor)` followed by `element.appendChild(cursor)`, for
      a new empty element labelled `tag`. */
  function EnterNew(fs: seq<Frame>, tag: string): (r: seq<Frame>)
    requires |fs| > 0
    ensures |r| == |fs| + 1
  {
    fs + [Frame(tag, [], [])]
  }

  /** A closing tag: when the cursor's parent is not the element being typed, the cursor
      moves to just after its parent, in its grandparent; at the top level nothing moves. */
  function StepOut(fs: seq<Frame>): (r: seq<Frame>)
    requires |fs| > 0
    ensures |fs| == 1 ==> r == fs
    ensures |fs| > 1 ==> |r| == |fs| - 1
  {
    if |fs| == 1 then fs
    else
      var f := fs[|fs| - 1];
      var ps := fs[..|fs| - 1];
      var p := ps[|ps| - 1];
      ps[..|ps| - 1] + [Frame(p.tag, p.before + [Element(f.tag, f.before + f.after)], p.after)]
  }

  /** The cursor sits at the end of every element on its path: nothing was ever placed
      after it. */
  predicate RightSpine(fs: seq<Frame>)
  {
    forall k :: 0 <= k < |fs| ==> fs[k].after == []
  }

  lemma InsertKeepsRightSpine(fs: seq<Frame>, n: Node)
    requires |fs| > 0 && RightSpine(fs)
    ensures RightSpine(InsertBeforeCursor(fs, n))
  {
    var r := InsertBeforeCursor(fs, n);
    forall k | 0 <= k < |r| ensures r[k].after == [] {
      if k < |fs| - 1 {
        assert r[k] == fs[k];
      } else {
        assert r[k].after == fs[|fs| - 1].after;
      }
    }
  }

  lemma EnterKeepsRightSpine(fs: seq<Frame>, tag: string)
    requires |fs| > 0 && RightSpine(fs)
    ensures RightSpine(EnterNew(fs, tag))
  {
    var r := EnterNew(fs, tag);
    forall k | 0 <= k < |r| ensures r[k].after == [] {
      if k < |fs| {
        assert r[k] == fs[k];
      }
    }
  }

  lemma StepOutKeepsRightSpine(fs: seq<Frame>)
    requires |fs| > 0 && RightSpine(fs)
    ensures RightSpine(StepOut(fs))
  {
    var r := StepOut(fs);
    if |fs| > 1 {
      forall k | 0 <= k < |r| ensures r[k].after == [] {
        if k < |fs| - 2 {
          assert r[k] == fs[k];
        } else {
          assert r[k].after == fs[|fs| - 2].after;
        }
      }
    }
  }

  /** Plugging depends on the last frame only through its tag and the children it
      gives once the hole is filled. */
  lemma PlugLast(ps: seq<Frame>, f: Frame, g: Frame, h1: seq<Node>, h2: seq<Node>)
    requires f.tag == g.tag
    requires f.before + h1 + f.after == g.before + h2 + g.after
    ensures |ps| == 0 ==> Plug(ps + [f], h1) == f.before + h1 + f.after
    ensures |ps| > 0 ==> Plug(ps + [f], h1) == Plug(ps, [Element(f.tag, f.before + h1 + f.after)])
    ensures Plug(ps + [f], h1) == Plug(ps + [g], h2)
  {
    assert (ps + [f])[..|ps|] == ps;
    assert (ps + [g])[..|ps|] == ps;
  }

  /** Inserting a node before the cursor puts it in front of whatever fills the hole. */
  lemma PlugInsert(fs: seq<Frame>, n: Node, h: seq<Node>)
    requires |fs| > 0
    ensures Plug(InsertBeforeCursor(fs, n), h) == Plug(fs, [n] + h)
  {
    AppendAtCursorPlug(fs, [n], h);
  }

  lemma AppendAtCursorPlug(fs: seq<Frame>, ns: seq<Node>, h: seq<Node>)
    requires |fs| > 0
    ensures Plug(AppendAtCursor(fs, ns), h) == Plug(fs, ns + h)
  {
    var f := fs[|fs| - 1];
    var ps := fs[..|fs| - 1];
    assert fs == ps + [f];
    PlugLast(ps, Frame(f.tag, f.before + ns, f.after), f, h, ns + h);
  }

  lemma AppendAtCursorTwice(fs: seq<Frame>, a: seq<Node>, b: seq<Node>)
    requires |fs| > 0
    ensures AppendAtCursor(AppendAtCursor(fs, a), b) == AppendAtCursor(fs, a + b)
  {
    var f := fs[|fs| - 1];
    var r := AppendAtCursor(fs, a);
    assert r[..|r| - 1] == fs[..|fs| - 1];
    assert f.before + a + b == f.before + (a + b);
  }

  /** Entering a new element puts the hole inside a new element labelled `tag`. */
  lemma PlugEnter(fs: seq<Frame>, tag: string, h: seq<Node>)
    requires |fs| > 0
    ensures Plug(EnterNew(fs, tag), h) == Plug(fs, [Element(tag, h)])
  {
    PlugLast(fs, Frame(tag, [], []), Frame(tag, [], []), h, h);
    assert [] + h + [] == h;
  }

  /** Leaving an element places the cursor directly after it, and leaves the content
      without the cursor unchanged. */
  lemma PlugStepOut(fs: seq<Frame>)
    requires |fs| > 1
    ensures Content(StepOut(fs)) ==
      Plug(fs[..|fs| - 1], [Element(fs[|fs| - 1].tag, fs[|fs| - 1].before + fs[|fs| - 1].after), CursorNode])
    ensures Detached(StepOut(fs)) == Detached(fs)
  {
    var f := fs[|fs| - 1];
    var ps := fs[..|fs| - 1];
    var p := ps[|ps| - 1];
    var qs := ps[..|ps| - 1];
    var e := Element(f.tag, f.before + f.after);
    var p' := Frame(p.tag, p.before + [e], p.after);
    assert ps == qs + [p];
    assert fs == ps + [f];
    PlugLast(qs, p', p, [CursorNode], [e, CursorNode]);
    PlugLast(qs, p', p, [], [e]);
    PlugLast(ps, f, f, [], []);
    assert f.before + [] + f.after == f.before + f.after;
  }

  /** The characters of a forest in document order (its `textContent`); the cursor
      shows `_`. */
  function TextOf(ns: seq<Node>): string
    decreases ns
  {
    if ns == [] then [] else NodeText(ns[0]) + TextOf(ns[1..])
  }

  function NodeText(n: Node): string
    decreases n
  {
    match n
    case TextNode(c) => [c]
    case Element(_, kids) => TextOf(kids)
    case CursorNode => CURSOR_TEXT
  }

  lemma {:induction false} TextOfAppend(a: seq<Node>, b: seq<Node>)
    ensures TextOf(a + b) == TextOf(a) + TextOf(b)
    decreases |a|
  {
    if a != [] {
      assert (a + b)[0] == a[0];
      assert (a + b)[1..] == a[1..] + b;
      TextOfAppend(a[1..], b);
      assert TextOf(a + b) == NodeText(a[0]) + TextOf(a[1..] + b);
      assert TextOf(a) == NodeText(a[0]) + TextOf(a[1..]);
    } else {
      assert a + b == b;
    }
  }

  lemma TextOfElement(tag: string, kids: seq<Node>)
    ensures TextOf([Element(tag, kids)]) == TextOf(kids)
  {
    assert [Element(tag, kids)][1..] == [];
  }

  lemma RightSpinePrefix(fs: seq<Frame>)
    requires |fs| > 0 && RightSpine(fs)
    ensures RightSpine(fs[..|fs| - 1]) && fs[|fs| - 1].after == []
  {
    var ps := fs[..|fs| - 1];
    forall k | 0 <= k < |ps| ensures ps[k].after == [] {
      assert ps[k] == fs[k];
    }
  }

  /** While the cursor is on the right spine, the text of the element is the text
      without the hole followed by the text of whatever fills the hole. */
  lemma {:induction false} TextOfPlug(fs: seq<Frame>, h: seq<Node>)
    requires |fs| > 0 && RightSpine(fs)
    ensures TextOf(Plug(fs, h)) == TextOf(Plug(fs, [])) + TextOf(h)
    decreases |fs|
  {
    var f := fs[|fs| - 1];
    var ps := fs[..|fs| - 1];
    RightSpinePrefix(fs);
    TextOfAppend(f.before, h);
    assert f.before + h + f.after == f.before + h;
    assert f.before + [] + f.after == f.before;
    if |fs| > 1 {
      TextOfPlug(ps, [Element(f.tag, f.before + h)]);
      TextOfPlug(ps, [Element(f.tag, f.before)]);
      TextOfElement(f.tag, f.before + h);
      TextOfElement(f.tag, f.before);
    }
  }

  /** The cursor always stands after all the text typed so far. */
  lemma CursorAtEnd(fs: seq<Frame>)
    requires |fs| > 0 && RightSpine(fs)
    ensures TextOf(Content(fs)) == TextOf(Detached(fs)) + CURSOR_TEXT
  {
    TextOfPlug(fs, [CursorNode]);
    assert TextOf([CursorNode]) == CURSOR_TEXT;
  }

  /** Whether a forest holds a cursor node anywhere. */
  predicate HasCursor(ns: seq<Node>)
    decreases ns
  {
    exists k :: 0 <= k < |ns| && NodeHasCursor(ns[k])
  }

  predicate NodeHasCursor(n: Node)
    decreases n
  {
    match n
    case TextNode(_) => false
    case Element(_, kids) => HasCursor(kids)
    case CursorNode => true
  }

  lemma NoCursorSplit(ns: seq<Node>)
    requires ns != [] && !HasCursor(ns)
    ensures !NodeHasCursor(ns[0]) && !HasCursor(ns[1..])
  {
    forall k | 0 <= k < |ns| - 1 ensures !NodeHasCursor(ns[1..][k]) {
      assert ns[1..][k] == ns[k + 1];
    }
  }

  lemma NoCursorJoin(n: Node, rest: seq<Node>)
    requires !NodeHasCursor(n) && !HasCursor(rest)
    ensures !HasCursor([n] + rest)
  {
    forall k | 0 <= k < |[n] + rest| ensures !NodeHasCursor(([n] + rest)[k]) {
      if k > 0 {
        assert ([n] + rest)[k] == rest[k - 1];
      }
    }
  }

  /** The forest with every cursor node removed (`cursor.remove()`). */
  function StripCursor(ns: seq<Node>): (r: seq<Node>)
    ensures !HasCursor(r)
    ensures !HasCursor(ns) ==> r == ns
    decreases ns
  {
    if ns == [] then []
    else
      var rest := StripCursor(ns[1..]);
      assert !HasCursor(ns) ==> !NodeHasCursor(ns[0]) && rest == ns[1..] by {
        if !HasCursor(ns) {
          NoCursorSplit(ns);
        }
      }
      match ns[0]
      case CursorNode => rest
      case TextNode(c) => NoCursorJoin(TextNode(c), rest); [TextNode(c)] + rest
      case Element(tag, kids) =>
        var e := Element(tag, StripCursor(kids));
        NoCursorJoin(e, rest);
        [e] + rest
  }

  /** Removing the cursor from two forests side by side removes it from each. */
  lemma {:induction false} StripCursorAppend(a: seq<Node>, b: seq<Node>)
    ensures StripCursor(a + b) == StripCursor(a) + StripCursor(b)
    decreases |a|
  {
    if a == [] {
      assert a + b == b;
    } else {
      assert (a + b)[0] == a[0];
      assert (a + b)[1..] == a[1..] + b;
      StripCursorAppend(a[1..], b);
      Tokenizer.AppendAssoc(if a[0].CursorNode? then [] else [StripCursorNode(a[0])],
                       StripCursor(a[1..]), StripCursor(b));
    }
  }

  /** What StripCursor keeps of a node other than the cursor. */
  function StripCursorNode(n: Node): Node
  {
    match n
    case Element(tag, kids) => Element(tag, StripCursor(kids))
    case _ => n
  }

  /** No frame on the path holds a cursor beside the hole. */
  predicate CursorFree(fs: seq<Frame>)
  {
    forall k :: 0 <= k < |fs| ==> !HasCursor(fs[k].before) && !HasCursor(fs[k].after)
  }

  /** On a path without cursors, removing the cursor from the element acts on the hole
      alone. */
  lemma {:induction false} StripCursorPlug(fs: seq<Frame>, h: seq<Node>)
    requires |fs| > 0 && CursorFree(fs)
    ensures StripCursor(Plug(fs, h)) == Plug(fs, StripCursor(h))
    decreases |fs|
  {
    var f := fs[|fs| - 1];
    var kids := f.before + h + f.after;
    assert StripCursor(kids) == f.before + StripCursor(h) + f.after by {
      StripCursorAppend(f.before + h, f.after);
      StripCursorAppend(f.before, h);
    }
    if |fs| > 1 {
      var ps := fs[..|fs| - 1];
      assert CursorFree(ps) by {
        forall k | 0 <= k < |ps| ensures !HasCursor(ps[k].before) && !HasCursor(ps[k].after) {
          assert ps[k] == fs[k];
        }
      }
      assert StripCursor([Element(f.tag, kids)]) == [Element(f.tag, StripCursor(kids))] by {
        assert [Element(f.tag, kids)][1..] == [];
      }
      StripCursorPlug(ps, [Element(f.tag, kids)]);
    }
  }

  /** `cursor.remove()`: on a path without other cursors, removing the cursor leaves
      exactly what the element holds around it, every other node kept in place. */
  lemma CursorRemoval(fs: seq<Frame>)
    requires |fs| > 0 && CursorFree(fs)
    ensures StripCursor(Content(fs)) == Detached(fs)
  {
    StripCursorPlug(fs, [CursorNode]);
    assert StripCursor([CursorNode]) == [] by {
      assert [CursorNode][1..] == [];
    }
  }

  lemma NoCursorAppend(a: seq<Node>, b: seq<Node>)
    requires !HasCursor(a) && !HasCursor(b)
    ensures !HasCursor(a + b)
  {
    forall k | 0 <= k < |a + b| ensures !NodeHasCursor((a + b)[k]) {
      if k < |a| {
        assert (a + b)[k] == a[k];
      } else {
        assert (a + b)[k] == b[k - |a|];
      }
    }
  }

  lemma InsertKeepsCursorFree(fs: seq<Frame>, n: Node)
    requires |fs| > 0 && CursorFree(fs) && !NodeHasCursor(n)
    ensures CursorFree(InsertBeforeCursor(fs, n))
  {
    var r := InsertBeforeCursor(fs, n);
    var f := fs[|fs| - 1];
    assert !HasCursor([n]);
    NoCursorAppend(f.before, [n]);
    forall k | 0 <= k < |r| ensures !HasCursor(r[k].before) && !HasCursor(r[k].after) {
      if k < |fs| - 1 {
        assert r[k] == fs[k];
      }
    }
  }

  lemma EnterKeepsCursorFree(fs: seq<Frame>, tag: string)
    requires |fs| > 0 && CursorFree(fs)
    ensures CursorFree(EnterNew(fs, tag))
  {
    var r := EnterNew(fs, tag);
    forall k | 0 <= k < |r| ensures !HasCursor(r[k].before) && !HasCursor(r[k].after) {
      if k < |fs| {
        assert r[k] == fs[k];
      }
    }
  }

  lemma StepOutKeepsCursorFree(fs: seq<Frame>)
    requires |fs| > 0 && CursorFree(fs)
    ensures CursorFree(StepOut(fs))
  {
    if |fs| > 1 {
      var r := StepOut(fs);
      var f := fs[|fs| - 1];
      var p := fs[|fs| - 2];
      var e := Element(f.tag, f.before + f.after);
      NoCursorAppend(f.before, f.after);
      assert !HasCursor([e]);
      NoCursorAppend(p.before, [e]);
      forall k | 0 <= k < |r| ensures !HasCursor(r[k].before) && !HasCursor(r[k].after) {
        if k < |fs| - 2 {
          assert r[k] == fs[k];
        }
      }
    }
  }

  /** The character escaping the HTML serializer applies to text. */
  function Escape(c: char): string
  {
    if c == '&' then "&amp;"
    else if c == '\U{00A0}' then "&nbsp;"
    else if c == '<' then "&lt;"
    else if c == '>' then "&gt;"
    else [c]
  }

  /** A character the serializer writes out as itself. */
  predicate PlainChar(c: char)
  {
    c != '&' && c != '\U{00A0}' && c != '<' && c != '>'
  }

  /** The element name of an opening tag: what follows `<` up to the first space, `/`
      or `>`. */
  function TagName(tag: string): (name: string)
    ensures forall k :: 0 <= k < |name| ==> name[k] != '>'
  {
    if |tag| == 0 then [] else NameFrom(tag, 1)
  }

  function NameFrom(tag: string, i: nat): (name: string)
    ensures forall k :: 0 <= k < |name| ==> name[k] != '>'
    decreases |tag| - i
  {
    if i >= |tag| || tag[i] in {' ', '/', '>', '\t', '\n'} then []
    else [tag[i]] + NameFrom(tag, i + 1)
  }

  function EndTag(tag: string): string
  {
    "</" + TagName(tag) + ">"
  }

  /** The markup of a forest (`innerHTML`), for elements that are not void: each
      element is written as its opening tag, its children and the end tag of its name. */
  function Serialize(ns: seq<Node>): string
    decreases ns
  {
    if ns == [] then [] else SerializeNode(ns[0]) + Serialize(ns[1..])
  }

  function SerializeNode(n: Node): string
    decreases n
  {
    match n
    case TextNode(c) => Escape(c)
    case Element(tag, kids) => tag + Serialize(kids) + EndTag(tag)
    case CursorNode => CURSOR_MARKUP
  }
}
