/** animateTyping and restoreContent: the paragraphs and list items of a section are
    emptied and typed again one after another, each from the markup cached in its
    `data-original` attribute; closing the section puts the cached markup back. */
module Orchestrator {
  import opened Tokenizer
  import opened Dom
  import opened TypingEngine

  datatype Option<T> = None | Some(value: T)

  /** What an element holds: markup assigned through `innerHTML`, or the nodes the
      typing engine built. */
  datatype ElementContent = Markup(html: string) | Typed(children: seq<Node>)

  /** Reading `innerHTML`. Markup reads back as it was written. */
  function InnerHtml(c: ElementContent): string
  {
    match c
    case Markup(h) => h
    case Typed(ns) => Serialize(ns)
  }

  /** A `data-original` value that counts as true: present and not empty. */
  predicate Truthy(o: Option<string>)
  {
    o.Some? && o.value != ""
  }

  /** The `data-original` value after an animation starts: kept when it is truthy,
      otherwise replaced by the element's current markup. */
  function CacheOf(o: Option<string>, c: ElementContent): (r: Option<string>)
    ensures r.Some?
  {
    if Truthy(o) then o else Some(InnerHtml(c))
  }

  /** Once an element has cached non-empty markup, no later animation replaces it,
      whatever the element holds by then; and the cache is truthy exactly when it was
      already or the element's markup is not empty. */
  lemma CacheNeverOverwritten(o: Option<string>, c1: ElementContent, c2: ElementContent)
    ensures Truthy(CacheOf(o, c1)) <==> Truthy(o) || InnerHtml(c1) != ""
    ensures !Truthy(o) ==> CacheOf(o, c1).value == InnerHtml(c1)
    ensures Truthy(CacheOf(o, c1)) ==> CacheOf(CacheOf(o, c1), c2) == CacheOf(o, c1)
  {
  }

  /** restoreContent on one element: cached markup, when truthy, replaces whatever the
      element holds; the cursor, if left anywhere, is removed, and nothing else
      changes. */
  function RestoreElement(o: Option<string>, c: ElementContent): (r: ElementContent)
    ensures Truthy(o) ==> r == Markup(o.value)
    ensures !Truthy(o) ==> r.Typed? == c.Typed?
    ensures !Truthy(o) && (c.Markup? || !HasCursor(c.children)) ==> r == c
    ensures r.Typed? ==> !HasCursor(r.children)
  {
    if Truthy(o) then Markup(o.value)
    else match c
      case Markup(h) => Markup(h)
      case Typed(ns) => Typed(StripCursor(ns))
  }

  /** An element left mid-animation with no truthy cache keeps exactly the nodes typed
      so far once the cursor is removed. */
  lemma RestoreTypedElement(o: Option<string>, children: seq<Node>, tokens: seq<Token>, makesElement: string -> bool)
    requires !Truthy(o) && !HasCursor(children)
    ensures RestoreElement(o, Typed(Content(Run(RootFrames(children), tokens, makesElement))))
         == Typed(Detached(Run(RootFrames(children), tokens, makesElement)))
  {
    TypedCursorRemoval(children, tokens, makesElement);
  }

  /** Restoring twice is restoring once. */
  lemma RestoreIdempotent(o: Option<string>, c: ElementContent)
    ensures RestoreElement(o, RestoreElement(o, c)) == RestoreElement(o, c)
  {
    if !Truthy(o) && c.Typed? {
      var r := RestoreElement(o, c);
      assert !HasCursor(r.children);
    }
  }

  /** Typing an element from its cache and then restoring it leaves the element with
      the cached markup: a section that is opened and closed reads back as it was
      before it was first opened. */
  lemma TypeThenRestore(o: Option<string>, c: ElementContent, makesElement: string -> bool)
    ensures InnerHtml(RestoreElement(CacheOf(o, c), Typed(TypeMarkup(CacheOf(o, c).value, makesElement))))
         == CacheOf(o, c).value
    ensures o == None ==>
      InnerHtml(RestoreElement(CacheOf(o, c), Typed(TypeMarkup(CacheOf(o, c).value, makesElement))))
        == InnerHtml(c)
  {
    var cache := CacheOf(o, c);
    if !Truthy(cache) {
      assert cache.value == "";
      assert Tokenize("") == [];
      assert Run(RootFrames([]), [], makesElement) == RootFrames([]);
      assert TypeMarkup(cache.value, makesElement) == [];
      assert !HasCursor([]);
      assert Serialize([]) == "";
    }
  }

  /** What the animation of a section reports, in order. */
  datatype Event = TypingStarted(index: nat) | TypingCompleted(index: nat) | ButtonsShown

  /** The elements `lo` to `hi - 1`, each started and completed before the next. */
  function Trace(lo: nat, hi: nat): seq<Event>
    decreases hi
  {
    if hi <= lo then [] else Trace(lo, hi - 1) + [TypingStarted(hi - 1), TypingCompleted(hi - 1)]
  }

  /** The whole animation of `n` elements: every element in order, then the buttons. */
  function SequentialTrace(n: nat): seq<Event>
  {
    Trace(0, n) + [ButtonsShown]
  }

  lemma {:induction false} TraceCons(lo: nat, hi: nat)
    requires lo < hi
    ensures Trace(lo, hi) == [TypingStarted(lo), TypingCompleted(lo)] + Trace(lo + 1, hi)
    decreases hi
  {
    if lo + 1 < hi {
      TraceCons(lo, hi - 1);
      AppendAssoc([TypingStarted(lo), TypingCompleted(lo)], Trace(lo + 1, hi - 1),
                  [TypingStarted(hi - 1), TypingCompleted(hi - 1)]);
    } else {
      assert Trace(lo, hi - 1) == [] && Trace(lo + 1, hi) == [];
    }
  }

  /** Element `k` starts at position `2k` and completes right after it, so no two
      elements are ever typed at the same time; the buttons come last. */
  lemma {:induction false} SequentialTraceOrder(n: nat)
    ensures |SequentialTrace(n)| == 2 * n + 1
    ensures forall k :: 0 <= k < n ==>
      SequentialTrace(n)[2 * k] == TypingStarted(k) && SequentialTrace(n)[2 * k + 1] == TypingCompleted(k)
    ensures SequentialTrace(n)[2 * n] == ButtonsShown
  {
    TraceOrder(n);
  }

  lemma {:induction false} TraceOrder(n: nat)
    ensures |Trace(0, n)| == 2 * n
    ensures forall k :: 0 <= k < n ==>
      Trace(0, n)[2 * k] == TypingStarted(k) && Trace(0, n)[2 * k + 1] == TypingCompleted(k)
  {
    if n > 0 {
      TraceOrder(n - 1);
      var t := Trace(0, n);
      assert t == Trace(0, n - 1) + [TypingStarted(n - 1), TypingCompleted(n - 1)];
      forall k | 0 <= k < n
        ensures t[2 * k] == TypingStarted(k) && t[2 * k + 1] == TypingCompleted(k)
      {
        if k < n - 1 {
          assert t[2 * k] == Trace(0, n - 1)[2 * k];
          assert t[2 * k + 1] == Trace(0, n - 1)[2 * k + 1];
        }
      }
    }
  }

  /** How a chain of typeNextElement calls ends: with the events it produced, or with
      the call stack exhausted. */
  datatype Outcome = Finished(events: seq<Event>) | StackOverflow

  function Prepend(events: seq<Event>, o: Outcome): (r: Outcome)
    ensures r.Finished? <==> o.Finished?
    ensures r.Finished? ==> r.events == events + o.events
  {
    match o
    case Finished(rest) => Finished(events + rest)
    case StackOverflow => StackOverflow
  }

  /** typeNextElement as written, from index `i` at stack depth `depth`, with room for
      `limit` nested calls. `hasText[k]` says whether element `k` has a character to
      type. With a character, typeTokens returns at its first timer, the index is
      incremented, and the next call comes later from a timer, on a fresh stack. Without
      one, typeTokens runs to the end at once and calls typeNextElement back before the
      index is incremented, so the same element is typed again, one level deeper. */
  function ChainAsWritten(hasText: seq<bool>, i: nat, depth: nat, limit: nat): (r: Outcome)
    ensures r.Finished? ==> forall k :: i <= k < |hasText| ==> hasText[k]
    ensures r.Finished? && i <= |hasText| ==> |r.events| == 2 * (|hasText| - i) + 1
    ensures r.Finished? ==> |r.events| > 0 && r.events[|r.events| - 1] == ButtonsShown
    decreases |hasText| - i, limit - depth
  {
    if depth >= limit then StackOverflow
    else if i >= |hasText| then Finished([ButtonsShown])
    else if hasText[i] then
      Prepend([TypingStarted(i), TypingCompleted(i)], ChainAsWritten(hasText, i + 1, 0, limit))
    else ChainAsWritten(hasText, i, depth + 1, limit)
  }

  /** typeNextElement with the index incremented before typeTokens is called: an
      element without characters passes on to the next one, one level deeper. */
  function Chain(hasText: seq<bool>, i: nat, depth: nat, limit: nat): (r: Outcome)
    ensures i <= |hasText| && depth + (|hasText| - i) < limit ==> r.Finished?
    ensures r.Finished? && i <= |hasText| ==> |r.events| == 2 * (|hasText| - i) + 1
    ensures r.Finished? ==> |r.events| > 0 && r.events[|r.events| - 1] == ButtonsShown
    decreases |hasText| - i
  {
    if depth >= limit then StackOverflow
    else if i >= |hasText| then Finished([ButtonsShown])
    else Prepend([TypingStarted(i), TypingCompleted(i)],
                 Chain(hasText, i + 1, if hasText[i] then 0 else depth + 1, limit))
  }

  lemma {:induction false} StuckElementOverflows(hasText: seq<bool>, i: nat, depth: nat, limit: nat)
    requires i < |hasText| && !hasText[i]
    ensures ChainAsWritten(hasText, i, depth, limit) == StackOverflow
    decreases limit - depth
  {
    if depth < limit {
      StuckElementOverflows(hasText, i, depth + 1, limit);
    }
  }

  /** As written, one element without characters anywhere in the section exhausts the
      stack, however deep it is: the buttons are never shown. When every element has a
      character, the section is typed element by element. */
  lemma {:induction false} ChainAsWrittenOverflows(hasText: seq<bool>, i: nat, limit: nat)
    requires i <= |hasText| && limit > 0
    ensures (exists k :: i <= k < |hasText| && !hasText[k]) ==>
      ChainAsWritten(hasText, i, 0, limit) == StackOverflow
    ensures (forall k :: i <= k < |hasText| ==> hasText[k]) ==>
      ChainAsWritten(hasText, i, 0, limit) == Finished(Trace(i, |hasText|) + [ButtonsShown])
    decreases |hasText| - i
  {
    if i < |hasText| {
      if hasText[i] {
        ChainAsWrittenOverflows(hasText, i + 1, limit);
        TraceCons(i, |hasText|);
        AppendAssoc([TypingStarted(i), TypingCompleted(i)], Trace(i + 1, |hasText|), [ButtonsShown]);
        assert (exists k :: i <= k < |hasText| && !hasText[k]) ==>
               (exists k :: i + 1 <= k < |hasText| && !hasText[k]);
      } else {
        StuckElementOverflows(hasText, i, 0, limit);
      }
    } else {
      assert Trace(i, |hasText|) == [];
    }
  }

  /** With the increment moved before the call, every section is typed element by
      element and ends with the buttons shown, provided the stack has room for one
      nested call per element. */
  lemma {:induction false} ChainIsSequential(hasText: seq<bool>, i: nat, depth: nat, limit: nat)
    requires i <= |hasText| && depth + (|hasText| - i) < limit
    ensures Chain(hasText, i, depth, limit) == Finished(Trace(i, |hasText|) + [ButtonsShown])
    decreases |hasText| - i
  {
    if i < |hasText| {
      ChainIsSequential(hasText, i + 1, if hasText[i] then 0 else depth + 1, limit);
      TraceCons(i, |hasText|);
      AppendAssoc([TypingStarted(i), TypingCompleted(i)], Trace(i + 1, |hasText|), [ButtonsShown]);
    } else {
      assert Trace(i, |hasText|) == [];
    }
  }

  /** The smallest input of the first kind: an empty list item has no characters, and
      neither has one holding only a line break. */
  lemma ElementsWithoutText()
    ensures TextChars(Tokenize("")) == []
    ensures TextChars(Tokenize("<br>")) == []
  {
    assert Tokenize("") == [];
    TokenizeTagThen("<br>", "");
    assert "<br>" + "" == "<br>";
    assert TextChars([Tag("<br>", false)]) == [];
  }

  /** The section being animated: its paragraphs and list items in document order,
      each with its `data-original` attribute and its content, and whether the button
      row is shown. */
  class Container {
    var originals: seq<Option<string>>
    var contents: seq<ElementContent>
    var buttonsShown: bool
    ghost var events: seq<Event>

    ghost predicate Valid()
      reads this
    {
      |originals| == |contents|
    }

    constructor (markup: seq<string>)
      ensures Valid() && |contents| == |markup|
      ensures forall k :: 0 <= k < |markup| ==> originals[k] == None && contents[k] == Markup(markup[k])
      ensures !buttonsShown && events == []
    {
      originals := seq(|markup|, _ => None);
      contents := seq(|markup|, k requires 0 <= k < |markup| => Markup(markup[k]));
      buttonsShown := false;
      events := [];
    }

    /** animateTyping: cache and parse every element's markup and empty it, hide the
        buttons, then type the elements one after another and show the buttons. */
    method AnimateTyping(makesElement: string -> bool)
      requires Valid()
      modifies this
      ensures Valid() && |contents| == |old(contents)|
      ensures forall k :: 0 <= k < |contents| ==>
        originals[k] == CacheOf(old(originals)[k], old(contents)[k]) &&
        contents[k] == Typed(TypeMarkup(originals[k].value, makesElement))
      ensures buttonsShown
      ensures events == old(events) + SequentialTrace(|contents|)
    {
      var parsedTokens := CacheAndClear();
      buttonsShown := false;
      TypeElementsInTurn(parsedTokens, makesElement);
    }

    /** The first loop of animateTyping: an element without truthy cached markup caches
        its current markup; the cached markup is parsed into tokens and the element is
        emptied. */
    method CacheAndClear() returns (parsedTokens: seq<seq<Token>>)
      requires Valid()
      modifies this
      ensures Valid() && |contents| == |old(contents)| == |parsedTokens|
      ensures forall k :: 0 <= k < |contents| ==>
        originals[k] == CacheOf(old(originals)[k], old(contents)[k]) &&
        parsedTokens[k] == Tokenize(originals[k].value) && contents[k] == Typed([])
      ensures buttonsShown == old(buttonsShown) && events == old(events)
    {
      var n := |contents|;
      parsedTokens := [];
      var k := 0;
      while k < n
        invariant 0 <= k <= n && |originals| == |contents| == n
        invariant |parsedTokens| == k
        invariant forall j :: 0 <= j < n ==>
          originals[j] == (if j < k then CacheOf(old(originals)[j], old(contents)[j]) else old(originals)[j])
        invariant forall j :: 0 <= j < n ==> contents[j] == (if j < k then Typed([]) else old(contents)[j])
        invariant forall j :: 0 <= j < k ==> parsedTokens[j] == Tokenize(originals[j].value)
        invariant buttonsShown == old(buttonsShown) && events == old(events)
      {
        if !Truthy(originals[k]) {
          originals := originals[k := Some(InnerHtml(contents[k]))];
        }
        var tokens := ParseHtmlToTokens(originals[k].value);
        parsedTokens := parsedTokens + [tokens];
        contents := contents[k := Typed([])];
        k := k + 1;
      }
    }

    /** The typeNextElement chain, with the index moved on before an element is typed
        (so an element without characters does not start itself again): each element is
        typed in turn; after the last one the buttons are shown. */
    method TypeElementsInTurn(parsedTokens: seq<seq<Token>>, makesElement: string -> bool)
      requires Valid() && |parsedTokens| == |contents|
      requires forall k :: 0 <= k < |contents| ==>
        originals[k].Some? && parsedTokens[k] == Tokenize(originals[k].value) && contents[k] == Typed([])
      modifies this
      ensures Valid() && originals == old(originals) && |contents| == |old(contents)|
      ensures forall k :: 0 <= k < |contents| ==> contents[k] == Typed(TypeMarkup(originals[k].value, makesElement))
      ensures buttonsShown
      ensures events == old(events) + SequentialTrace(|contents|)
    {
      var n := |contents|;
      var currentIndex := 0;
      while currentIndex < n
        invariant 0 <= currentIndex <= n && |contents| == n && originals == old(originals)
        invariant forall j :: 0 <= j < n ==>
          contents[j] == (if j < currentIndex then Typed(TypeMarkup(originals[j].value, makesElement)) else Typed([]))
        invariant events == old(events) + Trace(0, currentIndex)
      {
        var index := currentIndex;
        currentIndex := currentIndex + 1;
        var waited := TypeElement(index, parsedTokens[index], makesElement);
        assert events == old(events) + Trace(0, currentIndex) by {
          AppendAssoc(old(events), Trace(0, index), [TypingStarted(index), TypingCompleted(index)]);
        }
      }
      buttonsShown := true;
      events := events + [ButtonsShown];
      AppendAssoc(old(events), Trace(0, n), [ButtonsShown]);
    }

    /** One element's turn: the cursor is appended to the emptied element and its
        tokens are typed; the element ends up with the nodes typed from its cached
        markup. `waited` says whether typeTokens had to wait for a timer, which it does
        exactly when the markup has a character outside its tags. */
    method TypeElement(index: nat, tokens: seq<Token>, makesElement: string -> bool) returns (waited: bool)
      requires Valid() && index < |contents| && originals[index].Some?
      requires tokens == Tokenize(originals[index].value) && contents[index] == Typed([])
      modifies this
      ensures Valid() && originals == old(originals) && buttonsShown == old(buttonsShown)
      ensures contents == old(contents)[index := Typed(TypeMarkup(originals[index].value, makesElement))]
      ensures events == old(events) + [TypingStarted(index), TypingCompleted(index)]
      ensures waited <==> TextChars(Tokenize(originals[index].value)) != []
    {
      events := events + [TypingStarted(index)];
      var tree := new CursorTree.AppendCursor(contents[index].children);
      var elapsed := TypeTokens(tree, tokens, makesElement);
      contents := contents[index := Typed(tree.Children())];
      events := events + [TypingCompleted(index)];
      waited := elapsed > 0;
    }

    /** restoreContent: every element with truthy cached markup gets it back, and the
        cursor is removed wherever it is left. */
    method RestoreContent()
      requires Valid()
      modifies this
      ensures Valid() && originals == old(originals) && |contents| == |old(contents)|
      ensures forall k :: 0 <= k < |contents| ==> contents[k] == RestoreElement(originals[k], old(contents)[k])
      ensures buttonsShown == old(buttonsShown) && events == old(events)
    {
      var k := 0;
      while k < |contents|
        invariant 0 <= k <= |contents| && |contents| == |old(contents)| && Valid()
        invariant originals == old(originals)
        invariant forall j :: 0 <= j < |contents| ==>
          contents[j] == (if j < k && Truthy(originals[j]) then Markup(originals[j].value) else old(contents)[j])
        invariant buttonsShown == old(buttonsShown) && events == old(events)
      {
        if Truthy(originals[k]) {
          contents := contents[k := Markup(originals[k].value)];
        }
        k := k + 1;
      }
      k := 0;
      while k < |contents|
        invariant 0 <= k <= |contents| && |contents| == |old(contents)| && Valid()
        invariant originals == old(originals)
        invariant forall j :: 0 <= j < |contents| ==>
          contents[j] == (if j < k then RestoreElement(originals[j], old(contents)[j])
                          else if Truthy(originals[j]) then Markup(originals[j].value) else old(contents)[j])
        invariant buttonsShown == old(buttonsShown) && events == old(events)
      {
        if contents[k].Typed? {
          contents := contents[k := Typed(StripCursor(contents[k].children))];
        }
        k := k + 1;
      }
    }
  }
}
