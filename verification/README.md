# Terminal portfolio typing animation, modelled in Dafny

The page is a fake terminal. Opening a section erases the command prompt one
character at a time. The section's paragraphs and list items are then emptied and
"typed" back one after another. Each element's markup is cut into tokens: one per
text character and one per `<...>` tag. The tokens are replayed into the element
with a blinking cursor (`<span class="cursor">_</span>`). Characters appear one per
`SPEED` (5 ms) timer. Tags open and close elements at once, so bold text is bold
while it is being typed. After the last element the button row is shown. A smooth
scroll (`SCROLL_SPEED` = 3 pixels per animation frame) brings the section's command
into view. Closing a section puts every element's cached markup back and types the
prompt `user@portfolio >` in again.

The model has six modules:

- `Tokenizer` (`tokenizer.dfy`): `parseHtmlToTokens`. A pure tokenizer function,
  plus the source's `while` loop proved equal to it.
- `Dom` (`dom.dfy`): the element being typed. It is a zipper: a path of frames from
  the element down to the cursor's parent. This module also holds the DOM
  operations typing uses, text extraction, cursor removal and an `innerHTML`
  serializer.
- `TypingEngine` (`typing_engine.dfy`): `typeTokens`. A specification (`Step`, `Run`,
  `TypeMarkup`) and a `CursorTree` class whose methods are the DOM calls typeTokens
  makes. `TypeTokens` is the token loop over that class.
- `Orchestrator` (`orchestrator.dfy`): `animateTyping` and `restoreContent` over a
  `Container` class. It holds each element's `data-original` cache and content, the
  buttons' visibility and a ghost event trace. It also models the `typeNextElement`
  chain, as written and corrected (see Findings).
- `Scroll` (`scroll.dfy`): `stopScrollAnimation`, `scrollToSection` and
  `animateOneFrame` over a `ScrollController` class, with a frame-step function and
  a termination proof for the animation.
- `Prompt` (`prompt.dfy`): `animatePromptDeleting` and `animatePromptTyping` over a
  `PromptLabel` class.

Browser and timing facts enter as parameters:

- `makesElement(tag)` says whether the browser, parsing `tag` as markup, gives an
  element as its first child.
- `maxScroll` is `scrollHeight - clientHeight` at a frame.
- Timers are added up (the `elapsed` results, in milliseconds) rather than waited
  for. Each `setTimeout` chain becomes a loop, because nothing else runs between its
  steps in the modelled scenarios.

Two behaviours of the code are easy to miss, and the model keeps them:

- `scrollToSection` stops a running scroll as soon as the section exists, before it
  looks for the section's command. A section without a command therefore still
  stops the scroll (script.js:125-128).
- An element without characters breaks the one-after-another order (see Findings).

## Model

| member | source | states |
|---|---|---|
| Tokenizer.IndexOf | script.js:236 | `indexOf('>', i)`: the result is -1 or a position at or after `i` holding the character |
| Tokenizer.IndexOfFirst | script.js:236 | -1 means no occurrence from `i` on; otherwise no earlier occurrence was skipped |
| Tokenizer.TokenAt | script.js:235-254 | the token at `i` stands for exactly the input from `i` to where scanning resumes |
| Tokenizer.NextIndex | script.js:245-255 | scanning always advances and never passes the end of the input |
| Tokenizer.ParseHtmlToTokens | script.js:229-259 | the scanning loop returns exactly the tokenization of its input |
| Tokenizer.TokenizeRoundTrip | script.js:229-259 | concatenating the tokens' literal texts gives back the input unchanged |
| Tokenizer.TagTokensWellShaped | script.js:236-244 | every tag token runs from `<` to the first `>` after it and is closing iff it starts with `</` |
| Tokenizer.TokenCountBounded | script.js:233-256 | there are never more tokens than characters, and a non-empty input yields at least one token |
| Tokenizer.NoCloseBracketAllText | script.js:233-256 | with no `>` left, every remaining character, `<` included, is a text token of its own |
| Tokenizer.UnterminatedTagIsText | script.js:235-254 | a `<` with no later `>` becomes a plain text character |
| Tokenizer.TokenizeTagThen | script.js:235-246 | a well-shaped tag at the front is cut out as one token, whatever follows it |
| Tokenizer.TokenizeCharThen | script.js:250-255 | any character other than `<` at the front is one text token |
| Tokenizer.EmphasisExample | script.js:229-259 | `<em>x</em>` gives an opening tag, the character `x` and a closing tag |
| Dom.RootFrames | script.js:205 | appending the cursor to an element leaves its children followed by the cursor |
| Dom.StepOut | script.js:285-289 | a closing tag at the top level of the typed element moves nothing |
| Dom.PlugInsert | script.js:307-308 | inserting a text node before the cursor puts it just in front of the cursor, nothing else changes |
| Dom.PlugEnter | script.js:292-299 | an opening tag puts a new element where the cursor was, with the cursor inside it |
| Dom.PlugStepOut | script.js:287-289 | a closing tag moves the cursor to just after its parent; without the cursor the tree is unchanged |
| Dom.CursorAtEnd | script.js:271-314 | the cursor always stands after all the text typed so far |
| Dom.StripCursor | script.js:327-330 | removing the cursor leaves no cursor and changes nothing in a tree without one |
| Dom.CursorRemoval | script.js:273-276 | on a path with no other cursor, removing the cursor leaves exactly the nodes around it, every one in its place |
| TypingEngine.Step | script.js:281-313 | a character keeps the cursor's depth; an opening tag that yields an element takes it one level deeper, one that does not changes nothing; a closing tag takes it one level up, except at the top, where nothing changes |
| TypingEngine.RunRightSpine | script.js:271-314 | nothing is ever placed after the cursor, at any depth |
| TypingEngine.TypedTextInOrder | script.js:271-314 | the typed element's text is its old text followed by the tokens' characters in order, even for unbalanced or unknown tags |
| TypingEngine.MarkupRoundTrip | script.js:271-314 | typing the markup of a well-formed tree into an empty element rebuilds exactly that tree |
| TypingEngine.TokenizeSerialized | script.js:229-259 | tokenizing a well-formed tree's markup gives its opening tags, characters and end tags in document order |
| TypingEngine.NestingExample | script.js:261-270 | typing `a<strong>b</strong>c` puts `b` inside a `strong` element between `a` and `c` |
| TypingEngine.TypingInsideElement | script.js:292-308 | while an element of a well-formed tree is being typed, it holds its children typed so far followed by the cursor, and the rest of the tree is as typed around it |
| TypingEngine.TokenizeCharTagChar | script.js:233-256 | a character, a well-shaped tag and a character at the front become three tokens, whatever follows |
| TypingEngine.TypingIntoNewElement | script.js:292-299 | after a character and an opening tag, the new element follows the character and holds only the cursor |
| TypingEngine.TypingInsideNewElement | script.js:292-308 | a character typed after an opening tag goes inside the new element, before the cursor |
| TypingEngine.NestingWhileTyping | script.js:261-270 | while `a<strong>b</strong>c` is typed, the `b` and the cursor are already inside the `strong` element |
| TypingEngine.VoidElementSwallowsText | script.js:292-299 | `<br>` is read as an opening tag with no end tag, so the text after it is typed inside the `br` element |
| TypingEngine.VoidThenClose | script.js:284-313 | after an opening tag, a character, a void element's tag, a character, a closing tag and a character, the last character is inside the outer element, after the void element holding the middle character |
| TypingEngine.VoidThenCloseMarkup | script.js:229-313 | markup such as `<b>x<br>y</b>z` is typed with `z` inside `b`: the end tag leaves the void element, not the outer one |
| TypingEngine.TypedCursorRemoval | script.js:273-276 | at any point of a typing pass, removing the cursor leaves exactly the nodes typed so far |
| TypingEngine.CursorTree.AppendCursor | script.js:205 | the element keeps its children and gets the cursor last |
| TypingEngine.CursorTree.InsertText | script.js:307-308 | the new text node stands right before the cursor; the cursor stays at the end |
| TypingEngine.CursorTree.OpenElement | script.js:292-299 | the new empty element stands where the cursor was, and the cursor is its only child |
| TypingEngine.CursorTree.CloseElement | script.js:285-289 | the cursor moves out one level, or stays at the top; the typed content is unchanged |
| TypingEngine.CursorTree.RemoveCursor | script.js:273-276 | the cursor is detached and the element keeps everything typed |
| TypingEngine.TypeToken | script.js:281-313 | one token moves the tree exactly as the specification's step says; a character is followed by a SPEED pause, a tag by none |
| TypingEngine.TypeTokens | script.js:271-314 | the element ends as the specification's run over all tokens, without the cursor, after SPEED milliseconds of waiting per text character |
| Orchestrator.CacheOf | script.js:183-185 | after an animation starts, every element has a cached markup |
| Orchestrator.CacheNeverOverwritten | script.js:183-185 | a non-empty cache is never replaced; an empty or missing one is refilled with the current markup, and becomes non-empty exactly when that markup is not empty |
| Orchestrator.RestoreElement | script.js:320-330 | truthy cached markup replaces the content; otherwise markup, and typed nodes without a cursor, are kept as they are; no cursor is left behind |
| Orchestrator.RestoreTypedElement | script.js:320-330 | for content typed from cursor-free children along any token sequence, restoring it without truthy cached markup gives exactly the typed nodes with the cursor removed |
| Orchestrator.RestoreIdempotent | script.js:317-331 | restoring twice is the same as restoring once |
| Orchestrator.TypeThenRestore | script.js:317-331 | after typing then restoring, an element reads back its cached markup, which for a first opening is its original markup |
| Orchestrator.SequentialTraceOrder | script.js:201-218 | element `k` starts and completes before element `k+1` starts; the buttons come last |
| Orchestrator.ChainAsWritten | script.js:203-207 | as written, a chain that finishes had a character in every remaining element, reports two events per element and ends with the buttons |
| Orchestrator.Chain | script.js:203-216 | with the index incremented first, the chain finishes whenever the stack has room for one nested call per element, with two events per element and the buttons last |
| Orchestrator.StuckElementOverflows | script.js:203-207 | as written, an element without characters re-enters typeNextElement with the same index until the stack is exhausted |
| Orchestrator.ChainAsWrittenOverflows | script.js:203-207 | as written, any element without characters ends in stack overflow; with characters in every element the section is typed in order |
| Orchestrator.ChainIsSequential | script.js:203-216 | with the index incremented before typing, every section is typed in order and ends with the buttons shown |
| Orchestrator.ElementsWithoutText | script.js:273-278 | empty markup and a lone `<br>` have no characters, so typeTokens completes without waiting |
| Orchestrator.Container.AnimateTyping | script.js:172-219 | every element caches its markup (unless already cached), is typed from that cache, in order, and the buttons are shown |
| Orchestrator.Container.CacheAndClear | script.js:182-188 | each element's cache is kept or filled, its tokens are the cache's tokenization, and it is emptied |
| Orchestrator.Container.TypeElementsInTurn | script.js:201-218 | each element gets the nodes typed from its cache, one element after another, then the buttons are shown |
| Orchestrator.Container.TypeElement | script.js:205-206 | one element gets its typed nodes; it waits for a timer exactly when its markup has a character |
| Orchestrator.Container.RestoreContent | script.js:317-331 | each element is restored as RestoreElement says; caches, buttons and trace are unchanged |
| Scroll.TargetScroll | script.js:139 | at the target, the command stands 10 pixels below the top of the body |
| Scroll.FrameStep | script.js:144-164 | a frame continues exactly when the flag is set, more than one pixel remains, the bottom is not reached and the position moved since the last frame; continuing, it records the position and moves SCROLL_SPEED pixels, stopping at the bottom; stopping, it keeps the position |
| Scroll.FrameProgress | script.js:144-164 | a frame either stops the animation or moves forward by exactly SCROLL_SPEED, or to the bottom if nearer; the stall check never fires while it moves |
| Scroll.AnimationEnds | script.js:143-166 | a started scroll ends within one pixel of its target or at the bottom, at most one pixel past the target, after at most one frame per SCROLL_SPEED pixels of distance (plus one pixel, rounded down) and the stopping frame |
| Scroll.ScrollController.StopScrollAnimation | script.js:114-119 | the flag is cleared and no frame stays pending; the position is kept |
| Scroll.ScrollController.ScrollToSection | script.js:122-168 | no section: nothing changes; otherwise any scroll stops, and one starts toward the target only for a command in the lower third |
| Scroll.ScrollController.AnimateOneFrame | script.js:144-164 | one frame moves the state as the frame-step specification says |
| Prompt.RetypingRetracesErasing | script.js:85-110 | retyping the prompt shows the erasing texts in reverse order, ending with the whole prompt |
| Prompt.PromptErasing | script.js:85-100 | erasing `user@portfolio >` shows sixteen texts, from the prompt without `>` to the empty text, over 160 milliseconds |
| Prompt.PromptLabel.AnimatePromptDeleting | script.js:85-100 | the label ends empty after `SPEED * 2` milliseconds per character, having shown each shorter prefix in turn |
| Prompt.PromptLabel.AnimatePromptTyping | script.js:103-110 | the rest of the text from `charIndex` is appended one character per `SPEED * 2` milliseconds; past the end nothing changes |

## Left out

- Page wiring is not modelled: the fonts-loaded gate, the wheel, touch and click
  listeners, the close button, the e-mail copy button and the section toggle. It
  only calls the modelled operations and sets CSS classes.
- `container.style.minHeight` and the `show` class of the button row are not
  modelled. The model has only a `buttonsShown` flag.
- Overlapping timers are not modelled: a section closed while it is still typing,
  or a second click while the prompt is being erased. Each timer chain is modelled
  as running to its end.
- The browser's HTML parser is not modelled. Whether an opening tag yields an
  element is the `makesElement` parameter, and the element is labelled by its tag's
  text; its attributes are not parsed.
- Dom.Serialize writes void elements (`<br>`, `<img>`) with an end tag. The browser
  omits it.
- TypingEngine.MarkupRoundTrip covers only markup in which every element has an end
  tag, and text without `&`, `<`, `>` or no-break spaces. A void element's tag has no
  end tag, so typeTokens enters it and types the following text inside it, up to the
  next closing tag (TypingEngine.VoidElementSwallowsText: `a<br>b` gives `a` followed
  by a `br` element holding `b`). That closing tag, meant for the enclosing element,
  leaves the void element instead, so from then on everything is typed one level
  deeper than the markup says (TypingEngine.VoidThenCloseMarkup: `<b>x<br>y</b>z`
  gives a `b` element holding `x`, a `br` element holding `y`, and `z`). Entities are
  not decoded: the tokenizer types `&amp;` as five characters, as the source does.
- Strings: a `char` stands for one UTF-16 code unit, as a JavaScript string index
  does. Characters outside the Basic Multilingual Plane are not modelled as the
  source handles them. The source types such a character as two text tokens, two
  text nodes and two timers, and erases it from the prompt in two steps; the model,
  given one as a single `char`, takes one step for it.
- Scroll: geometry is in whole pixels. With fractional scroll positions the
  browser can leave `scrollTop` unchanged, and the stall check
  (script.js:156-159) then fires. The model cannot reach that branch.
- Scroll.AnimationEnds assumes the same scrollable height at every frame.
- Orchestrator.RestoreElement removes every cursor node in a typed element and
  leaves restored markup as it is. The source removes only the first element of
  class `cursor` in the whole container, in document order (script.js:327-330). The
  two differ when such an element sits inside cached markup that is put back, when
  one sits in the container outside its paragraphs and list items, and when the
  container holds more than one: the source removes the first and keeps the rest,
  the model keeps those in markup and removes those in typed nodes. A finished typing
  pass leaves no cursor in any typed element (TypingEngine.TypeTokens detaches it).
- Orchestrator.Container models the eligible elements as disjoint records. In the
  source the selector `p:not(.btn-row), li` (script.js:174) also matches elements
  nested in one another, such as an `li` inside an `li` or a `p` inside an `li`, in
  document order. Emptying the outer element (script.js:187) detaches the inner one,
  which the static list still holds: the inner element is then cached, emptied and
  typed off the page, adding a SPEED pause per character. The outer element's typed
  markup builds new inner nodes without `data-original`, and restoreContent queries
  the elements again (script.js:318), so it sees a different set from the one that
  was typed. None of this is modelled.
- The cursor: the source creates one cursor node per animation (script.js:196) and
  moves it from element to element. Cursor nodes in the model have no identity, and
  Orchestrator.Container.TypeElement attaches a new one to each element, so the
  model does not tell one shared cursor from one per element. With the elements
  typed one after another, as modelled, the shared cursor is always in the element
  being typed and is detached when that element is done.
- Orchestrator.Container.AnimateTyping follows the corrected order: the index is
  incremented before an element is typed. The order as written is modelled by
  Orchestrator.ChainAsWritten (see Findings).
- Orchestrator.Container.TypeElementsInTurn follows the same corrected order, so it
  does not show the repeated typing and stack exhaustion of an element without
  characters; Orchestrator.ChainAsWritten does.

## Findings

| source | as written | input that shows it | evidently intended | confidence | as-written member | corrected member |
|---|---|---|---|---|---|---|
| script.js:203-207 | `typeNextElement` increments `currentIndex` only after `typeTokens` returns. When an element has no text character, `typeTokens` reaches its end synchronously and calls `typeNextElement` back before the increment, so the same element is typed again, without end | a section with an empty `<li></li>` (markup `""`) or `<li><br></li>`: the call stack is exhausted and the buttons are never shown | every element typed once, in order, then the buttons shown; increment before calling `typeTokens` | not executed | Orchestrator.ChainAsWrittenOverflows | Orchestrator.ChainIsSequential |
