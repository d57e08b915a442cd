/** The command-line prompt shown before a section's command: erased character by
    character from the end when the section opens, typed back character by character
    when it closes. */
module Prompt {
  import TypingEngine

  const PROMPT_TEXT: string := "user@portfolio >"

  /** The delay between two prompt characters, in milliseconds: twice the typing delay. */
  const PROMPT_DELAY: nat := TypingEngine.SPEED * 2

  /** The texts shown while `t` is erased: `t` without its last character, without its
      last two, and so on down to the empty text. */
  function ErasingDisplays(t: string): seq<string>
  {
    seq(|t|, k requires 0 <= k < |t| => t[..|t| - 1 - k])
  }

  /** The texts shown while the characters of `full` from `from` on are typed after
      `prefix`: one more character each time. */
  function TypingDisplays(prefix: string, full: string, from: nat): seq<string>
    requires from <= |full|
  {
    seq(|full| - from, k requires 0 <= k < |full| - from => prefix + full[from..from + k + 1])
  }

  function Reverse<T>(s: seq<T>): seq<T>
  {
    seq(|s|, k requires 0 <= k < |s| => s[|s| - 1 - k])
  }

  /** Typing the prompt into an empty label passes through the texts erasing it passed
      through, in the opposite order, and ends with the whole prompt. */
  lemma RetypingRetracesErasing(full: string)
    ensures [""] + TypingDisplays("", full, 0) == Reverse(ErasingDisplays(full)) + [full]
  {
    var lhs := [""] + TypingDisplays("", full, 0);
    var rhs := Reverse(ErasingDisplays(full)) + [full];
    assert |lhs| == |rhs|;
    forall k | 0 <= k < |lhs| ensures lhs[k] == rhs[k] {
      if k == 0 {
        if |full| > 0 {
          assert rhs[0] == full[..0];
        }
      } else if k < |full| {
        assert lhs[k] == "" + full[0..k];
        assert rhs[k] == full[..k];
      } else {
        assert lhs[k] == "" + full[0..|full|];
        assert full[0..|full|] == full;
      }
    }
  }

  /** Erasing `user@portfolio >` shows sixteen texts, from the prompt without its `>`
      down to the empty text, and takes 160 milliseconds. */
  lemma PromptErasing()
    ensures |ErasingDisplays(PROMPT_TEXT)| == 16 && |PROMPT_TEXT| * PROMPT_DELAY == 160
    ensures ErasingDisplays(PROMPT_TEXT)[0] == "user@portfolio "
    ensures ErasingDisplays(PROMPT_TEXT)[15] == ""
  {
    assert PROMPT_TEXT[..15] == "user@portfolio ";
  }

  /** The prompt label and the texts it has shown. */
  class PromptLabel {
    var text: string
    ghost var shown: seq<string>

    constructor (initial: string)
      ensures text == initial && shown == []
    {
      text := initial;
      shown := [];
    }

    /** animatePromptDeleting: drop the last character, wait, repeat until the label is
        empty, then run the callback once. The result is the time spent waiting, in
        milliseconds: PROMPT_DELAY per character erased. */
    method AnimatePromptDeleting() returns (elapsed: nat)
      modifies this
      ensures text == []
      ensures elapsed == |old(text)| * PROMPT_DELAY
      ensures shown == old(shown) + ErasingDisplays(old(text))
    {
      ghost var start := text;
      var erased := 0;
      elapsed := 0;
      while |text| > 0
        invariant erased <= |start| && text == start[..|start| - erased]
        invariant shown == old(shown) + ErasingDisplays(start)[..erased]
        invariant elapsed == erased * PROMPT_DELAY
        decreases |text|
      {
        text := text[..|text| - 1];
        assert text == start[..|start| - 1 - erased];
        assert ErasingDisplays(start)[..erased + 1] == ErasingDisplays(start)[..erased] + [text];
        shown := shown + [text];
        erased := erased + 1;
        elapsed := elapsed + PROMPT_DELAY;
      }
      assert ErasingDisplays(start)[..erased] == ErasingDisplays(start);
    }

    /** animatePromptTyping from `charIndex`: append the next character of `full`,
        wait, repeat to the end of `full`. The result is the time spent waiting, in
        milliseconds: PROMPT_DELAY per character typed. */
    method AnimatePromptTyping(full: string, charIndex: nat) returns (elapsed: nat)
      modifies this
      ensures charIndex < |full| ==> text == old(text) + full[charIndex..]
      ensures charIndex < |full| ==> shown == old(shown) + TypingDisplays(old(text), full, charIndex)
      ensures charIndex >= |full| ==> text == old(text) && shown == old(shown)
      ensures elapsed == if charIndex < |full| then (|full| - charIndex) * PROMPT_DELAY else 0
    {
      elapsed := 0;
      if charIndex >= |full| {
        return;
      }
      ghost var prefix := text;
      var i := charIndex;
      while i < |full|
        invariant charIndex <= i <= |full|
        invariant text == prefix + full[charIndex..i]
        invariant shown == old(shown) + TypingDisplays(prefix, full, charIndex)[..i - charIndex]
        invariant elapsed == (i - charIndex) * PROMPT_DELAY
      {
        text := text + [full[i]];
        assert text == prefix + full[charIndex..i + 1] by {
          assert full[charIndex..i + 1] == full[charIndex..i] + [full[i]];
        }
        assert TypingDisplays(prefix, full, charIndex)[..i + 1 - charIndex]
            == TypingDisplays(prefix, full, charIndex)[..i - charIndex] + [text];
        shown := shown + [text];
        elapsed := elapsed + PROMPT_DELAY;
        i := i + 1;
      }
      assert TypingDisplays(prefix, full, charIndex)[..i - charIndex] == TypingDisplays(prefix, full, charIndex);
    }
  }
}
