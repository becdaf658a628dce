/**
 * The word-trying loop of `solve_spelling_bee` (app.py): for every ranked word the
 * keyboard types the word, the submit button is clicked if it is visible, and then
 * Backspace is pressed once per letter. The page's letter input is modelled as a text
 * buffer; whether the submit button is visible is observed per word, and whether the
 * game clears the input when a word is submitted is a fixed property of the field.
 */
module Submission {

  /** The puzzle's letter input, as the keyboard and the submit button see it. */
  class InputField {
    var text: string
    /** The words the submit button sent, in order. */
    var submitted: seq<string>
    const clearsOnSubmit: bool

    constructor (clearsOnSubmit: bool)
      ensures text == "" && submitted == [] && this.clearsOnSubmit == clearsOnSubmit
    {
      text := "";
      submitted := [];
      this.clearsOnSubmit := clearsOnSubmit;
    }

    /** `page.keyboard.type(word)`: one key press per character. */
    method Type(word: string)
      modifies this
      ensures text == old(text) + word
      ensures submitted == old(submitted)
    {
      for i := 0 to |word|
        invariant text == old(text) + word[..i]
        invariant submitted == old(submitted)
      {
        assert word[..i + 1] == word[..i] + [word[i]];
        text := text + [word[i]];
      }
    }

    /** `page.keyboard.press('Backspace')`: the last character goes, if there is one. */
    method PressBackspace()
      modifies this
      ensures text == if old(text) == [] then [] else old(text)[..|old(text)| - 1]
      ensures submitted == old(submitted)
    {
      if text != [] {
        text := text[..|text| - 1];
      }
    }

    /** `submit_button.click()`: the current text is sent. */
    method ClickSubmit()
      modifies this
      ensures submitted == old(submitted) + [old(text)]
      ensures text == if clearsOnSubmit then "" else old(text)
    {
      submitted := submitted + [text];
      if clearsOnSubmit {
        text := "";
      }
    }
  }

  /** The text left and the words sent by one iteration of the loop, starting from `text`. */
  function Attempt(text: string, word: string, visible: bool, clears: bool): (outcome: (string, seq<string>))
    ensures outcome.0 == text || outcome.0 == ""
    ensures |outcome.1| <= 1
  {
    ((if visible && clears then "" else text), (if visible then [text + word] else []))
  }

  /** One iteration of the loop body. */
  method TryWord(field: InputField, word: string, visible: bool)
    modifies field
    ensures var outcome := Attempt(old(field.text), word, visible, field.clearsOnSubmit);
            field.text == outcome.0 && field.submitted == old(field.submitted) + outcome.1
  {
    ghost var start, sent := field.text, field.submitted;
    field.Type(word);
    if visible {
      field.ClickSubmit();
    }
    ghost var afterClick := field.submitted;
    for i := 0 to |word|
      invariant field.submitted == afterClick
      invariant visible && field.clearsOnSubmit ==> field.text == ""
      invariant !(visible && field.clearsOnSubmit) ==> field.text == start + word[..|word| - i]
    {
      field.PressBackspace();
      if !(visible && field.clearsOnSubmit) {
        assert (start + word[..|word| - i])[..|start + word[..|word| - i]| - 1]
               == start + word[..|word| - (i + 1)];
      }
    }
    assert |word| - |word| == 0 && start + word[..0] == start;
  }

  /** What the loop does to the field for the whole word queue. */
  function Session(text: string, queue: seq<string>, visible: seq<bool>, clears: bool): (outcome: (string, seq<string>))
    requires |visible| == |queue|
    ensures |outcome.1| <= |queue|
    decreases |queue|
  {
    if queue == [] then (text, [])
    else
      var first := Attempt(text, queue[0], visible[0], clears);
      var rest := Session(first.0, queue[1..], visible[1..], clears);
      (rest.0, first.1 + rest.1)
  }

  /** Running the loop over one more word continues from where the shorter run stopped. */
  lemma {:induction false} SessionSnoc(text: string, queue: seq<string>, visible: seq<bool>, clears: bool,
                                       word: string, shown: bool)
    requires |visible| == |queue|
    decreases |queue|
    ensures var before := Session(text, queue, visible, clears);
            var last := Attempt(before.0, word, shown, clears);
            Session(text, queue + [word], visible + [shown], clears) == (last.0, before.1 + last.1)
  {
    if queue == [] {
      assert queue + [word] == [word] && visible + [shown] == [shown];
      assert [word][1..] == [] && [shown][1..] == [];
      var last := Attempt(text, word, shown, clears);
      assert [] + last.1 == last.1 && last.1 + [] == last.1;
    } else {
      var first := Attempt(text, queue[0], visible[0], clears);
      assert (queue + [word])[0] == queue[0] && (queue + [word])[1..] == queue[1..] + [word];
      assert (visible + [shown])[0] == visible[0] && (visible + [shown])[1..] == visible[1..] + [shown];
      SessionSnoc(first.0, queue[1..], visible[1..], clears, word, shown);
      var before' := Session(first.0, queue[1..], visible[1..], clears);
      var last := Attempt(before'.0, word, shown, clears);
      assert first.1 + (before'.1 + last.1) == (first.1 + before'.1) + last.1;
    }
  }

  /** The field holds `text` and `submitted` after the loop ran over `queue` from `start` and `sent`. */
  predicate Reached(text: string, submitted: seq<string>, start: string, sent: seq<string>,
                    queue: seq<string>, visible: seq<bool>, clears: bool)
    requires |visible| == |queue|
  {
    var outcome := Session(start, queue, visible, clears);
    text == outcome.0 && submitted == sent + outcome.1
  }

  /** Trying the next word from a reached state reaches the state for the longer queue. */
  lemma ReachedNext(text: string, submitted: seq<string>, start: string, sent: seq<string>,
                    queue: seq<string>, visible: seq<bool>, clears: bool,
                    word: string, shown: bool, text': string, submitted': seq<string>)
    requires |visible| == |queue| && Reached(text, submitted, start, sent, queue, visible, clears)
    requires var outcome := Attempt(text, word, shown, clears);
             text' == outcome.0 && submitted' == submitted + outcome.1
    ensures Reached(text', submitted', start, sent, queue + [word], visible + [shown], clears)
  {
    SessionSnoc(start, queue, visible, clears, word, shown);
    var before := Session(start, queue, visible, clears);
    var last := Attempt(before.0, word, shown, clears);
    assert sent + before.1 + last.1 == sent + (before.1 + last.1);
  }

  /**
   * The loop: every ranked word is tried in turn, with `visible[i]` the visibility of the
   * submit button after typing `queue[i]`.
   */
  method SubmitAll(field: InputField, queue: seq<string>, visible: seq<bool>)
    requires |visible| == |queue|
    modifies field
    ensures var outcome := Session(old(field.text), queue, visible, field.clearsOnSubmit);
            field.text == outcome.0 && field.submitted == old(field.submitted) + outcome.1
  {
    ghost var start, sent := field.text, field.submitted;
    assert queue[..0] == [] && visible[..0] == [];
    for i := 0 to |queue|
      invariant Reached(field.text, field.submitted, start, sent, queue[..i], visible[..i], field.clearsOnSubmit)
    {
      ghost var text, submitted := field.text, field.submitted;
      TryWord(field, queue[i], visible[i]);
      ReachedNext(text, submitted, start, sent, queue[..i], visible[..i], field.clearsOnSubmit,
                  queue[i], visible[i], field.text, field.submitted);
      assert queue[..i + 1] == queue[..i] + [queue[i]] && visible[..i + 1] == visible[..i] + [visible[i]];
    }
    assert queue[..|queue|] == queue && visible[..|queue|] == visible;
  }

  /** The words whose submit button was visible, in queue order. */
  function VisibleWords(queue: seq<string>, visible: seq<bool>): (words: seq<string>)
    requires |visible| == |queue|
    ensures |words| <= |queue|
    ensures forall w :: w in words ==> w in queue
  {
    if queue == [] then []
    else (if visible[0] then [queue[0]] else []) + VisibleWords(queue[1..], visible[1..])
  }

  /**
   * Starting from an empty input, every iteration leaves it empty again, clicked or not,
   * so each submission is exactly the word typed.
   */
  lemma {:induction false} SessionFromEmpty(queue: seq<string>, visible: seq<bool>, clears: bool)
    requires |visible| == |queue|
    ensures Session("", queue, visible, clears) == ("", VisibleWords(queue, visible))
  {
    if queue != [] {
      assert "" + queue[0] == queue[0];
      SessionFromEmpty(queue[1..], visible[1..], clears);
    }
  }

  /** With the button always visible, every word of the queue is submitted, in order. */
  lemma {:induction false} AllVisibleSubmitsQueue(queue: seq<string>, visible: seq<bool>)
    requires |visible| == |queue| && forall i :: 0 <= i < |visible| ==> visible[i]
    ensures VisibleWords(queue, visible) == queue
  {
    if queue != [] {
      assert forall i :: 0 <= i < |visible[1..]| ==> visible[1..][i] == visible[i + 1];
      AllVisibleSubmitsQueue(queue[1..], visible[1..]);
      assert [queue[0]] + queue[1..] == queue;
    }
  }
}
