/**
 * The student page (`StudentExerciseViewer` in student.js): one exercise at a time with
 * previous/next navigation, a progress bar, and a chat whose requests carry the exercise text
 * only when the conversation starts or the student has moved to another exercise.
 *
 * The URL's `id` parameter and the saved exercise set are inputs; the outcome of the chat
 * request is an input (`None` when it failed). What the page shows is kept in fields.
 */
module StudentViewer {
  import opened Wrappers
  import opened JsString
  import MathSpans
  import HtmlEscape

  /** One entry of `chatHistory`, or one message shown in the chat window. */
  datatype ChatEntry = ChatEntry(role: string, content: string)

  /** The body of the POST to `/api/chat`. */
  datatype ChatRequest = ChatRequest(
    message: string,
    exerciseContent: Option<string>,
    chatHistory: seq<ChatEntry>,
    exerciseSetId: Option<string>)

  /** What `localStorage` holds for an exercise set: its title and the texts of its exercises. */
  datatype SavedSet = SavedSet(title: string, exercises: seq<string>)

  const NoIdError: string := "No exercise set found. Please check the link."
  const NotFoundError: string := "Exercise set not found or has expired."
  const NoExercisesError: string := "No exercises available."
  const ReplyFailedText: string := "Sorry, I had trouble responding. Please try again."

  /** The width of the progress bar, in percent. */
  function Progress(index: nat, total: nat): real
    requires index < total
  {
    ((index + 1) as real / total as real) * 100.0
  }

  /** The text under the progress bar. */
  function ProgressLabel(index: nat, total: nat): string {
    "Exercise " + NatToString(index + 1) + " of " + NatToString(total)
  }

  /** The bar is never empty, full exactly at the last exercise, and grows with every step. */
  lemma ProgressFacts(index: nat, total: nat)
    requires index < total
    ensures 0.0 < Progress(index, total) <= 100.0
    ensures Progress(index, total) == 100.0 <==> index == total - 1
    ensures index + 1 < total ==> Progress(index, total) < Progress(index + 1, total)
  {
    var t := total as real;
    assert (index + 1) as real <= t;
    assert Progress(index, total) == (index + 1) as real * (100.0 / t);
    if index + 1 < total {
      assert Progress(index + 1, total) == (index + 2) as real * (100.0 / t);
    }
  }

  /** The label names the exercise's number and the count, and no two exercises share it. */
  lemma ProgressLabelNamesExercise(i: nat, j: nat, total: nat)
    requires ProgressLabel(i, total) == ProgressLabel(j, total)
    ensures i == j
  {
    var a, b := NatToString(i + 1), NatToString(j + 1);
    var n := NatToString(total);
    var head := "Exercise ";
    assert ProgressLabel(i, total) == head + a + (" of " + n);
    assert ProgressLabel(j, total) == head + b + (" of " + n);
    assert |a| == |b|;
    assert ProgressLabel(i, total)[9..9 + |a|] == a;
    assert ProgressLabel(j, total)[9..9 + |b|] == b;
    NatToStringInjective(i + 1, j + 1);
  }

  /**
   * The exercise text attached to a chat request: the current one when the history is empty
   * or the exercise changed since the last send, and none otherwise (and none when there is no
   * exercise at that index, as `?.` gives).
   */
  function Attached(exercises: seq<string>, current: int, last: int, history: seq<ChatEntry>): (r: Option<string>)
    ensures r.Some? <==> (|history| == 0 || last != current) && 0 <= current < |exercises|
    ensures r.Some? ==> r.value == exercises[current]
  {
    if (|history| == 0 || last != current) && 0 <= current < |exercises| then Some(exercises[current])
    else None
  }

  /** Once a reply came back, asking again about the same exercise sends no exercise text. */
  lemma AttachedOnce(exercises: seq<string>, current: int, history: seq<ChatEntry>, e1: ChatEntry, e2: ChatEntry)
    ensures Attached(exercises, current, current, history + [e1, e2]).None?
  {
  }

  /** After a failed first request the history is still empty, so the next one attaches the text again. */
  lemma AttachedAfterFailure(exercises: seq<string>, current: int, last: int)
    requires 0 <= current < |exercises|
    ensures Attached(exercises, current, last, []) == Some(exercises[current])
  {
  }

  /** Moving to another exercise attaches that exercise's text, whatever the history. */
  lemma AttachedAfterMove(exercises: seq<string>, current: int, last: int, history: seq<ChatEntry>)
    requires 0 <= current < |exercises| && last != current
    ensures Attached(exercises, current, last, history) == Some(exercises[current])
  {
  }

  /** What the exercise view shows: number, text, button states and progress bar. */
  datatype ExerciseView = ExerciseView(
    number: int,
    html: string,
    prevDisabled: bool,
    nextDisabled: bool,
    progressWidth: real,
    progressText: string)

  /** The exercise view before anything was displayed. */
  const BlankView: ExerciseView := ExerciseView(0, "", false, false, 0.0, "")

  class StudentExerciseViewer {
    var exerciseId: Option<string>
    var title: string
    var exercises: seq<string>
    var currentExerciseIndex: int
    var lastExerciseIndex: int
    var chatHistory: seq<ChatEntry>
    /** The error shown in place of the title, if any. */
    var error: Option<string>
    /** Whether the access of the set was reported to the server. */
    var accessTracked: bool
    /** Whether the exercise view replaced the title section. */
    var viewShown: bool
    var view: ExerciseView
    /** The messages shown in the chat window, in order. */
    var messages: seq<ChatEntry>

    /** The index is the first one, or one within the exercises. */
    predicate Valid()
      reads this
    {
      currentExerciseIndex == 0 || 0 < currentExerciseIndex < |exercises|
    }

    /**
     * The constructor and `loadExerciseSet`: an `id` that is missing or empty, or a set that was
     * not saved, shows an error and leaves the list empty; otherwise the saved exercises and
     * title are taken and the access is reported.
     */
    constructor (id: Option<string>, saved: Option<SavedSet>)
      ensures Valid()
      ensures currentExerciseIndex == 0 && lastExerciseIndex == -1 && chatHistory == [] && messages == []
      ensures exerciseId == id && !viewShown
      ensures id.None? || id.value == [] ==> error == Some(NoIdError) && exercises == [] && !accessTracked
      ensures id.Some? && id.value != [] && saved.None? ==> error == Some(NotFoundError) && exercises == [] && !accessTracked
      ensures id.Some? && id.value != [] && saved.Some? ==>
                error.None? && exercises == saved.value.exercises && title == saved.value.title && accessTracked
    {
      exerciseId := id;
      exercises := [];
      currentExerciseIndex := 0;
      lastExerciseIndex := -1;
      chatHistory := [];
      messages := [];
      title := "";
      error := None;
      accessTracked := false;
      viewShown := false;
      view := BlankView;
      new;
      if id.None? || id.value == [] {
        error := Some(NoIdError);
      } else if saved.None? {
        error := Some(NotFoundError);
      } else {
        exercises := saved.value.exercises;
        title := saved.value.title;
        accessTracked := true;
      }
    }

    /** `escapeHtml`: the math spans set aside, the rest escaped, the spans put back. */
    method EscapeHtml(text: string) returns (html: string)
      ensures html == HtmlEscape.Escaped(text)
    {
      var mathPlaceholders: seq<string> := [];
      var processedText := text;
      ghost var pass := MathSpans.Pass(text, []);
      HtmlEscape.AfterPassPushes(MathSpans.Bracket, pass);
      var found := MathSpans.Scan(MathSpans.Bracket, processedText, |mathPlaceholders|);
      processedText := found.text;
      mathPlaceholders := mathPlaceholders + HtmlEscape.Originals(found.spans);
      pass := HtmlEscape.AfterPass(MathSpans.Bracket, pass);
      HtmlEscape.AfterPassPushes(MathSpans.DoubleDollar, pass);
      found := MathSpans.Scan(MathSpans.DoubleDollar, processedText, |mathPlaceholders|);
      processedText := found.text;
      mathPlaceholders := mathPlaceholders + HtmlEscape.Originals(found.spans);
      pass := HtmlEscape.AfterPass(MathSpans.DoubleDollar, pass);
      HtmlEscape.AfterPassPushes(MathSpans.Dollar, pass);
      found := MathSpans.Scan(MathSpans.Dollar, processedText, |mathPlaceholders|);
      processedText := found.text;
      mathPlaceholders := mathPlaceholders + HtmlEscape.Originals(found.spans);
      pass := HtmlEscape.AfterPass(MathSpans.Dollar, pass);
      assert pass == HtmlEscape.Protect(text);

      ghost var protected := processedText;
      processedText := HtmlEscape.ReplaceAllChar(processedText, '&', "&amp;");
      processedText := HtmlEscape.ReplaceAllChar(processedText, '<', "&lt;");
      processedText := HtmlEscape.ReplaceAllChar(processedText, '>', "&gt;");
      processedText := HtmlEscape.ReplaceAllChar(processedText, '"', "&quot;");
      processedText := HtmlEscape.ReplaceAllChar(processedText, '\'', "&#39;");
      assert processedText == HtmlEscape.EscapeChain(protected);
      HtmlEscape.EscapeChainIsCharMap(protected);
      ghost var escaped := processedText;

      for index := 0 to |mathPlaceholders|
        invariant processedText == HtmlEscape.RestoreN(escaped, mathPlaceholders, index)
      {
        var expression := mathPlaceholders[index];
        var placeholder := if Includes(expression, "$$")
          then MathSpans.Placeholder(MathSpans.Display, index)
          else MathSpans.Placeholder(MathSpans.Inline, index);
        processedText := JsReplace(processedText, placeholder, expression);
      }
      html := processedText;
    }

    /**
     * `displayCurrentExercise`: the exercise's number and escaped text, the buttons disabled at
     * the ends of the list, and the progress bar.
     */
    method DisplayCurrentExercise()
      requires Valid() && |exercises| > 0
      modifies this`view
      ensures view.number == currentExerciseIndex + 1
      ensures view.html == HtmlEscape.Escaped(exercises[currentExerciseIndex])
      ensures view.prevDisabled <==> currentExerciseIndex == 0
      ensures view.nextDisabled <==> currentExerciseIndex == |exercises| - 1
      ensures view.progressWidth == Progress(currentExerciseIndex, |exercises|)
      ensures view.progressText == ProgressLabel(currentExerciseIndex, |exercises|)
    {
      var exercise := exercises[currentExerciseIndex];
      var html := EscapeHtml(exercise);
      view := view.(number := currentExerciseIndex + 1, html := html,
        prevDisabled := currentExerciseIndex == 0, nextDisabled := currentExerciseIndex == |exercises| - 1);
      UpdateProgressBar();
    }

    /** `updateProgressBar`. */
    method UpdateProgressBar()
      requires Valid() && |exercises| > 0
      modifies this`view
      ensures view == old(view).(progressWidth := Progress(currentExerciseIndex, |exercises|),
        progressText := ProgressLabel(currentExerciseIndex, |exercises|))
    {
      var progress := ((currentExerciseIndex + 1) as real / |exercises| as real) * 100.0;
      view := view.(progressWidth := progress,
        progressText := "Exercise " + NatToString(currentExerciseIndex + 1) + " of " + NatToString(|exercises|));
    }

    /** `showExercises`: an error for an empty list, otherwise the view opens on the first exercise. */
    method ShowExercises()
      requires Valid()
      modifies this`error, this`viewShown, this`currentExerciseIndex, this`view
      ensures Valid()
      ensures |exercises| == 0 ==>
                error == Some(NoExercisesError) && currentExerciseIndex == old(currentExerciseIndex)
                && viewShown == old(viewShown) && view == old(view)
      ensures |exercises| > 0 ==>
                currentExerciseIndex == 0 && viewShown && error == old(error)
                && view.html == HtmlEscape.Escaped(exercises[0]) && view.prevDisabled
                && (view.nextDisabled <==> |exercises| == 1)
    {
      if |exercises| == 0 {
        error := Some(NoExercisesError);
        return;
      }
      viewShown := true;
      currentExerciseIndex := 0;
      DisplayCurrentExercise();
    }

    /** `previousExercise`: one step back, nothing at the first exercise. */
    method PreviousExercise()
      requires Valid()
      modifies this`currentExerciseIndex, this`view
      ensures Valid()
      ensures currentExerciseIndex == if old(currentExerciseIndex) > 0 then old(currentExerciseIndex) - 1 else old(currentExerciseIndex)
      ensures old(currentExerciseIndex) > 0 ==>
                view.html == HtmlEscape.Escaped(exercises[currentExerciseIndex]) && !view.nextDisabled
                && (view.prevDisabled <==> currentExerciseIndex == 0)
      ensures old(currentExerciseIndex) == 0 ==> view == old(view)
    {
      if currentExerciseIndex > 0 {
        currentExerciseIndex := currentExerciseIndex - 1;
        DisplayCurrentExercise();
      }
    }

    /** `nextExercise`: one step on, nothing at the last exercise or with no exercises. */
    method NextExercise()
      requires Valid()
      modifies this`currentExerciseIndex, this`view
      ensures Valid()
      ensures currentExerciseIndex ==
                if old(currentExerciseIndex) < |exercises| - 1 then old(currentExerciseIndex) + 1 else old(currentExerciseIndex)
      ensures old(currentExerciseIndex) < |exercises| - 1 ==>
                view.html == HtmlEscape.Escaped(exercises[currentExerciseIndex]) && !view.prevDisabled
                && (view.nextDisabled <==> currentExerciseIndex == |exercises| - 1)
      ensures old(currentExerciseIndex) >= |exercises| - 1 ==> view == old(view)
    {
      if currentExerciseIndex < |exercises| - 1 {
        currentExerciseIndex := currentExerciseIndex + 1;
        DisplayCurrentExercise();
      }
    }

    /**
     * `sendMessage` for what the input holds and the outcome of the request (`None` when it
     * failed): a blank message changes nothing; otherwise the request is sent with the exercise
     * text when `Attached` says so, the exercise is remembered, the message and the reply (or an
     * apology) are shown, and only a reply extends the history, by the message and the reply.
     */
    method SendMessage(input: string, reply: Option<string>) returns (request: Option<ChatRequest>)
      modifies this`messages, this`chatHistory, this`lastExerciseIndex
      ensures Trim(input) == [] ==>
                request.None? && chatHistory == old(chatHistory) && lastExerciseIndex == old(lastExerciseIndex)
                && messages == old(messages)
      ensures Trim(input) != [] ==>
                && request == Some(ChatRequest(Trim(input),
                     Attached(old(exercises), old(currentExerciseIndex), old(lastExerciseIndex), old(chatHistory)),
                     old(chatHistory), old(exerciseId)))
                && lastExerciseIndex == old(currentExerciseIndex)
                && chatHistory == old(chatHistory) +
                     (if reply.Some? then [ChatEntry("user", Trim(input)), ChatEntry("assistant", reply.value)] else [])
                && messages == old(messages) +
                     [ChatEntry("user", Trim(input)), ChatEntry("assistant", if reply.Some? then reply.value else ReplyFailedText)]
    {
      var message := Trim(input);
      if message == [] {
        return None;
      }
      ghost var attached := Attached(exercises, currentExerciseIndex, lastExerciseIndex, chatHistory);
      var asked := ChatEntry("user", message);
      messages := messages + [asked];
      var exerciseContent: Option<string> :=
        if (|chatHistory| == 0 || lastExerciseIndex != currentExerciseIndex) && 0 <= currentExerciseIndex < |exercises|
        then Some(exercises[currentExerciseIndex])
        else None;
      assert exerciseContent == attached;
      lastExerciseIndex := currentExerciseIndex;
      request := Some(ChatRequest(message, exerciseContent, chatHistory, exerciseId));
      var answer := ChatEntry("assistant", if reply.Some? then reply.value else ReplyFailedText);
      assert messages + [answer] == old(messages) + [asked, answer];
      if reply.Some? {
        messages := messages + [answer];
        chatHistory := chatHistory + [asked, answer];
      } else {
        messages := messages + [answer];
      }
    }
  }
}
