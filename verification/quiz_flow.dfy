/**
 * The quiz component's state, `(currentQuestion, answers, showResult,
 * email)`, and its three transitions `handleAnswer`, `goBack` and
 * `resetQuiz`, as pure functions from state to state.
 */
module QuizFlow {
  import opened Wrappers
  import opened QuizData
  import opened QuizScoring

  datatype QuizState = QuizState(
    currentQuestion: nat,
    answers: seq<string>,
    showResult: bool,
    email: string)

  /** The state the component mounts with. */
  const Initial := QuizState(0, [], false, "")

  /**
   * `handleAnswer`: append the answer, then move to the next question or,
   * at the last one, show the result.
   */
  function HandleAnswer(s: QuizState, answer: string): (r: QuizState)
    ensures |r.answers| == |s.answers| + 1 && r.answers[..|s.answers|] == s.answers && r.answers[|s.answers|] == answer
    ensures r.showResult <==> s.showResult || s.currentQuestion + 1 >= |Questions|
    ensures r.currentQuestion < |Questions| <==> s.currentQuestion < |Questions|
    ensures s.currentQuestion < |Questions| - 1 ==>
      r.currentQuestion == s.currentQuestion + 1 && r.showResult == s.showResult
    ensures s.currentQuestion >= |Questions| - 1 ==> r.currentQuestion == s.currentQuestion && r.showResult
    ensures r.email == s.email
  {
    var newAnswers := s.answers + [answer];
    if s.currentQuestion < |Questions| - 1 then
      s.(currentQuestion := s.currentQuestion + 1, answers := newAnswers)
    else
      s.(answers := newAnswers, showResult := true)
  }

  /** `answers.slice(0, -1)`: everything but the last element, and `[]` for `[]`. */
  function DropLast(xs: seq<string>): (r: seq<string>)
    ensures |xs| > 0 ==> r + [xs[|xs| - 1]] == xs
    ensures |xs| == 0 ==> r == []
  {
    if |xs| == 0 then [] else xs[..|xs| - 1]
  }

  /** `goBack`: return to the previous question and forget its answer; nothing at question 0. */
  function GoBack(s: QuizState): (r: QuizState)
    ensures s.currentQuestion == 0 ==> r == s
    ensures s.currentQuestion > 0 ==> r.currentQuestion + 1 == s.currentQuestion
    ensures s.currentQuestion > 0 && |s.answers| > 0 ==> r.answers + [s.answers[|s.answers| - 1]] == s.answers
    ensures r.showResult == s.showResult && r.email == s.email
  {
    if s.currentQuestion > 0 then
      s.(currentQuestion := s.currentQuestion - 1, answers := DropLast(s.answers))
    else
      s
  }

  /** `resetQuiz`: back to the first question with no answers, no result and no email. */
  function Reset(s: QuizState): (r: QuizState)
    ensures r == Initial
  {
    QuizState(0, [], false, "")
  }

  /** `const result = showResult ? getResult() : null`. */
  function DisplayedResult(s: QuizState): (r: Option<Result<StyleResult, QuizError>>)
    ensures r.None? <==> !s.showResult
  {
    if s.showResult then Some(GetResult(s.answers)) else None
  }

  /**
   * The phase invariant: while questions are shown the number of answers is
   * the index of the current question; once the result is shown all
   * questions are answered and the index rests on the last question. In
   * both phases every answer is an option text of its question.
   */
  predicate Valid(s: QuizState) {
    AnswersOffered(s.answers) &&
    if s.showResult then
      s.currentQuestion == |Questions| - 1 && |s.answers| == |Questions|
    else
      s.currentQuestion < |Questions| && |s.answers| == s.currentQuestion
  }

  /** What the rendered component lets the user do. */
  datatype Event =
    | Pick(option: nat)  // click on an option button of the current question
    | Back               // click on "Back"
    | Retake             // click on "Retake Quiz"

  /**
   * One user event. Option buttons and "Back" exist only while questions are
   * shown, "Retake Quiz" only on the result view; "Back" is disabled at the
   * first question. An event without a button leaves the state alone.
   */
  function Step(s: QuizState, e: Event): (r: QuizState)
    ensures s.showResult ==> r == (if e.Retake? then Initial else s)
    ensures !s.showResult && (e.Retake? || (e.Back? && s.currentQuestion == 0)) ==> r == s
    ensures !s.showResult && e.Back? && s.currentQuestion > 0 ==>
      r.currentQuestion + 1 == s.currentQuestion && r.answers == DropLast(s.answers)
    ensures !s.showResult && e.Back? ==> r == GoBack(s)
    ensures !s.showResult && e.Pick? && s.currentQuestion < |Questions| ==>
      if e.option < |Questions[s.currentQuestion].options|
      then r == HandleAnswer(s, OptionAt(s.currentQuestion, e.option).text) &&
        r.answers == s.answers + [OptionAt(s.currentQuestion, e.option).text]
      else r == s
    ensures r.email == s.email || r == Initial
  {
    match e
    case Pick(o) =>
      if !s.showResult && s.currentQuestion < |Questions| && o < |Questions[s.currentQuestion].options|
      then HandleAnswer(s, Questions[s.currentQuestion].options[o].text)
      else s
    case Back =>
      if !s.showResult && s.currentQuestion > 0 then GoBack(s) else s
    case Retake =>
      if s.showResult then Reset(s) else s
  }

  /** The state after a sequence of user events. */
  function Run(s: QuizState, events: seq<Event>): QuizState
    decreases |events|
  {
    if |events| == 0 then s else Run(Step(s, events[0]), events[1..])
  }

  lemma InitialValid()
    ensures Valid(Initial) && !Initial.showResult && Initial.currentQuestion == 0
  {
  }

  /** Answering the current question with one of its options keeps the invariant. */
  lemma HandleAnswerValid(s: QuizState, o: nat)
    requires Valid(s) && !s.showResult && o < |Questions[s.currentQuestion].options|
    ensures Valid(HandleAnswer(s, Questions[s.currentQuestion].options[o].text))
  {
    FourOptionsEach();
    var a := Questions[s.currentQuestion].options[o].text;
    var r := HandleAnswer(s, a);
    assert |r.answers| <= |Questions|;
    forall i | 0 <= i < |r.answers|
      ensures OfferedAt(i, r.answers[i])
    {
      if i < |s.answers| {
        assert r.answers[i] == s.answers[i];
      } else {
        assert r.answers[i] == a && Questions[i].options[o].text == a;
      }
    }
  }

  /** Going back while questions are shown keeps the invariant. */
  lemma GoBackValid(s: QuizState)
    requires Valid(s) && !s.showResult
    ensures Valid(GoBack(s))
  {
    var r := GoBack(s);
    if s.currentQuestion > 0 {
      assert r.answers == s.answers[..|s.answers| - 1];
      forall i | 0 <= i < |r.answers|
        ensures OfferedAt(i, r.answers[i])
      {
        assert r.answers[i] == s.answers[i];
      }
    }
  }

  /** Every user event keeps the invariant. */
  lemma StepValid(s: QuizState, e: Event)
    requires Valid(s)
    ensures Valid(Step(s, e))
  {
    match e
    case Pick(o) =>
      if !s.showResult && s.currentQuestion < |Questions| && o < |Questions[s.currentQuestion].options| {
        HandleAnswerValid(s, o);
      }
    case Back =>
      if !s.showResult && s.currentQuestion > 0 {
        GoBackValid(s);
      }
    case Retake =>
      InitialValid();
  }

  /** Every state the user can reach from the initial one satisfies the invariant. */
  lemma {:induction false} RunValid(s: QuizState, events: seq<Event>)
    requires Valid(s)
    ensures Valid(Run(s, events))
    decreases |events|
  {
    if |events| > 0 {
      StepValid(s, events[0]);
      RunValid(Step(s, events[0]), events[1..]);
    }
  }

  /**
   * Whatever the user clicks, the result view, when it is shown, holds the
   * Bohemian record or the Contemporary one; `getResult` never throws there.
   */
  lemma ReachableResults(events: seq<Event>)
    ensures var s := Run(Initial, events);
      Valid(s) &&
      (s.showResult ==> DisplayedResult(s) == Some(Success(BohemianFreeSpirit)) ||
                        DisplayedResult(s) == Some(Success(ContemporarySophisticate)))
  {
    InitialValid();
    RunValid(Initial, events);
    var s := Run(Initial, events);
    if s.showResult {
      CompletedQuizResult(s.answers);
    }
  }

  /** Going back undoes an answer that did not complete the quiz. */
  lemma GoBackUndoesAnswer(s: QuizState, answer: string)
    requires Valid(s) && !s.showResult && s.currentQuestion + 1 < |Questions|
    ensures GoBack(HandleAnswer(s, answer)) == s
  {
    var r := HandleAnswer(s, answer);
    assert DropLast(r.answers) == s.answers;
  }

  /** Answering again with the answer `goBack` dropped restores the state before it. */
  lemma AnswerRedoesGoBack(s: QuizState)
    requires Valid(s) && !s.showResult && s.currentQuestion > 0
    ensures HandleAnswer(GoBack(s), s.answers[|s.answers| - 1]) == s
  {
  }

  /** No result is computed while the quiz is in progress, in particular with no answers. */
  lemma NoResultInProgress(s: QuizState)
    requires Valid(s) && (!s.showResult || |s.answers| < |Questions|)
    ensures DisplayedResult(s) == None
  {
  }
}
