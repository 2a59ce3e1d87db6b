/**
 The multiple-choice quiz: one question at a time, an answer must be chosen
 before moving on, and after the last question a result screen shows the
 score and reviews every question that was not answered correctly.
 */
module Quiz {
  import opened Optional

  /** A question as the quiz sees it: the offered options and the expected one
      (the prompt and the explanation are only displayed). */
  datatype Question = Question(options: seq<string>, correctAnswer: string)

  /** `currentQuestionIndex`, `selectedAnswer`, `userAnswers` and `showResult`. */
  datatype State = State(index: nat, selected: Option<string>, answers: seq<Option<string>>, showResult: bool)

  datatype AdvanceLabel = NextQuestion | FinishQuiz

  /** What the result screen shows: the score and the indices of the questions to review. */
  datatype Report = Report(score: nat, incorrect: seq<nat>)

  // --------------------------------------------------------- transitions

  function Initial(): State {
    State(0, None, [], false)
  }

  /** The radio group's change handler. */
  function Select(s: State, answer: string): State {
    s.(selected := Some(answer))
  }

  /** `handleNext`: record the selection, then move on or finish. */
  function Advance(questions: seq<Question>, s: State): State {
    var answers := s.answers + [s.selected];
    if s.index < |questions| - 1 then State(s.index + 1, None, answers, s.showResult)
    else State(s.index, None, answers, true)
  }

  /** The advance button is disabled while the selection is null or empty. */
  predicate CanAdvance(s: State) {
    s.selected.Some? && s.selected.value != ""
  }

  function AdvanceLabelOf(questions: seq<Question>, s: State): AdvanceLabel {
    if s.index < |questions| - 1 then NextQuestion else FinishQuiz
  }

  // ------------------------------------------------------- the interface

  datatype Event = Choose(option: string) | Next | Restart

  /** What the screen offers: the options of the current question and the advance
      button while a question is shown, the restart button on the result screen. */
  predicate Enabled(questions: seq<Question>, s: State, e: Event) {
    match e
    case Choose(option) => !s.showResult && s.index < |questions| && option in questions[s.index].options
    case Next => !s.showResult && CanAdvance(s)
    case Restart => s.showResult
  }

  function Apply(questions: seq<Question>, s: State, e: Event): State {
    match e
    case Choose(option) => Select(s, option)
    case Next => Advance(questions, s)
    case Restart => Initial()
  }

  predicate ValidRun(questions: seq<Question>, s: State, es: seq<Event>)
    decreases |es|
  {
    |es| == 0 || (Enabled(questions, s, es[0]) && ValidRun(questions, Apply(questions, s, es[0]), es[1..]))
  }

  function Final(questions: seq<Question>, s: State, es: seq<Event>): State
    decreases |es|
  {
    if |es| == 0 then s else Final(questions, Apply(questions, s, es[0]), es[1..])
  }

  // ----------------------------------------------------------- invariant

  /** The answer recorded for question `i` is a non-empty option of that question. */
  predicate RecordedOption(questions: seq<Question>, answers: seq<Option<string>>, i: nat)
    requires i < |answers| <= |questions|
  {
    answers[i].Some? && answers[i].value != "" && answers[i].value in questions[i].options
  }

  /** While a question is shown, one answer has been recorded per earlier question;
      on the result screen, one per question, and the index rests on the last one. */
  predicate Inv(questions: seq<Question>, s: State) {
    && |questions| > 0
    && |s.answers| <= |questions|
    && (forall i :: 0 <= i < |s.answers| ==> RecordedOption(questions, s.answers, i))
    && if s.showResult then
         s.index == |questions| - 1 && |s.answers| == |questions| && s.selected == None
       else
         s.index == |s.answers| < |questions|
         && (s.selected.Some? ==> s.selected.value in questions[s.index].options)
  }

  /** The initial state and the restart both land in the state with index 0, no
      selection, no answers and no result; it satisfies the invariant exactly when
      there is a question to show. */
  lemma StartState(questions: seq<Question>, s: State)
    ensures Initial().index == 0 && Initial().selected == None
    ensures Initial().answers == [] && !Initial().showResult
    ensures Apply(questions, s, Restart) == Initial()
    ensures Inv(questions, Initial()) <==> |questions| > 0
  {
  }

  /** Choosing an option replaces the selection and nothing else. */
  lemma SelectStep(questions: seq<Question>, s: State, option: string)
    requires Inv(questions, s) && Enabled(questions, s, Choose(option))
    ensures var r := Apply(questions, s, Choose(option));
      && Inv(questions, r)
      && r.selected == Some(option)
      && r.index == s.index && r.answers == s.answers && r.showResult == s.showResult
  {
  }

  /** Advancing records exactly the selection and clears it; before the last question it
      moves to the next one, on the last it opens the result screen with every question
      answered. The button label announces which. */
  lemma AdvanceStep(questions: seq<Question>, s: State)
    requires Inv(questions, s) && Enabled(questions, s, Next)
    ensures var r := Apply(questions, s, Next);
      && Inv(questions, r)
      && r.answers == s.answers + [s.selected]
      && r.selected == None
      && (r.showResult <==> AdvanceLabelOf(questions, s) == FinishQuiz)
      && (!r.showResult ==> r.index == s.index + 1)
      && (r.showResult ==> r.index == s.index && |r.answers| == |questions|)
  {
    var r := Advance(questions, s);
    forall i | 0 <= i < |r.answers| ensures RecordedOption(questions, r.answers, i) {
      if i < |s.answers| {
        assert RecordedOption(questions, s.answers, i);
      }
    }
  }

  lemma Step(questions: seq<Question>, s: State, e: Event)
    requires Inv(questions, s) && Enabled(questions, s, e)
    ensures Inv(questions, Apply(questions, s, e))
  {
    match e
    case Choose(option) => SelectStep(questions, s, option);
    case Next => AdvanceStep(questions, s);
    case Restart => StartState(questions, s);
  }

  lemma {:induction false} RunKeepsInv(questions: seq<Question>, s: State, es: seq<Event>)
    requires Inv(questions, s) && ValidRun(questions, s, es)
    ensures Inv(questions, Final(questions, s, es))
    decreases |es|
  {
    if |es| > 0 {
      Step(questions, s, es[0]);
      RunKeepsInv(questions, Apply(questions, s, es[0]), es[1..]);
    }
  }

  /** Every state the screen can reach from the start satisfies the invariant; in
      particular every recorded answer is a non-empty option of its question. */
  lemma Reachable(questions: seq<Question>, es: seq<Event>)
    requires |questions| > 0 && ValidRun(questions, Initial(), es)
    ensures Inv(questions, Final(questions, Initial(), es))
  {
    StartState(questions, Initial());
    RunKeepsInv(questions, Initial(), es);
  }

  // ------------------------------------------------------------- scoring

  /** Question `i` counts as correct when an answer was recorded for it and that answer
      is the expected one; a missing answer is never correct. */
  predicate CorrectAt(questions: seq<Question>, answers: seq<Option<string>>, i: nat)
    requires i < |questions|
  {
    i < |answers| && answers[i] == Some(questions[i].correctAnswer)
  }

  /** The `reduce` over the first `n` answers: the running score. */
  function CountCorrect(questions: seq<Question>, answers: seq<Option<string>>, n: nat): (r: nat)
    requires n <= |answers| <= |questions|
    ensures r <= n
  {
    if n == 0 then 0
    else CountCorrect(questions, answers, n - 1) + (if answers[n - 1] == Some(questions[n - 1].correctAnswer) then 1 else 0)
  }

  /** The `filter` over the first `n` questions, by index. */
  function IncorrectUpTo(questions: seq<Question>, answers: seq<Option<string>>, n: nat): (r: seq<nat>)
    requires n <= |questions|
    ensures forall k :: 0 <= k < |r| ==> r[k] < n && !CorrectAt(questions, answers, r[k])
    ensures forall i :: 0 <= i < n && !CorrectAt(questions, answers, i) ==> i in r
    ensures forall j, k :: 0 <= j < k < |r| ==> r[j] < r[k]
  {
    if n == 0 then []
    else IncorrectUpTo(questions, answers, n - 1) + (if CorrectAt(questions, answers, n - 1) then [] else [n - 1])
  }

  function Score(questions: seq<Question>, answers: seq<Option<string>>): nat
    requires |answers| <= |questions|
  {
    CountCorrect(questions, answers, |answers|)
  }

  function IncorrectQuestions(questions: seq<Question>, answers: seq<Option<string>>): seq<nat> {
    IncorrectUpTo(questions, answers, |questions|)
  }

  /** The correctly answered question indices below `n`. */
  function CorrectBelow(questions: seq<Question>, answers: seq<Option<string>>, n: nat): set<nat>
    requires n <= |questions|
  {
    set i: nat | i < n && CorrectAt(questions, answers, i)
  }

  /** The set of correctly answered question indices. */
  function CorrectIndices(questions: seq<Question>, answers: seq<Option<string>>): set<nat>
    requires |answers| <= |questions|
  {
    CorrectBelow(questions, answers, |answers|)
  }

  lemma CorrectBelowStep(questions: seq<Question>, answers: seq<Option<string>>, n: nat)
    requires 0 < n <= |questions|
    ensures CorrectBelow(questions, answers, n) ==
      CorrectBelow(questions, answers, n - 1) + (if CorrectAt(questions, answers, n - 1) then {n - 1} else {})
  {
  }

  lemma {:induction false} CountCorrectIsCardinality(questions: seq<Question>, answers: seq<Option<string>>, n: nat)
    requires n <= |answers| <= |questions|
    ensures CountCorrect(questions, answers, n) == |CorrectBelow(questions, answers, n)|
  {
    if n > 0 {
      CountCorrectIsCardinality(questions, answers, n - 1);
      CorrectBelowStep(questions, answers, n);
      assert n - 1 !in CorrectBelow(questions, answers, n - 1);
    }
  }

  /** The score is the number of questions whose recorded answer is the expected one. */
  lemma ScoreCountsCorrectAnswers(questions: seq<Question>, answers: seq<Option<string>>)
    requires |answers| <= |questions|
    ensures Score(questions, answers) == |CorrectIndices(questions, answers)|
    ensures Score(questions, answers) <= |questions|
  {
    CountCorrectIsCardinality(questions, answers, |answers|);
  }

  function Min(a: nat, b: nat): nat {
    if a <= b then a else b
  }

  lemma {:induction false} AccountingUpTo(questions: seq<Question>, answers: seq<Option<string>>, n: nat)
    requires |answers| <= |questions| && n <= |questions|
    ensures CountCorrect(questions, answers, Min(n, |answers|)) + |IncorrectUpTo(questions, answers, n)| == n
  {
    if n > 0 {
      AccountingUpTo(questions, answers, n - 1);
      var before := IncorrectUpTo(questions, answers, n - 1);
      if n - 1 < |answers| {
        assert Min(n, |answers|) == n && Min(n - 1, |answers|) == n - 1;
        assert CorrectAt(questions, answers, n - 1) <==> answers[n - 1] == Some(questions[n - 1].correctAnswer);
      } else {
        assert Min(n, |answers|) == |answers| == Min(n - 1, |answers|);
        assert !CorrectAt(questions, answers, n - 1);
        assert IncorrectUpTo(questions, answers, n) == before + [n - 1];
      }
    }
  }

  /** Nothing is listed for review exactly when every question was answered correctly. */
  lemma NoneIncorrectIffAllCorrect(questions: seq<Question>, answers: seq<Option<string>>)
    ensures |IncorrectQuestions(questions, answers)| == 0 <==>
      forall i :: 0 <= i < |questions| ==> CorrectAt(questions, answers, i)
  {
    var r := IncorrectQuestions(questions, answers);
    if |r| > 0 {
      assert !CorrectAt(questions, answers, r[0]);
    }
  }

  /** Every question is either counted in the score or listed for review, never both. */
  lemma ScoreAndIncorrectPartition(questions: seq<Question>, answers: seq<Option<string>>)
    requires |answers| <= |questions|
    ensures Score(questions, answers) + |IncorrectQuestions(questions, answers)| == |questions|
  {
    AccountingUpTo(questions, answers, |questions|);
  }

  /** The result screen's content. */
  function Summarize(questions: seq<Question>, answers: seq<Option<string>>): (r: Report)
    requires |answers| <= |questions|
    ensures r.score <= |answers|
    ensures r.score + |r.incorrect| == |questions|
    ensures |r.incorrect| == 0 <==> forall i :: 0 <= i < |questions| ==> CorrectAt(questions, answers, i)
    ensures |r.incorrect| == 0 <==> r.score == |questions|
  {
    ScoreAndIncorrectPartition(questions, answers);
    NoneIncorrectIffAllCorrect(questions, answers);
    Report(Score(questions, answers), IncorrectQuestions(questions, answers))
  }

  /** On the result screen, the "all correct" banner shows exactly when every recorded
      answer is the expected one, and the review lists the rest. */
  lemma ResultScreen(questions: seq<Question>, s: State)
    requires Inv(questions, s) && s.showResult
    ensures var r := Summarize(questions, s.answers);
      && r.score + |r.incorrect| == |questions|
      && (|r.incorrect| == 0 <==>
            forall i :: 0 <= i < |questions| ==> s.answers[i] == Some(questions[i].correctAnswer))
  {
    var r := Summarize(questions, s.answers);
    if |r.incorrect| == 0 {
      forall i | 0 <= i < |questions| ensures s.answers[i] == Some(questions[i].correctAnswer) {
        assert CorrectAt(questions, s.answers, i);
      }
    } else {
      var k :| 0 <= k < |questions| && !CorrectAt(questions, s.answers, k);
      assert s.answers[k] != Some(questions[k].correctAnswer);
    }
  }

  // ------------------------------------------------------------ examples

  /** Three questions, each answered once, lead to the result screen with three answers. */
  lemma ThreeQuestionRun(q0: Question, q1: Question, q2: Question, a: string, b: string, c: string)
    requires a != "" && a in q0.options
    requires b != "" && b in q1.options
    requires c != "" && c in q2.options
    ensures var qs := [q0, q1, q2];
      var es := [Choose(a), Next, Choose(b), Next, Choose(c), Next];
      var f := Final(qs, Initial(), es);
      ValidRun(qs, Initial(), es) && f.showResult && f.answers == [Some(a), Some(b), Some(c)]
  {
    var qs := [q0, q1, q2];
    var es := [Choose(a), Next, Choose(b), Next, Choose(c), Next];
    var s1 := Select(Initial(), a);
    var s2 := Advance(qs, s1);
    var s3 := Select(s2, b);
    var s4 := Advance(qs, s3);
    var s5 := Select(s4, c);
    var s6 := Advance(qs, s5);
    assert es[1..] == [Next, Choose(b), Next, Choose(c), Next];
    assert es[2..] == [Choose(b), Next, Choose(c), Next];
    assert es[3..] == [Next, Choose(c), Next];
    assert es[4..] == [Choose(c), Next];
    assert es[5..] == [Next];
    assert Final(qs, s6, []) == s6;
    assert Final(qs, s5, es[5..]) == s6;
    assert Final(qs, s4, es[4..]) == s6;
    assert Final(qs, s3, es[3..]) == s6;
    assert Final(qs, s2, es[2..]) == s6;
    assert Final(qs, s1, es[1..]) == s6;
    assert ValidRun(qs, s5, es[5..]);
    assert ValidRun(qs, s4, es[4..]);
    assert ValidRun(qs, s3, es[3..]);
    assert ValidRun(qs, s2, es[2..]);
    assert ValidRun(qs, s1, es[1..]);
  }

  /** Two questions answered once right and once wrong score one and review the second. */
  lemma OneRightOneWrong(q0: Question, q1: Question, wrong: string)
    requires q0.correctAnswer != "" && q0.correctAnswer in q0.options
    requires wrong != "" && wrong in q1.options && wrong != q1.correctAnswer
    ensures var qs := [q0, q1];
      var es := [Choose(q0.correctAnswer), Next, Choose(wrong), Next];
      var f := Final(qs, Initial(), es);
      ValidRun(qs, Initial(), es) && f.showResult && |f.answers| == 2
      && Summarize(qs, f.answers) == Report(1, [1])
  {
    var qs := [q0, q1];
    var es := [Choose(q0.correctAnswer), Next, Choose(wrong), Next];
    var s1 := Select(Initial(), q0.correctAnswer);
    var s2 := Advance(qs, s1);
    var s3 := Select(s2, wrong);
    var s4 := Advance(qs, s3);
    assert es[1..] == [Next, Choose(wrong), Next];
    assert es[2..] == [Choose(wrong), Next];
    assert es[3..] == [Next];
    assert Final(qs, s4, []) == s4;
    assert Final(qs, s3, es[3..]) == s4;
    assert Final(qs, s2, es[2..]) == s4;
    assert Final(qs, s1, es[1..]) == s4;
    assert ValidRun(qs, s3, es[3..]);
    assert ValidRun(qs, s2, es[2..]);
    assert ValidRun(qs, s1, es[1..]);
    assert s4.answers == [Some(q0.correctAnswer), Some(wrong)];
    assert CountCorrect(qs, s4.answers, 1) == 1;
    assert IncorrectUpTo(qs, s4.answers, 1) == [];
  }
}
