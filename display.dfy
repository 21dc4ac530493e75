/**
 * The exam player of src/pages/display.jsx: one timed session over a fixed,
 * non-empty question set.  The six pieces of React state become the fields of
 * `Session`; each handler becomes a method whose new state is given by a pure
 * step function over `SessionState`, and the properties of the session are
 * proved about those step functions.  The one-second timer callback becomes
 * the explicit `Tick`, guarded by the condition under which the timer is armed.
 */
module Display {
  import opened Options
  import opened Decimal

  /** The option letters the four option buttons pass to the answer handler. */
  datatype Choice = A | B | C | D

  function Letter(c: Choice): (s: string)
    ensures |s| == 1 && 'a' <= s[0] <= 'd'
  {
    match c
    case A => "a"
    case B => "b"
    case C => "c"
    case D => "d"
  }

  /** One entry of the question file. `answer` is compared as a string with the chosen letter. */
  datatype Question = Question(
    qid: int,
    subject: string,
    question: string,
    optiona: string,
    optionb: string,
    optionc: string,
    optiond: string,
    answer: string,
    marks: int,
    duration: nat)

  /** The answer record: question id to chosen letter; an absent id is unattempted. */
  type Answers = map<int, Choice>

  // ---------------------------------------------------------------------------
  // Total exam time
  // ---------------------------------------------------------------------------

  /** `questions.reduce((total, q) => total + q.duration, 0)`, a left fold. */
  function TotalTime(qs: seq<Question>): nat
  {
    if qs == [] then 0 else TotalTime(qs[..|qs| - 1]) + qs[|qs| - 1].duration
  }

  /** Every question's duration is part of the total. */
  lemma {:induction false} DurationWithinTotal(qs: seq<Question>, i: nat)
    requires i < |qs|
    ensures qs[i].duration <= TotalTime(qs)
  {
    if i < |qs| - 1 {
      DurationWithinTotal(qs[..|qs| - 1], i);
    }
  }

  /** The total is zero exactly when every question has zero duration (then the timer never arms). */
  lemma {:induction false} TotalTimeZero(qs: seq<Question>)
    ensures TotalTime(qs) == 0 <==> forall i :: 0 <= i < |qs| ==> qs[i].duration == 0
  {
    if qs != [] {
      var init := qs[..|qs| - 1];
      TotalTimeZero(init);
      assert forall i :: 0 <= i < |init| ==> init[i] == qs[i];
    }
  }

  /** Splitting the question set splits the total. */
  lemma {:induction false} TotalTimeAppend(xs: seq<Question>, ys: seq<Question>)
    ensures TotalTime(xs + ys) == TotalTime(xs) + TotalTime(ys)
    decreases |ys|
  {
    if ys == [] {
      assert xs + ys == xs;
    } else {
      var zs := xs + ys;
      assert zs[..|zs| - 1] == xs + ys[..|ys| - 1];
      TotalTimeAppend(xs, ys[..|ys| - 1]);
    }
  }

  // ---------------------------------------------------------------------------
  // Scoring
  // ---------------------------------------------------------------------------

  /** `selectedAnswers[q.qid]` is truthy: every stored letter is a non-empty string. */
  predicate Attempted(q: Question, answers: Answers) {
    q.qid in answers
  }

  /** `selectedAnswers[q.qid] === q.answer`. */
  predicate AnsweredCorrectly(q: Question, answers: Answers) {
    q.qid in answers && Letter(answers[q.qid]) == q.answer
  }

  /** How many questions, in order, have an entry in the answer record. */
  function AttemptedCount(qs: seq<Question>, answers: Answers): (n: nat)
    ensures n <= |qs|
  {
    if qs == [] then 0
    else AttemptedCount(qs[..|qs| - 1], answers) + (if Attempted(qs[|qs| - 1], answers) then 1 else 0)
  }

  /** How many questions have an entry equal to their correct answer; never more than were attempted. */
  function CorrectCount(qs: seq<Question>, answers: Answers): (n: nat)
    ensures n <= AttemptedCount(qs, answers)
  {
    if qs == [] then 0
    else CorrectCount(qs[..|qs| - 1], answers) + (if AnsweredCorrectly(qs[|qs| - 1], answers) then 1 else 0)
  }

  /** The summary `calculateResults` returns, without the formatted percentage. */
  datatype Results = Results(correct: nat, incorrect: int, unattempted: int, totalMarks: int)

  /** What `calculateResults` computes for a question set and an answer record. */
  function Score(qs: seq<Question>, answers: Answers): (r: Results)
    requires |qs| > 0
    ensures 0 <= r.incorrect && 0 <= r.unattempted
    ensures r.correct + r.incorrect + r.unattempted == |qs|
    ensures r.correct <= r.correct + r.incorrect <= |qs|
    ensures r.correct == CorrectCount(qs, answers) && r.correct + r.incorrect == AttemptedCount(qs, answers)
    ensures r.totalMarks == r.correct * qs[0].marks
  {
    var correct := CorrectCount(qs, answers);
    var attempted := AttemptedCount(qs, answers);
    Results(correct, attempted - correct, |qs| - attempted, correct * qs[0].marks)
  }

  /** The loop of `calculateResults`: one pass over the questions counting attempts and correct answers. */
  method CalculateResults(questions: seq<Question>, selectedAnswers: Answers) returns (r: Results)
    requires |questions| > 0
    ensures r == Score(questions, selectedAnswers)
  {
    var correct := 0;
    var attempted := 0;
    var i := 0;
    while i < |questions|
      invariant 0 <= i <= |questions|
      invariant attempted == AttemptedCount(questions[..i], selectedAnswers)
      invariant correct == CorrectCount(questions[..i], selectedAnswers)
    {
      var q := questions[i];
      assert questions[..i + 1][..i] == questions[..i];
      if q.qid in selectedAnswers {
        attempted := attempted + 1;
        if Letter(selectedAnswers[q.qid]) == q.answer {
          correct := correct + 1;
        }
      }
      i := i + 1;
    }
    assert questions[..i] == questions;
    r := Results(correct, attempted - correct, |questions| - attempted, correct * questions[0].marks);
  }

  /** The positions whose question has an entry in the record. */
  function AttemptedPositions(qs: seq<Question>, answers: Answers): set<nat> {
    set i: nat | i < |qs| && Attempted(qs[i], answers)
  }

  /** The attempted count is the number of positions whose question has an answer entry. */
  lemma {:induction false} AttemptedCountIsCardinality(qs: seq<Question>, answers: Answers)
    ensures AttemptedCount(qs, answers) == |AttemptedPositions(qs, answers)|
  {
    if qs != [] {
      var init := qs[..|qs| - 1];
      AttemptedCountIsCardinality(init, answers);
      var last := |qs| - 1;
      var before := AttemptedPositions(init, answers);
      var now := AttemptedPositions(qs, answers);
      var added := if Attempted(qs[last], answers) then {last} else {};
      forall i: nat | i in now
        ensures i in before + added
      {
        if i < last {
          assert init[i] == qs[i];
        }
      }
      forall i: nat | i in before + added
        ensures i in now
      {
        if i < last {
          assert init[i] == qs[i];
        }
      }
      assert now == before + added;
      assert last !in before;
    }
  }

  /** Adding entries to the record never lowers the attempted count. */
  lemma {:induction false} AttemptedCountMonotone(qs: seq<Question>, a: Answers, b: Answers)
    requires a.Keys <= b.Keys
    ensures AttemptedCount(qs, a) <= AttemptedCount(qs, b)
  {
    if qs != [] {
      AttemptedCountMonotone(qs[..|qs| - 1], a, b);
    }
  }

  /** With an empty record nothing is attempted: no marks, every question unattempted. */
  lemma {:induction false} ScoreOfNoAnswers(qs: seq<Question>)
    requires |qs| > 0
    ensures Score(qs, map[]) == Results(0, 0, |qs|, 0)
  {
    NothingAttempted(qs);
  }

  lemma {:induction false} NothingAttempted(qs: seq<Question>)
    ensures AttemptedCount(qs, map[]) == 0
  {
    if qs != [] {
      NothingAttempted(qs[..|qs| - 1]);
    }
  }

  /** When every question carries its correct letter, all are correct and nothing is unattempted. */
  lemma {:induction false} ScoreOfCorrectAnswers(qs: seq<Question>, answers: Answers)
    requires |qs| > 0
    requires forall i :: 0 <= i < |qs| ==> AnsweredCorrectly(qs[i], answers)
    ensures Score(qs, answers) == Results(|qs|, 0, 0, |qs| * qs[0].marks)
  {
    AllCorrect(qs, answers);
  }

  lemma {:induction false} AllCorrect(qs: seq<Question>, answers: Answers)
    requires forall i :: 0 <= i < |qs| ==> AnsweredCorrectly(qs[i], answers)
    ensures CorrectCount(qs, answers) == |qs|
  {
    if qs != [] {
      var init := qs[..|qs| - 1];
      assert forall i :: 0 <= i < |init| ==> init[i] == qs[i];
      AllCorrect(init, answers);
    }
  }

  // ---------------------------------------------------------------------------
  // Clock display
  // ---------------------------------------------------------------------------

  /**
   * `formatTime`: whole minutes and remaining seconds, each `toString()`ed and
   * `padStart(2, '0')`ed, joined by a colon.
   */
  function FormatTime(seconds: nat): (r: string)
    ensures |r| >= 5 && r[|r| - 3] == ':'
    ensures AllDigits(r[..|r| - 3]) && AllDigits(r[|r| - 2..])
    ensures Value(r[..|r| - 3]) * 60 + Value(r[|r| - 2..]) == seconds
    ensures Value(r[|r| - 2..]) < 60
    ensures |r| > 5 ==> r[0] != '0'
  {
    var m := seconds / 60;
    var k := seconds % 60;
    assert seconds == m * 60 + k;
    var mins := PadStart(ToDecimal(m), 2, '0');
    var secs := PadStart(ToDecimal(k), 2, '0');
    PaddedValue(m, 2);
    PaddedValue(k, 2);
    TwoDigitField(k);
    JoinFields(mins, secs);
    assert |mins| > 2 ==> mins == ToDecimal(m);
    assert (mins + ":" + secs)[0] == mins[0];
    mins + ":" + secs
  }

  /** `mins:secs` splits back into its two fields around the colon. */
  lemma JoinFields(mins: string, secs: string)
    requires |secs| == 2
    ensures var r := mins + ":" + secs;
      |r| == |mins| + 3 && r[|r| - 3] == ':' && r[..|r| - 3] == mins && r[|r| - 2..] == secs
  {
  }

  /** A number below 100, padded to two places, takes exactly two characters. */
  lemma TwoDigitField(n: nat)
    requires n < 100
    ensures |PadStart(ToDecimal(n), 2, '0')| == 2
  {
    if n >= 10 {
      assert |ToDecimal(n / 10)| == 1;
    }
  }

  /** Under 100 minutes the clock reads exactly `MM:SS`. */
  lemma ClockWidth(seconds: nat)
    requires seconds < 6000
    ensures |FormatTime(seconds)| == 5
  {
    var m := seconds / 60;
    var s := ToDecimal(m);
    if |s| > 2 {
      assert s[0] != '0';
      assert Value(s) >= 100 by { LongNumeral(s); }
    }
  }

  /** A numeral of three or more digits without a leading zero is at least 100. */
  lemma {:induction false} LongNumeral(s: string)
    requires AllDigits(s) && |s| >= 3 && s[0] != '0'
    ensures Value(s) >= 100
    decreases |s|
  {
    var init := s[..|s| - 1];
    if |s| == 3 {
      assert init[..1] == [s[0]];
      assert Value(init) >= 10 by {
        assert Value(init) == Value(init[..1]) * 10 + ((init[1] as int) - ('0' as int));
        assert Value(init[..1]) == Value(init[..1][..0]) * 10 + ((s[0] as int) - ('0' as int));
        assert init[..1][..0] == [];
      }
    } else {
      LongNumeral(init);
    }
  }

  // ---------------------------------------------------------------------------
  // Session state and its transitions
  // ---------------------------------------------------------------------------

  /** A snapshot of the six pieces of session state. */
  datatype SessionState = SessionState(
    index: int,
    answers: Answers,
    remaining: int,
    started: bool,
    finished: bool,
    showResults: bool)

  /** The state a session is created with, and the one restart returns to. */
  const Fresh: SessionState := SessionState(0, map[], 0, false, false, false)

  /**
   * What every reachable state satisfies: the index names a question, the
   * clock lies between zero and the total, it is zero before the start, and
   * results are only shown once the exam is finished.
   */
  predicate Consistent(qs: seq<Question>, s: SessionState) {
    && 0 <= s.index < |qs|
    && 0 <= s.remaining <= TotalTime(qs)
    && (!s.started ==> s.remaining == 0)
    && (s.showResults ==> s.finished)
  }

  /** The condition under which the interval timer is armed (display.jsx:20). */
  predicate TimerArmed(s: SessionState) {
    s.started && s.remaining > 0 && !s.finished
  }

  /** `startExam`: mark the exam started and load the clock with the total time. */
  function OnStart(qs: seq<Question>, s: SessionState): (t: SessionState)
    requires Consistent(qs, s)
    ensures Consistent(qs, t)
    ensures t.started && t.remaining == TotalTime(qs)
    ensures t == s.(started := true, remaining := TotalTime(qs))
  {
    s.(started := true, remaining := TotalTime(qs))
  }

  /**
   * One timer callback. Only while the timer is armed; then a clock at one
   * second or less becomes zero and finishes the exam (without showing the
   * results), otherwise it loses exactly one second.
   */
  function OnTick(s: SessionState): (t: SessionState)
    ensures t.remaining <= s.remaining
    ensures s.remaining >= 0 ==> t.remaining >= 0
    ensures !TimerArmed(s) ==> t == s
    ensures TimerArmed(s) && s.remaining <= 1 ==> t == s.(remaining := 0, finished := true)
    ensures TimerArmed(s) && s.remaining > 1 ==> t == s.(remaining := s.remaining - 1)
    ensures t.showResults == s.showResults && t.started == s.started
    ensures t.index == s.index && t.answers == s.answers
  {
    if !TimerArmed(s) then s
    else if s.remaining <= 1 then s.(remaining := 0, finished := true)
    else s.(remaining := s.remaining - 1)
  }

  /** `handleAnswerSelect`: record the letter for the current question's id, replacing any earlier one. */
  function OnSelect(qs: seq<Question>, s: SessionState, c: Choice): (t: SessionState)
    requires Consistent(qs, s)
    ensures Consistent(qs, t)
    ensures qs[s.index].qid in t.answers && t.answers[qs[s.index].qid] == c
    ensures t.answers.Keys == s.answers.Keys + {qs[s.index].qid}
    ensures forall id :: id in s.answers && id != qs[s.index].qid ==> t.answers[id] == s.answers[id]
    ensures t == s.(answers := t.answers)
  {
    s.(answers := s.answers[qs[s.index].qid := c])
  }

  /** `nextQuestion`: one forward unless already at the last question. */
  function OnNext(qs: seq<Question>, s: SessionState): (t: SessionState)
    requires Consistent(qs, s)
    ensures Consistent(qs, t)
    ensures s.index == |qs| - 1 ==> t == s
    ensures s.index < |qs| - 1 ==> t == s.(index := s.index + 1)
  {
    if s.index < |qs| - 1 then s.(index := s.index + 1) else s
  }

  /** `prevQuestion`: one back unless already at the first question. */
  function OnPrev(qs: seq<Question>, s: SessionState): (t: SessionState)
    requires Consistent(qs, s)
    ensures Consistent(qs, t)
    ensures s.index == 0 ==> t == s
    ensures s.index > 0 ==> t == s.(index := s.index - 1)
  {
    if s.index > 0 then s.(index := s.index - 1) else s
  }

  /** A button of the jump grid: the grid has one button per question, so the target is in range. */
  function OnJump(qs: seq<Question>, s: SessionState, target: nat): (t: SessionState)
    requires Consistent(qs, s) && target < |qs|
    ensures Consistent(qs, t)
    ensures t.index == target && t == s.(index := target)
  {
    s.(index := target)
  }

  /** `submitExam`: finish and show the results; the only transition that sets `showResults`. */
  function OnSubmit(qs: seq<Question>, s: SessionState): (t: SessionState)
    requires Consistent(qs, s)
    ensures Consistent(qs, t)
    ensures t.finished && t.showResults
    ensures t == s.(finished := true, showResults := true)
  {
    s.(finished := true, showResults := true)
  }

  /** `restartExam`: back to the state the session was created with. */
  function OnRestart(qs: seq<Question>, s: SessionState): (t: SessionState)
    requires |qs| > 0
    ensures Consistent(qs, t)
    ensures t.index == 0 && t.answers == map[] && t.remaining == 0
    ensures !t.started && !t.finished && !t.showResults
  {
    Fresh
  }

  /** The tick preserves consistency. */
  lemma TickConsistent(qs: seq<Question>, s: SessionState)
    requires Consistent(qs, s)
    ensures Consistent(qs, OnTick(s))
  {
  }

  /** `k` timer callbacks in a row. */
  function Ticks(s: SessionState, k: nat): SessionState
    decreases k
  {
    if k == 0 then s else Ticks(OnTick(s), k - 1)
  }

  /**
   * From an armed clock at `r` seconds: after `k < r` ticks the clock reads
   * `r - k` and the exam is still running.
   */
  lemma {:induction false} CountingDown(s: SessionState, k: nat)
    requires TimerArmed(s) && k < s.remaining
    ensures Ticks(s, k) == s.(remaining := s.remaining - k)
    decreases k
  {
    if k > 0 {
      CountingDown(OnTick(s), k - 1);
    }
  }

  /**
   * From an armed clock at `r` seconds: exactly `r` ticks reach zero and set
   * `finished`, leave `showResults` false, and keep the answers and the index;
   * further ticks change nothing.
   */
  lemma {:induction false} CountdownFinishes(s: SessionState, extra: nat)
    requires TimerArmed(s) && !s.showResults
    ensures Ticks(s, s.remaining + extra) == s.(remaining := 0, finished := true)
  {
    var r := s.remaining;
    CountingDown(s, r - 1);
    var last := Ticks(s, r - 1);
    assert Ticks(s, r) == OnTick(last) by { TicksSplit(s, r - 1, 1); }
    var done := s.(remaining := 0, finished := true);
    TicksSplit(s, r, extra);
    TicksIdle(done, extra);
  }

  lemma {:induction false} TicksSplit(s: SessionState, j: nat, k: nat)
    ensures Ticks(s, j + k) == Ticks(Ticks(s, j), k)
    decreases j
  {
    if j > 0 {
      TicksSplit(OnTick(s), j - 1, k);
    }
  }

  /** Once the timer is disarmed, ticks change nothing. */
  lemma {:induction false} TicksIdle(s: SessionState, k: nat)
    requires !TimerArmed(s)
    ensures Ticks(s, k) == s
  {
    if k > 0 {
      TicksIdle(s, k - 1);
    }
  }

  /** Selecting the same letter twice is the same as selecting it once; a later letter wins. */
  lemma SelectLastWins(qs: seq<Question>, s: SessionState, c1: Choice, c2: Choice)
    requires Consistent(qs, s)
    ensures OnSelect(qs, OnSelect(qs, s, c1), c2) == OnSelect(qs, s, c2)
  {
  }

  /** Restart from any consistent state yields the freshly created state. */
  lemma RestartIsFresh(qs: seq<Question>, s: SessionState)
    requires |qs| > 0
    ensures OnRestart(qs, s) == Fresh
  {
  }

  // ---------------------------------------------------------------------------
  // Screen selection
  // ---------------------------------------------------------------------------

  /** What the component renders, with the values it shows. */
  datatype Screen =
    | StartScreen(questionCount: nat, totalTime: string, subject: string, marksPerQuestion: int)
    | ResultsScreen(results: Results, marksOutOf: nat)
    | QuestionScreen(number: nat, of: nat, clock: string, qid: int, selected: Option<Choice>)

  /**
   * Not started: the start screen. Otherwise `showResults` picks the results
   * screen, whose marks line divides by the number of questions. Otherwise
   * the question screen, even after the clock ran out.
   */
  function Render(qs: seq<Question>, s: SessionState): (screen: Screen)
    requires Consistent(qs, s)
    ensures !s.started <==> screen.StartScreen?
    ensures s.started && s.showResults <==> screen.ResultsScreen?
    ensures s.started && !s.showResults <==> screen.QuestionScreen?
    ensures screen.StartScreen? ==>
      screen == StartScreen(|qs|, FormatTime(TotalTime(qs)), qs[0].subject, qs[0].marks)
    ensures screen.ResultsScreen? ==>
      screen.results == Score(qs, s.answers) && screen.marksOutOf == |qs|
    ensures screen.QuestionScreen? ==>
      && screen.number == s.index + 1 && screen.of == |qs|
      && screen.clock == FormatTime(s.remaining) && screen.qid == qs[s.index].qid
      && (screen.selected.Some? <==> qs[s.index].qid in s.answers)
      && (screen.selected.Some? ==> screen.selected.value == s.answers[qs[s.index].qid])
  {
    if !s.started then
      StartScreen(|qs|, FormatTime(TotalTime(qs)), qs[0].subject, qs[0].marks)
    else if s.showResults then
      ResultsScreen(Score(qs, s.answers), |qs|)
    else
      var q := qs[s.index];
      QuestionScreen(s.index + 1, |qs|, FormatTime(s.remaining), q.qid,
                     if q.qid in s.answers then Some(s.answers[q.qid]) else None)
  }

  /**
   * Running out of time does not leave the question screen: the tick sets
   * `finished` only, so the questions stay up at 00:00 and can still be
   * answered and submitted.
   */
  lemma TimeoutKeepsQuestionScreen(qs: seq<Question>, s: SessionState)
    requires Consistent(qs, s) && TimerArmed(s) && s.remaining == 1 && !s.showResults
    ensures OnTick(s).finished && OnTick(s).remaining == 0
    ensures Render(qs, OnTick(s)).QuestionScreen?
    ensures Render(qs, OnTick(s)).clock == "00:00"
    ensures Render(qs, OnSelect(qs, OnTick(s), A)).QuestionScreen?
    ensures Render(qs, OnSubmit(qs, OnTick(s))).ResultsScreen?
  {
    assert FormatTime(0) == "00:00";
  }

  // ---------------------------------------------------------------------------
  // The component
  // ---------------------------------------------------------------------------

  /** The component's state; the handlers have no phase guards of their own. */
  class Session {
    const questions: seq<Question>
    var currentQuestionIndex: int
    var selectedAnswers: Answers
    var timeRemaining: int
    var examStarted: bool
    var examFinished: bool
    var showResults: bool

    function State(): SessionState
      reads this
    {
      SessionState(currentQuestionIndex, selectedAnswers, timeRemaining, examStarted, examFinished, showResults)
    }

    ghost predicate Valid()
      reads this
    {
      |questions| > 0 && Consistent(questions, State())
    }

    constructor (qs: seq<Question>)
      requires |qs| > 0
      ensures Valid() && questions == qs && State() == Fresh
    {
      questions := qs;
      currentQuestionIndex := 0;
      selectedAnswers := map[];
      timeRemaining := 0;
      examStarted := false;
      examFinished := false;
      showResults := false;
    }

    method StartExam()
      requires Valid()
      modifies this
      ensures Valid() && State() == OnStart(questions, old(State()))
    {
      examStarted := true;
      timeRemaining := TotalTime(questions);
    }

    /** The body of the interval callback, run only while the timer is armed. */
    method Tick()
      requires Valid()
      modifies this
      ensures Valid() && State() == OnTick(old(State()))
    {
      if examStarted && timeRemaining > 0 && !examFinished {
        if timeRemaining <= 1 {
          examFinished := true;
          timeRemaining := 0;
        } else {
          timeRemaining := timeRemaining - 1;
        }
      }
    }

    method HandleAnswerSelect(answer: Choice)
      requires Valid()
      modifies this
      ensures Valid() && State() == OnSelect(questions, old(State()), answer)
    {
      var currentQuestion := questions[currentQuestionIndex];
      selectedAnswers := selectedAnswers[currentQuestion.qid := answer];
    }

    method NextQuestion()
      requires Valid()
      modifies this
      ensures Valid() && State() == OnNext(questions, old(State()))
    {
      if currentQuestionIndex < |questions| - 1 {
        currentQuestionIndex := currentQuestionIndex + 1;
      }
    }

    method PrevQuestion()
      requires Valid()
      modifies this
      ensures Valid() && State() == OnPrev(questions, old(State()))
    {
      if currentQuestionIndex > 0 {
        currentQuestionIndex := currentQuestionIndex - 1;
      }
    }

    /** The jump grid's `setCurrentQuestionIndex(index)`. */
    method JumpTo(index: nat)
      requires Valid() && index < |questions|
      modifies this
      ensures Valid() && State() == OnJump(questions, old(State()), index)
    {
      currentQuestionIndex := index;
    }

    method SubmitExam()
      requires Valid()
      modifies this
      ensures Valid() && State() == OnSubmit(questions, old(State()))
    {
      examFinished := true;
      showResults := true;
    }

    method RestartExam()
      requires Valid()
      modifies this
      ensures Valid() && State() == OnRestart(questions, old(State()))
    {
      currentQuestionIndex := 0;
      selectedAnswers := map[];
      timeRemaining := 0;
      examStarted := false;
      examFinished := false;
      showResults := false;
    }

    /** What the component renders for its current state. */
    function Screen(): (screen: Screen)
      reads this
      requires Valid()
      ensures !examStarted <==> screen.StartScreen?
      ensures examStarted && showResults <==> screen.ResultsScreen?
      ensures screen.ResultsScreen? ==> screen.results == Score(questions, selectedAnswers)
      ensures screen.QuestionScreen? ==>
        screen.number == currentQuestionIndex + 1 && screen.clock == FormatTime(timeRemaining)
    {
      Render(questions, State())
    }
  }
}
