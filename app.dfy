/**
 * The top-level view switch of src/App.jsx: which of the subject picker, the
 * exam and the math examples is on screen, and which subject was chosen.
 */
module App {
  import opened Options
  import Display

  /** The three values `currentView` takes. */
  datatype View = Subjects | Exam | Examples

  /** The object the subject picker hands over: the catalogue entry plus its loaded questions. */
  datatype Subject = Subject(id: string, name: string, questions: seq<Display.Question>)

  /** What App renders. The fallback is the bare subject picker, without the examples button. */
  datatype Page =
    | ExamplesPage
    | SubjectsPage
    | ExamPage(subject: Subject)
    | FallbackSelector

  /**
   * The precedence of App's render: the examples view wins whatever the
   * subject, then the subject view, then the exam view when a subject is
   * selected, and otherwise the fallback picker.
   */
  function PageFor(view: View, selected: Option<Subject>): (p: Page)
    ensures view == Examples <==> p == ExamplesPage
    ensures view == Subjects <==> p == SubjectsPage
    ensures view == Exam && selected.Some? <==> p.ExamPage?
    ensures p.ExamPage? ==> p.subject == selected.value
    ensures view == Exam && selected.None? <==> p == FallbackSelector
  {
    match view
    case Examples => ExamplesPage
    case Subjects => SubjectsPage
    case Exam => if selected.Some? then ExamPage(selected.value) else FallbackSelector
  }

  /** Where "Back" from the examples leads: the exam exactly when a subject is selected. */
  function ViewAfterExamples(selected: Option<Subject>): (v: View)
    ensures v == Exam <==> selected.Some?
    ensures v == Subjects <==> selected.None?
  {
    if selected.Some? then Exam else Subjects
  }

  /** A view is coherent when the exam view always has a subject to show. */
  predicate Coherent(view: View, selected: Option<Subject>) {
    view == Exam ==> selected.Some?
  }

  /** In a coherent state the fallback is never rendered. */
  lemma NoFallbackWhenCoherent(view: View, selected: Option<Subject>)
    requires Coherent(view, selected)
    ensures PageFor(view, selected) != FallbackSelector
  {
  }

  /**
   * The buttons that call App's handlers. `handleBackToSubjects` is handed to
   * `Display` as a prop, but `Display` takes no props, so no button calls it.
   */
  datatype Click = PickSubject(subject: Subject) | ShowExamples | BackFromExamples

  /** Which buttons a page offers: the picker's subjects, the examples button, the examples' Back button. */
  predicate Offered(p: Page, c: Click) {
    match c
    case PickSubject(_) => p == SubjectsPage || p == FallbackSelector
    case ShowExamples => p == SubjectsPage || p.ExamPage?
    case BackFromExamples => p == ExamplesPage
  }

  /** The view and the selected subject after the handler a button calls. */
  function Press(view: View, selected: Option<Subject>, c: Click): (after: (View, Option<Subject>))
    ensures c.PickSubject? ==> after == (Exam, Some(c.subject))
    ensures !c.PickSubject? ==> after.1 == selected
    ensures c == ShowExamples ==> after.0 == Examples
    ensures c == BackFromExamples ==> after.0 == ViewAfterExamples(selected)
  {
    match c
    case PickSubject(subject) => (Exam, Some(subject))
    case ShowExamples => (Examples, selected)
    case BackFromExamples => (ViewAfterExamples(selected), selected)
  }

  /** A run of clicks, each taking effect only when the page on screen offers its button. */
  function Run(view: View, selected: Option<Subject>, clicks: seq<Click>): (View, Option<Subject>)
    decreases |clicks|
  {
    if clicks == [] then (view, selected)
    else if Offered(PageFor(view, selected), clicks[0]) then
      var after := Press(view, selected, clicks[0]);
      Run(after.0, after.1, clicks[1..])
    else Run(view, selected, clicks[1..])
  }

  /**
   * Once a subject is chosen, no sequence of clicks shows the subject picker
   * again or changes the subject: only the exam and the examples alternate.
   */
  lemma {:induction false} NoWayBackToSubjects(view: View, selected: Option<Subject>, clicks: seq<Click>)
    requires selected.Some? && view != Subjects
    ensures Run(view, selected, clicks).0 in {Exam, Examples}
    ensures Run(view, selected, clicks).1 == selected
    decreases |clicks|
  {
    if clicks != [] {
      if Offered(PageFor(view, selected), clicks[0]) {
        var after := Press(view, selected, clicks[0]);
        NoWayBackToSubjects(after.0, after.1, clicks[1..]);
      } else {
        NoWayBackToSubjects(view, selected, clicks[1..]);
      }
    }
  }

  /** Runs of clicks keep the state coherent, so the fallback is never on screen. */
  lemma {:induction false} RunKeepsCoherent(view: View, selected: Option<Subject>, clicks: seq<Click>)
    requires Coherent(view, selected)
    ensures Coherent(Run(view, selected, clicks).0, Run(view, selected, clicks).1)
    decreases |clicks|
  {
    if clicks != [] {
      if Offered(PageFor(view, selected), clicks[0]) {
        var after := Press(view, selected, clicks[0]);
        RunKeepsCoherent(after.0, after.1, clicks[1..]);
      } else {
        RunKeepsCoherent(view, selected, clicks[1..]);
      }
    }
  }

  class AppState {
    var currentView: View
    var selectedSubject: Option<Subject>

    ghost predicate Valid()
      reads this
    {
      Coherent(currentView, selectedSubject)
    }

    constructor ()
      ensures Valid()
      ensures currentView == Subjects && selectedSubject == None
    {
      currentView := Subjects;
      selectedSubject := None;
    }

    /** `handleSubjectSelect`: remember the subject and go to the exam. */
    method HandleSubjectSelect(subjectData: Subject)
      requires Valid()
      modifies this
      ensures Valid()
      ensures selectedSubject == Some(subjectData) && currentView == Exam
      ensures (currentView, selectedSubject) == Press(old(currentView), old(selectedSubject), PickSubject(subjectData))
    {
      selectedSubject := Some(subjectData);
      currentView := Exam;
    }

    /** `handleBackToSubjects`: forget the subject and show the picker (no button calls it). */
    method HandleBackToSubjects()
      requires Valid()
      modifies this
      ensures Valid()
      ensures selectedSubject == None && currentView == Subjects
    {
      selectedSubject := None;
      currentView := Subjects;
    }

    /** `handleShowExamples`: show the examples; the selected subject is kept. */
    method HandleShowExamples()
      requires Valid()
      modifies this
      ensures Valid()
      ensures currentView == Examples && selectedSubject == old(selectedSubject)
      ensures (currentView, selectedSubject) == Press(old(currentView), old(selectedSubject), ShowExamples)
    {
      currentView := Examples;
    }

    /** `handleBackFromExamples`: back to the exam if a subject is selected, else to the picker. */
    method HandleBackFromExamples()
      requires Valid()
      modifies this
      ensures Valid()
      ensures currentView == ViewAfterExamples(old(selectedSubject))
      ensures selectedSubject == old(selectedSubject)
      ensures (currentView, selectedSubject) == Press(old(currentView), old(selectedSubject), BackFromExamples)
    {
      currentView := if selectedSubject.Some? then Exam else Subjects;
    }

    /** What App renders now; never the fallback while `Valid()` holds. */
    function Rendered(): (p: Page)
      reads this
      ensures p == PageFor(currentView, selectedSubject)
      ensures Valid() ==> p != FallbackSelector
    {
      PageFor(currentView, selectedSubject)
    }
  }
}
