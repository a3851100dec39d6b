/** The quiz session as a value: the question bank, the current category and
    index, the draft answer and the answered flag, with one function per
    handler that changes them. The class in module Quiz is proved to change
    its fields exactly as these functions say. */
module Session {
  import opened Grading

  /** The four session variables of the widget, together with the bank. */
  datatype State = State(
    bank: map<Kind, seq<Question>>,
    kind: Kind,
    index: nat,
    userAnswer: string,
    answered: bool)

  /** What a click on the submit button produces. */
  datatype Outcome =
    | Ignored        // the question was already answered: nothing happens
    | NoQuestion     // there is no question at the index: reading its answer throws
    | Checked(correct: bool, correctAnswer: string, autoAdvance: bool)

  /** The enabled state of the two navigation buttons. */
  datatype Buttons = Buttons(prevDisabled: bool, nextDisabled: bool)

  /** Every category has a question list in the bank. */
  predicate Complete(bank: map<Kind, seq<Question>>) {
    forall k: Kind :: k in bank
  }

  function Questions(s: State): seq<Question>
    requires Complete(s.bank)
  {
    s.bank[s.kind]
  }

  /** The index points at a question of the current category, or is 0 in an
      empty category. */
  predicate InRange(s: State)
    requires Complete(s.bank)
  {
    s.index == 0 || s.index < |Questions(s)|
  }

  /** The state before the bank is loaded: three empty categories, multiple
      choice selected, index 0, empty draft, not answered. */
  function Init(): State {
    State(map[MultipleChoice := [], FillBlank := [], TrueFalse := []], MultipleChoice, 0, "", false)
  }

  /** The question shown at the current index, or None ("no more questions"). */
  function Current(s: State): Option<Question>
    requires Complete(s.bank)
  {
    if s.index >= |Questions(s)| then None else Some(Questions(s)[s.index])
  }

  /** The effect of displaying the current question on the session: when a
      question is shown the answered flag is cleared. */
  function Show(s: State): State
    requires Complete(s.bank)
  {
    if s.index >= |Questions(s)| then s else s.(answered := false)
  }

  /** The navigation buttons as set while a question is shown. */
  function NavButtons(s: State): Buttons
    requires Complete(s.bank)
  {
    Buttons(s.index == 0, s.index == |Questions(s)| - 1)
  }

  // ---------------------------------------------------------------------------
  // The handlers
  // ---------------------------------------------------------------------------

  /** The bank arrives from the loader and the current question is shown. */
  function Load(s: State, data: map<Kind, seq<Question>>): State
    requires Complete(data)
  {
    Show(s.(bank := data))
  }

  /** A category button: switch to its category at index 0, not answered. */
  function Select(s: State, k: Kind): State
    requires Complete(s.bank)
  {
    Show(s.(kind := k, index := 0, answered := false))
  }

  /** The previous button. */
  function Previous(s: State): State
    requires Complete(s.bank)
  {
    if s.index > 0 then Show(s.(index := s.index - 1, answered := false)) else s
  }

  /** The next button. */
  function Next(s: State): State
    requires Complete(s.bank)
  {
    if s.index < |Questions(s)| - 1 then Show(s.(index := s.index + 1, answered := false)) else s
  }

  /** The deferred auto-advance callback: an increment with no bounds check. */
  function Tick(s: State): State
    requires Complete(s.bank)
  {
    Show(s.(index := s.index + 1, answered := false))
  }

  /** A click on an option (multiple choice or true/false) records its value
      as the draft, unless the question is already answered. */
  function Pick(s: State, value: string): State {
    if s.answered then s else s.(userAnswer := value)
  }

  /** Typing into the fill-in box records the trimmed text as the draft; this
      handler has no answered check. */
  function Type(s: State, text: string): State {
    s.(userAnswer := Trim(text))
  }

  /** The submit button: read the draft from the widgets, grade it against
      the current question, report it and mark the question answered. */
  function Submit(s: State, selected: Option<string>, fillText: string): (State, Outcome)
    requires Complete(s.bank)
  {
    if s.answered then (s, Ignored)
    else
      var drafted := s.(userAnswer := Draft(s.kind, selected, fillText));
      if s.index >= |Questions(s)| then (drafted, NoQuestion)
      else
        var q := Questions(s)[s.index];
        var correct := Grade(s.kind, q, drafted.userAnswer);
        (drafted.(answered := true),
         Checked(correct, q.answer, correct && s.index < |Questions(s)| - 1))
  }

  // ---------------------------------------------------------------------------
  // Properties of the handlers
  // ---------------------------------------------------------------------------

  /** Before loading there is no question, and the index is in range. */
  lemma InitialState()
    ensures Complete(Init().bank) && InRange(Init())
    ensures Current(Init()) == None && !Init().answered
  {
    forall k: Kind ensures k in Init().bank {
      match k
      case MultipleChoice =>
      case FillBlank =>
      case TrueFalse =>
    }
  }

  /** Loading at start-up (every list still empty) keeps the index at 0 and
      shows the first question of the current category, if it has one. */
  lemma LoadAtStartup(s: State, data: map<Kind, seq<Question>>)
    requires Complete(s.bank) && InRange(s) && |Questions(s)| == 0
    requires Complete(data)
    ensures Load(s, data).index == 0 && InRange(Load(s, data))
    ensures Load(s, data).kind == s.kind && Load(s, data).bank == data
    ensures Current(Load(s, data)) == if |data[s.kind]| == 0 then None else Some(data[s.kind][0])
  {
  }

  /** Selecting a category resets the index to 0 and clears the answered
      flag whatever the prior state; the bank and the draft are kept. */
  lemma SelectResets(s: State, k: Kind)
    requires Complete(s.bank)
    ensures Select(s, k) == s.(kind := k, index := 0, answered := false)
    ensures InRange(Select(s, k))
    ensures Current(Select(s, k)) == if |s.bank[k]| == 0 then None else Some(s.bank[k][0])
  {
  }

  /** Previous is a no-op at index 0 and otherwise steps back by one and
      clears the answered flag, keeping the index in range. */
  lemma PreviousSteps(s: State)
    requires Complete(s.bank)
    ensures s.index == 0 ==> Previous(s) == s
    ensures s.index > 0 ==> Previous(s) == s.(index := s.index - 1, answered := false)
    ensures InRange(s) ==> InRange(Previous(s))
  {
  }

  /** Next is a no-op at the last index and otherwise steps on by one and
      clears the answered flag, keeping the index in range. */
  lemma NextSteps(s: State)
    requires Complete(s.bank)
    ensures s.index >= |Questions(s)| - 1 ==> Next(s) == s
    ensures s.index < |Questions(s)| - 1 ==> Next(s) == s.(index := s.index + 1, answered := false)
    ensures InRange(s) ==> InRange(Next(s))
  {
  }

  /** Navigation changes the state exactly when it is not at its boundary. */
  lemma NavigationMovesIff(s: State)
    requires Complete(s.bank)
    ensures Previous(s) == s <==> s.index == 0
    ensures Next(s) == s <==> s.index >= |Questions(s)| - 1
  {
    if s.index > 0 { assert Previous(s).index != s.index; }
    if s.index < |Questions(s)| - 1 { assert Next(s).index != s.index; }
  }

  /** Next and then Previous from a non-last question return to it, with the
      answered flag cleared. */
  lemma NextThenPrevious(s: State)
    requires Complete(s.bank) && s.index < |Questions(s)| - 1
    ensures Previous(Next(s)) == s.(answered := false)
  {
  }

  /** Previous and then Next from a question other than the first return to
      it, with the answered flag cleared. */
  lemma PreviousThenNext(s: State)
    requires Complete(s.bank) && InRange(s) && s.index > 0
    ensures Next(Previous(s)) == s.(answered := false)
  {
  }

  /** While a question is shown, a navigation button is disabled exactly
      when its handler would do nothing. */
  lemma ButtonsMatchHandlers(s: State)
    requires Complete(s.bank) && Current(s).Some?
    ensures NavButtons(s).prevDisabled <==> Previous(s) == s
    ensures NavButtons(s).nextDisabled <==> Next(s) == s
  {
    NavigationMovesIff(s);
  }

  /** Picking an option changes the draft only while the question is
      unanswered. */
  lemma PickGuarded(s: State, value: string)
    ensures s.answered ==> Pick(s, value) == s
    ensures !s.answered ==> Pick(s, value) == s.(userAnswer := value)
  {
  }

  /** Submitting an answered question changes nothing and grades nothing. */
  lemma SubmitWhenAnswered(s: State, selected: Option<string>, fillText: string)
    requires Complete(s.bank) && s.answered
    ensures Submit(s, selected, fillText) == (s, Ignored)
  {
  }

  /** Submitting an unanswered question that is shown grades the draft read
      from the widgets, reports the stored answer, requests an auto-advance
      exactly when the answer is correct and the question is not the last,
      and leaves the question answered with only the draft otherwise changed. */
  lemma SubmitGrades(s: State, selected: Option<string>, fillText: string)
    requires Complete(s.bank) && !s.answered && Current(s).Some?
    ensures var q, d := Current(s).value, Draft(s.kind, selected, fillText);
      Submit(s, selected, fillText)
      == (s.(userAnswer := d, answered := true),
          Checked(Grade(s.kind, q, d), q.answer, Grade(s.kind, q, d) && s.index < |Questions(s)| - 1))
  {
  }

  /** Submitting where no question is shown fails after reading the draft:
      the question stays unanswered. */
  lemma SubmitWithoutQuestion(s: State, selected: Option<string>, fillText: string)
    requires Complete(s.bank) && !s.answered && Current(s).None?
    ensures Submit(s, selected, fillText)
      == (s.(userAnswer := Draft(s.kind, selected, fillText)), NoQuestion)
  {
  }

  /** A second submit after a successful one is ignored: submit is
      idempotent, and the index and category never change. */
  lemma SubmitIdempotent(s: State, sel1: Option<string>, text1: string, sel2: Option<string>, text2: string)
    requires Complete(s.bank)
    ensures var (t, o) := Submit(s, sel1, text1);
      t.bank == s.bank && t.kind == s.kind && t.index == s.index
      && (o.Checked? ==> t.answered && Submit(t, sel2, text2) == (t, Ignored))
  {
  }

  /** The multiple-choice example: "B" against a stored "A" is wrong, "A" is
      reported, and no auto-advance is requested. */
  lemma SubmitWrongChoice(s: State, q: Question)
    requires Complete(s.bank) && s.kind == MultipleChoice && !s.answered
    requires Current(s) == Some(q) && q.answer == "A"
    ensures Submit(s, Some("B"), "").1 == Checked(false, "A", false)
  {
  }

  /** The true/false example: "true" against a stored "true" is right, and
      an auto-advance is requested exactly when it is not the last question. */
  lemma SubmitRightJudgement(s: State, q: Question)
    requires Complete(s.bank) && s.kind == TrueFalse && !s.answered
    requires Current(s) == Some(q) && q.answer == "true"
    ensures Submit(s, Some("true"), "").1 == Checked(true, "true", s.index < |Questions(s)| - 1)
  {
  }

  /** When the auto-advance is requested, its unguarded increment does what
      the next button would do and keeps the index in range. */
  lemma AutoAdvanceInRange(s: State, selected: Option<string>, fillText: string)
    requires Complete(s.bank) && InRange(s)
    requires Submit(s, selected, fillText).1.Checked? && Submit(s, selected, fillText).1.autoAdvance
    ensures var t := Submit(s, selected, fillText).0;
      Tick(t) == Next(t) && InRange(Tick(t)) && Current(Tick(t)).Some?
  {
  }

  /** A timer that fires while its condition still holds (the index is not
      the last), whatever happened since the submit that scheduled it, does
      what the next button would do and keeps the index in range. */
  lemma DueTickKeepsRange(s: State)
    requires Complete(s.bank) && s.index < |Questions(s)| - 1
    ensures Tick(s) == Next(s) && InRange(Tick(s)) && Current(Tick(s)).Some?
  {
  }

  /** A stale auto-advance, firing after the user has moved to the last
      question by hand, pushes the index past the end: no question is shown
      and the index is out of range. */
  lemma StaleTimerLeavesRange(s: State)
    requires Complete(s.bank) && |Questions(s)| > 0 && s.index == |Questions(s)| - 1
    ensures Tick(s).index == |Questions(s)|
    ensures Current(Tick(s)) == None && !InRange(Tick(s))
  {
  }

  /** An empty category: once selected no question is shown, navigation is a
      no-op and submitting fails without marking anything answered. */
  lemma EmptyCategory(s: State, k: Kind, selected: Option<string>, fillText: string)
    requires Complete(s.bank) && |s.bank[k]| == 0
    ensures var t := Select(s, k);
      Current(t) == None && Previous(t) == t && Next(t) == t
      && Submit(t, selected, fillText).1 == NoQuestion
      && !Submit(t, selected, fillText).0.answered
  {
  }

  // ---------------------------------------------------------------------------
  // Runs of user actions
  // ---------------------------------------------------------------------------

  /** A user action: one of the handlers other than the timer. */
  datatype Action =
    | ChooseCategory(k: Kind)
    | GoPrevious
    | GoNext
    | PickOption(value: string)
    | TypeText(text: string)
    | SubmitAnswer(selected: Option<string>, fillText: string)

  function Step(s: State, a: Action): State
    requires Complete(s.bank)
  {
    match a
    case ChooseCategory(k) => Select(s, k)
    case GoPrevious => Previous(s)
    case GoNext => Next(s)
    case PickOption(v) => Pick(s, v)
    case TypeText(t) => Type(s, t)
    case SubmitAnswer(sel, t) => Submit(s, sel, t).0
  }

  /** Every handler keeps the bank and the index in range. */
  lemma StepKeepsRange(s: State, a: Action)
    requires Complete(s.bank) && InRange(s)
    ensures Step(s, a).bank == s.bank && InRange(Step(s, a))
  {
  }

  function Run(s: State, actions: seq<Action>): (t: State)
    requires Complete(s.bank)
    ensures t.bank == s.bank
    decreases |actions|
  {
    if actions == [] then s
    else
      StepKeepsBank(s, actions[0]);
      Run(Step(s, actions[0]), actions[1..])
  }

  lemma StepKeepsBank(s: State, a: Action)
    requires Complete(s.bank)
    ensures Step(s, a).bank == s.bank
  {
  }

  /** After the bank is loaded at start-up, any run of user actions keeps
      the index in range. */
  lemma {:induction false} RunKeepsRange(s: State, actions: seq<Action>)
    requires Complete(s.bank) && InRange(s)
    ensures InRange(Run(s, actions))
    decreases |actions|
  {
    if actions != [] {
      StepKeepsRange(s, actions[0]);
      RunKeepsRange(Step(s, actions[0]), actions[1..]);
    }
  }

  lemma LoadedRunsStayInRange(data: map<Kind, seq<Question>>, actions: seq<Action>)
    requires Complete(data)
    ensures InRange(Run(Load(Init(), data), actions))
  {
    InitialState();
    LoadAtStartup(Init(), data);
    RunKeepsRange(Load(Init(), data), actions);
  }

  /** The bank arrives asynchronously: user actions may run before it is
      loaded and after. Every such run keeps the index in range. */
  lemma RunsAroundLoadStayInRange(pre: seq<Action>, data: map<Kind, seq<Question>>, post: seq<Action>)
    requires Complete(data)
    ensures Complete(Init().bank)
    ensures InRange(Run(Init(), pre))
    ensures InRange(Run(Load(Run(Init(), pre), data), post))
  {
    InitialState();
    RunKeepsRange(Init(), pre);
    var before := Run(Init(), pre);
    assert Questions(before) == Init().bank[before.kind];
    LoadAtStartup(before, data);
    RunKeepsRange(Load(before, data), post);
  }
}
