/** The quiz session as the widget keeps it: one object whose fields are the
    question bank and the four session variables, updated in place by the
    event handlers. Each handler is proved to change the fields exactly as
    the corresponding function of module Session says. */
module Quiz {
  import opened Grading
  import Session

  class QuizSession {
    var bank: map<Kind, seq<Question>>
    var kind: Kind
    var index: nat
    var userAnswer: string
    var answered: bool

    /** Every category has a question list. */
    predicate Valid()
      reads this
    {
      Session.Complete(bank)
    }

    /** The fields as a session value. */
    function Snapshot(): Session.State
      reads this
    {
      Session.State(bank, kind, index, userAnswer, answered)
    }

    /** The initial state: three empty categories, multiple choice selected. */
    constructor ()
      ensures Valid() && Snapshot() == Session.Init()
    {
      bank := map[MultipleChoice := [], FillBlank := [], TrueFalse := []];
      kind := MultipleChoice;
      index := 0;
      userAnswer := "";
      answered := false;
      new;
      Session.InitialState();
    }

    /** The bank arrives from the loader and replaces the old one. */
    method Load(data: map<Kind, seq<Question>>)
      requires Session.Complete(data)
      modifies this
      ensures Valid() && Snapshot() == Session.Load(old(Snapshot()), data)
    {
      bank := data;
      var _ := DisplayQuestion();
    }

    /** Shows the current question, if any; showing one clears the answered
        flag. */
    method DisplayQuestion() returns (shown: Option<Question>)
      requires Valid()
      modifies this
      ensures Valid() && Snapshot() == Session.Show(old(Snapshot()))
      ensures shown == Session.Current(old(Snapshot()))
    {
      var list := Session.Questions(Snapshot());
      if index >= |list| {
        return None;
      }
      shown := Some(list[index]);
      answered := false;
    }

    /** The navigation buttons, as set while a question is shown. */
    method UpdateNavigationButtons() returns (buttons: Session.Buttons)
      requires Valid()
      ensures buttons == Session.NavButtons(Snapshot())
      ensures Session.Current(Snapshot()).Some? ==>
        (buttons.prevDisabled <==> Session.Previous(Snapshot()) == Snapshot())
        && (buttons.nextDisabled <==> Session.Next(Snapshot()) == Snapshot())
    {
      buttons := Session.Buttons(index == 0, index == |Session.Questions(Snapshot())| - 1);
      if Session.Current(Snapshot()).Some? {
        Session.ButtonsMatchHandlers(Snapshot());
      }
    }

    /** A category button. */
    method SelectCategory(k: Kind)
      requires Valid()
      modifies this
      ensures Valid() && Snapshot() == Session.Select(old(Snapshot()), k)
      ensures kind == k && index == 0 && !answered
      ensures bank == old(bank) && userAnswer == old(userAnswer)
    {
      kind := k;
      index := 0;
      answered := false;
      var _ := DisplayQuestion();
    }

    /** The previous button. */
    method Previous()
      requires Valid()
      modifies this
      ensures Valid() && Snapshot() == Session.Previous(old(Snapshot()))
      ensures old(index) == 0 ==> Snapshot() == old(Snapshot())
      ensures old(index) > 0 ==> index == old(index) - 1 && !answered
      ensures Session.InRange(old(Snapshot())) ==> Session.InRange(Snapshot())
    {
      if index > 0 {
        index := index - 1;
        answered := false;
        var _ := DisplayQuestion();
      }
    }

    /** The next button. */
    method Next()
      requires Valid()
      modifies this
      ensures Valid() && Snapshot() == Session.Next(old(Snapshot()))
      ensures old(index) >= |Session.Questions(old(Snapshot()))| - 1 ==> Snapshot() == old(Snapshot())
      ensures old(index) < |Session.Questions(old(Snapshot()))| - 1 ==> index == old(index) + 1 && !answered
      ensures Session.InRange(old(Snapshot())) ==> Session.InRange(Snapshot())
    {
      if index < |Session.Questions(Snapshot())| - 1 {
        index := index + 1;
        answered := false;
        var _ := DisplayQuestion();
      }
    }

    /** The deferred auto-advance callback; it increments without a check. */
    method AutoAdvance()
      requires Valid()
      modifies this
      ensures Valid() && Snapshot() == Session.Tick(old(Snapshot()))
      ensures index == old(index) + 1 && !answered
    {
      index := index + 1;
      answered := false;
      var _ := DisplayQuestion();
    }

    /** A click on an option records its value unless already answered. */
    method PickOption(value: string)
      modifies this
      ensures Snapshot() == Session.Pick(old(Snapshot()), value)
    {
      if answered {
        return;
      }
      userAnswer := value;
    }

    /** Typing into the fill-in box records the trimmed text. */
    method TypeFill(text: string)
      modifies this
      ensures Snapshot() == Session.Type(old(Snapshot()), text)
    {
      ghost var before := Snapshot();
      var trimmed := Trim(text);
      userAnswer := trimmed;
      assert Snapshot() == before.(userAnswer := trimmed);
    }

    /** Reads the draft answer from the widgets of the current category. */
    method GetUserAnswer(selected: Option<string>, fillText: string)
      modifies this
      ensures Snapshot() == old(Snapshot()).(userAnswer := Draft(kind, selected, fillText))
    {
      ghost var before := Snapshot();
      var answer: string;
      match kind {
        case MultipleChoice =>
          if selected.Some? {
            answer := selected.value;
          } else {
            answer := "";
          }
        case FillBlank =>
          answer := Trim(fillText);
        case TrueFalse =>
          if selected.Some? {
            answer := selected.value;
          } else {
            answer := "";
          }
      }
      userAnswer := answer;
      assert Snapshot() == before.(userAnswer := answer);
    }

    /** Grades the draft against the current question, reports the result
        and marks the question answered; where there is no question, reading
        its answer fails and nothing further happens. */
    method CheckAnswer() returns (outcome: Session.Outcome)
      requires Valid()
      modifies this
      ensures Valid() && bank == old(bank) && kind == old(kind) && index == old(index)
      ensures userAnswer == old(userAnswer)
      ensures Session.Current(Snapshot()).None? ==> outcome == Session.NoQuestion && answered == old(answered)
      ensures Session.Current(Snapshot()).Some? ==>
        var q := Session.Current(Snapshot()).value;
        var correct := Grade(kind, q, userAnswer);
        answered && outcome == Session.Checked(correct, q.answer, correct && index < |Session.Questions(Snapshot())| - 1)
    {
      var list := Session.Questions(Snapshot());
      if index >= |list| {
        return Session.NoQuestion;
      }
      var question := list[index];
      var correct := Grade(kind, question, userAnswer);
      var advance := correct && index < |list| - 1;
      outcome := Session.Checked(correct, question.answer, advance);
      answered := true;
    }

    /** The submit button. */
    method Submit(selected: Option<string>, fillText: string) returns (outcome: Session.Outcome)
      requires Valid()
      modifies this
      ensures Valid() && (Snapshot(), outcome) == Session.Submit(old(Snapshot()), selected, fillText)
      ensures old(answered) ==> outcome == Session.Ignored && Snapshot() == old(Snapshot())
    {
      if answered {
        return Session.Ignored;
      }
      GetUserAnswer(selected, fillText);
      outcome := CheckAnswer();
    }
  }
}
