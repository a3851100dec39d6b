# Quiz widget session and grading, modelled in Dafny

The widget shows one question at a time from a bank of three categories:
选择题 (multiple choice), 填空题 (fill in the blank) and 判断题 (true/false).
Its state is the bank plus four variables: the current category, the current
index, the draft answer `userAnswer` and the flag `isAnswered`. Event
handlers change them: category buttons, submit, previous, next, option
clicks, typing in the fill-in box and the deferred auto-advance after a
correct answer. On submit the draft is read from the input widgets and graded
against the stored answer. Multiple-choice and true/false answers must match
exactly. Fill-in answers are compared after trimming and lower-casing both
sides.

The project has three modules:

- `Grading` (grading.dfy) holds the kinds, the question record, `Trim`,
  `ToLower`, `Grade`, the draft read at submit time (`Draft`), the option
  letter (`OptionValue`), the marks shown after a wrong answer (`Highlight`)
  and the lemmas about them.
- `Session` (session.dfy) gives the session state as a value, with one
  function per handler. It proves the navigation, submit,
  auto-advance and button properties. It also proves that the index stays in
  range over any run of user actions.
- `Quiz` (quiz.dfy) holds the class `QuizSession`. Its fields are the bank and
  the four variables, and its methods update them in place like the
  handlers do. Each method is proved to change the fields exactly as the
  matching `Session` function says.

The model follows the code in four points where a tidier design would behave differently:

- Category select and navigation do NOT reset the draft `userAnswer`. Only
  the widgets are cleared on display.
- In an empty category the navigation buttons are not updated, because
  `displayQuestion` returns before it updates them. Previous and next are
  still no-ops there.
- The auto-advance callback increments the index with no bounds check. A
  timer that fires after the user has moved to the last question by hand
  pushes the index past the end (`StaleTimerLeavesRange`). So the in-range
  invariant is proved for runs of user actions, before and after the bank
  arrives (`RunsAroundLoadStayInRange`), and for a timer that fires while
  the index is still below the last one (`DueTickKeepsRange`), not for a
  stale timer.
- Submitting when no question is shown reads the draft and then throws while
  reading the missing question's answer. The model returns `NoQuestion`, with
  the draft updated and the question still unanswered.

## Model

| member | source | states |
|---|---|---|
| Grading.TrimStart | app.js:284 | the result is empty or starts with a non-whitespace character, and is no longer than the input |
| Grading.TrimEnd | app.js:284 | the result is empty or ends with a non-whitespace character, and is no longer than the input |
| Grading.Trim | app.js:284-285 | the trimmed string has no whitespace at either end |
| Grading.TrimStartSplit | app.js:284 | the input is the leading whitespace followed by the result of TrimStart |
| Grading.TrimEndSplit | app.js:284 | the input is the result of TrimEnd followed by the trailing whitespace |
| Grading.TrimSplit | app.js:284 | every string is its trimmed form with whitespace on both sides |
| Grading.TrimUnique | app.js:284-285 | a core with no whitespace at its ends, padded with whitespace, trims to exactly that core |
| Grading.TrimIdempotent | app.js:251 | trimming twice (when the draft is read, then when it is graded) is the same as trimming once |
| Grading.TrimIgnoresPadding | app.js:284 | adding whitespace around a string does not change its trimmed form |
| Grading.ToLower | app.js:284-285 | lower-casing keeps the length and maps each character through the ASCII case map |
| Grading.ToLowerIdempotent | app.js:284-285 | lower-casing twice is the same as lower-casing once |
| Grading.LowerTrimCommute | app.js:284-285 | lower(trim(s)) equals trim(lower(s)) |
| Grading.ExactKindsCompareExactly | app.js:280-289 | a multiple-choice or true/false answer is correct iff it equals the stored answer |
| Grading.StoredAnswerIsCorrect | app.js:279-291 | the stored answer is graded correct in every category |
| Grading.FillGradeIsTrimLower | app.js:282-286 | a fill-in answer is correct iff trim(lower(answer)) equals trim(lower(stored answer)) |
| Grading.FillIgnoresPadding | app.js:282-286 | fill-in grading is unchanged by whitespace added around the user's answer |
| Grading.FillIgnoresCase | app.js:282-286 | two fill-in answers that lower-case alike are graded alike |
| Grading.FillExample | app.js:282-286 | " Paris " is correct against a stored "paris" |
| Grading.FillDraftGradesAsTyped | app.js:250-251 | the fill-in draft is the trimmed input, and it grades the same as the raw input |
| Grading.NoSelectionIsEmptyDraft | app.js:243-259 | with no option selected the draft is the empty string, which is correct iff the stored answer is empty |
| Grading.EmptyFillDraft | app.js:282-286 | an empty fill-in draft is correct iff the stored answer is empty or all whitespace |
| Grading.PickedOptionGrade | app.js:183 | picking a non-empty option is correct iff the stored answer is that option's first character |
| Grading.LongAnswerUnreachable | app.js:183 | a stored multiple-choice answer that is not one character long (and not "undefined") is never matched by a picked option |
| Grading.PickHighlighted | app.js:308-325 | after a wrong pick the picked option is marked incorrect and the option carrying the stored answer correct; after a right pick nothing is marked |
| Session.InitialState | app.js:2-12 | the initial state has every category, index 0 in range, not answered, no question shown |
| Session.LoadAtStartup | app.js:47-53 | loading the bank at start-up keeps the category and index 0, and shows the first question of the category if there is one |
| Session.SelectResets | app.js:65-80 | category select sets the category, index 0 and not answered whatever the prior state, and keeps the bank and the draft |
| Session.PreviousSteps | app.js:95-101 | previous is a no-op at index 0, otherwise it moves back by exactly one and clears answered; it keeps the index in range |
| Session.NextSteps | app.js:104-110 | next is a no-op at the last index, otherwise it moves on by exactly one and clears answered; it keeps the index in range |
| Session.NavigationMovesIff | app.js:95-110 | previous changes the state iff the index is above 0; next changes it iff the index is below length-1 |
| Session.NextThenPrevious | app.js:95-110 | next then previous from a non-last index returns to the same state with answered cleared |
| Session.PreviousThenNext | app.js:95-110 | previous then next from an in-range index above 0 returns to the same state with answered cleared |
| Session.ButtonsMatchHandlers | app.js:339-342 | while a question is shown, previous is disabled iff index is 0, next iff index is length-1, and each is disabled iff its handler does nothing |
| Session.PickGuarded | app.js:186-199 | an option click records its value iff the question is not yet answered |
| Session.SubmitWhenAnswered | app.js:85 | submit on an answered question changes nothing and grades nothing |
| Session.SubmitGrades | app.js:262-276 | submit on a shown, unanswered question grades the draft, reports the stored answer, requests auto-advance iff correct and not last, and marks it answered |
| Session.SubmitWithoutQuestion | app.js:264-265 | submit with no question shown only records the draft and leaves the question unanswered |
| Session.SubmitIdempotent | app.js:84-92 | submit never changes bank, category or index, and a second submit after a checked one is ignored |
| Session.SubmitWrongChoice | app.js:280-281 | a multiple-choice "B" against a stored "A" is wrong, reports "A" and requests no auto-advance |
| Session.SubmitRightJudgement | app.js:287-288 | a true/false "true" against a stored "true" is right and requests auto-advance iff it is not the last question |
| Session.AutoAdvanceInRange | app.js:329-335 | when auto-advance is requested, the timer's increment equals the next handler and keeps a question shown |
| Session.DueTickKeepsRange | app.js:329-335 | a timer firing at any state whose index is below the last one does what the next button does and keeps a question shown |
| Session.StaleTimerLeavesRange | app.js:330-334 | a timer firing at the last index moves the index to length: no question shown, index out of range |
| Session.EmptyCategory | app.js:123-126 | in an empty category no question is shown, previous and next are no-ops and submit fails without marking anything answered |
| Session.StepKeepsRange | app.js:62-111 | every user handler keeps the bank and keeps the index in range |
| Session.RunKeepsRange | app.js:62-111 | any run of user actions from an in-range state stays in range |
| Session.LoadedRunsStayInRange | app.js:43-53 | after the bank is loaded at start-up, every run of user actions keeps the index in range |
| Session.RunsAroundLoadStayInRange | app.js:43-53 | user actions before the bank arrives, then the load, then more user actions: the index stays in range throughout |
| Quiz.QuizSession.constructor | app.js:2-12 | the initial fields are the initial session state |
| Quiz.QuizSession.Load | app.js:47-53 | the fields change as Session.Load says: the new bank, then the display step |
| Quiz.QuizSession.DisplayQuestion | app.js:120-173 | returns the current question or none when the index is past the end, and clears answered only when a question is shown |
| Quiz.QuizSession.UpdateNavigationButtons | app.js:339-342 | returns the button states, and while a question is shown each button is disabled iff its handler would do nothing |
| Quiz.QuizSession.SelectCategory | app.js:65-80 | the fields change as Session.Select says: category set, index 0, not answered, bank and draft kept |
| Quiz.QuizSession.Previous | app.js:95-101 | the fields change as Session.Previous says, and the index stays in range |
| Quiz.QuizSession.Next | app.js:104-110 | the fields change as Session.Next says, and the index stays in range |
| Quiz.QuizSession.AutoAdvance | app.js:329-335 | the timer callback increments the index without a check and clears answered, as Session.Tick says |
| Quiz.QuizSession.PickOption | app.js:186-199 | the fields change as Session.Pick says |
| Quiz.QuizSession.TypeFill | app.js:213-215 | the draft becomes the trimmed input text, with no answered check |
| Quiz.QuizSession.GetUserAnswer | app.js:242-260 | the draft becomes the value read from the widgets of the current category, and nothing else changes |
| Quiz.QuizSession.CheckAnswer | app.js:263-276 | grades the draft against the shown question, reports the stored answer and the auto-advance request, and marks it answered; with no question it reports NoQuestion |
| Quiz.QuizSession.Submit | app.js:84-92 | the fields and the outcome are as Session.Submit says; on an answered question nothing changes |

## Left out

- Rendering: the `textContent`/`innerHTML` writes, CSS classes, `focus`, showing and hiding elements, the question number and total texts, and the submit button's disabled state (app.js:15-28, 113-117, 130-166, 294-326). The marks after a wrong answer are modelled only as the pure `Highlight` rule.
- Widget contents: which option is selected and what the fill-in box holds are inputs to `Submit`. They are the caller's parameters and are not fields, because they live in the page. `displayQuestion` clears them on every display. The true/false option values come from the page markup, which is not part of this model.
- Question loading: `fetch`, JSON parsing and the load-failure message (app.js:43-59) are I/O. The bank is an input to `Load`, and loading is assumed to happen once, at start-up.
- Timer timing: the 1-second delay and the interleaving of the timer with other handlers. The callback is the operation `AutoAdvance`, which the environment may invoke at any point. The in-range invariant is proved for a single timer firing at a state whose index is below the last one (`DueTickKeepsRange`), not for runs that interleave timer firings with user actions, and not for a stale timer.
- Event wiring: the `addEventListener` calls on the fill-in box and the true/false options (app.js:213, 224) add one more listener to the same element on every display. This is plumbing. Each handler is modelled once. The option listener (app.js:186) is attached to a freshly created element, so it does not repeat.
- Unicode: `ToLower` lower-cases ASCII letters only. JavaScript's `toLowerCase` maps all of Unicode. `Trim` uses the ECMAScript whitespace and line-terminator code points, on Unicode scalar values rather than UTF-16 code units.
- OptionValue: takes the first Unicode scalar value of the option text. JavaScript's `option[0]` takes the first UTF-16 code unit, so an option starting with a character outside the Basic Multilingual Plane gives a lone surrogate in the widget and the whole character in the model.
- Unknown categories: the category is a closed three-valued type. The `return false` branch of `checkUserAnswer` (app.js:290) and the no-op branch of `getUserAnswer` for an unknown category cannot be reached in the model. An unknown `data-type` on a button, which the source assigns without a check, is not modelled.
- Malformed banks: a bank without one of the three categories makes the source throw on `.length`. Every operation requires a bank with all three categories (`Session.Complete`). Stored answers are assumed to be strings.
