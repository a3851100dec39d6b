/** Answer grading of the quiz widget: the three question kinds, the question
    record, the draft answer read from the input widgets when an answer is
    submitted, and the comparison of that draft with the stored answer. */
module Grading {

  datatype Option<T> = None | Some(value: T)

  /** The three categories of the question bank, keyed in the bank by
      选择题 (multiple choice), 填空题 (fill in the blank) and 判断题 (true/false). */
  datatype Kind = MultipleChoice | FillBlank | TrueFalse

  /** A question record: its text, the option strings of a multiple-choice
      question (each starting with its label letter) and the stored answer. */
  datatype Question = Question(text: string, options: seq<string>, answer: string)

  // ---------------------------------------------------------------------------
  // Trimming and lower-casing, the two string operations grading relies on
  // ---------------------------------------------------------------------------

  /** The code points JavaScript's `String.prototype.trim` removes: the
      WhiteSpace (TAB, VT, FF, ZWNBSP and the Space_Separator category) and
      LineTerminator (LF, CR, LS, PS) code points of ECMAScript. */
  predicate IsSpace(c: char) {
    var n := c as int;
    (0x09 <= n <= 0x0D) || n == 0x20 || n == 0xA0 || n == 0x1680
    || (0x2000 <= n <= 0x200A) || n == 0x2028 || n == 0x2029 || n == 0x202F
    || n == 0x205F || n == 0x3000 || n == 0xFEFF
  }

  predicate AllSpace(s: string) {
    forall i :: 0 <= i < |s| ==> IsSpace(s[i])
  }

  /** Drops the leading whitespace (TrimStartSplit shows that what is
      dropped is whitespace and what is kept is a suffix). */
  function TrimStart(s: string): (r: string)
    ensures |r| <= |s|
    ensures r == [] || !IsSpace(r[0])
  {
    if |s| > 0 && IsSpace(s[0]) then TrimStart(s[1..]) else s
  }

  /** Drops the trailing whitespace (TrimEndSplit shows that what is
      dropped is whitespace and what is kept is a prefix). */
  function TrimEnd(s: string): (r: string)
    ensures |r| <= |s|
    ensures r == [] || !IsSpace(r[|r| - 1])
  {
    if |s| > 0 && IsSpace(s[|s| - 1]) then TrimEnd(s[..|s| - 1]) else s
  }

  /** `String.prototype.trim`: whitespace removed from both ends. */
  function Trim(s: string): (r: string)
    ensures |r| <= |s|
    ensures r == [] || (!IsSpace(r[0]) && !IsSpace(r[|r| - 1]))
  {
    TrimEndKeepsFirst(TrimStart(s));
    TrimEnd(TrimStart(s))
  }

  /** The lower-case counterpart of an ASCII capital; every other character
      is left as it is. */
  function LowerChar(c: char): char {
    if 'A' <= c <= 'Z' then (c as int - 'A' as int + 'a' as int) as char else c
  }

  /** `String.prototype.toLowerCase`, restricted to ASCII letters. */
  function ToLower(s: string): (r: string)
    ensures |r| == |s|
    ensures forall i :: 0 <= i < |s| ==> r[i] == LowerChar(s[i])
  {
    if s == [] then [] else [LowerChar(s[0])] + ToLower(s[1..])
  }

  /** The normal form both sides of a fill-in answer are brought to:
      trimmed, then lower-cased. */
  function Normalize(s: string): string {
    ToLower(Trim(s))
  }

  // ---------------------------------------------------------------------------
  // Grading and the draft answer
  // ---------------------------------------------------------------------------

  /** Whether `answer` is a correct answer to `q` in a category of the given
      kind: exact equality for multiple choice and true/false, equality of
      the normal forms for fill in the blank. */
  function Grade(kind: Kind, q: Question, answer: string): bool {
    match kind
    case MultipleChoice => answer == q.answer
    case FillBlank => Normalize(answer) == Normalize(q.answer)
    case TrueFalse => answer == q.answer
  }

  /** The answer value a multiple-choice option carries: its first character.
      An empty option string has no first character; the `undefined` stored
      in the element's data attribute reads back as the string "undefined". */
  function OptionValue(option: string): string {
    if option == [] then "undefined" else option[..1]
  }

  /** The draft answer read from the input widgets at submit time: the value
      of the selected option (or the empty string when none is selected) for
      multiple choice and true/false, the trimmed text of the input box for
      fill in the blank. */
  function Draft(kind: Kind, selected: Option<string>, fillText: string): string {
    match kind
    case FillBlank => Trim(fillText)
    case _ => if selected.Some? then selected.value else ""
  }

  /** How an option is marked once an answer has been checked. */
  datatype Mark = Plain | MarkedCorrect | MarkedIncorrect

  /** The mark of an option carrying `value` after the answer was graded
      `correct` against the stored `correctText`: only after a wrong answer
      to a multiple-choice or true/false question are options marked, the
      one carrying the stored answer as correct and the selected one
      otherwise as incorrect. */
  function Highlight(kind: Kind, correct: bool, correctText: string, value: string, selected: bool): Mark {
    if correct || kind == FillBlank then Plain
    else if value == correctText then MarkedCorrect
    else if selected then MarkedIncorrect
    else Plain
  }

  // ---------------------------------------------------------------------------
  // Lemmas about trimming
  // ---------------------------------------------------------------------------

  lemma AllSpaceConcat(a: string, b: string)
    requires AllSpace(a) && AllSpace(b)
    ensures AllSpace(a + b)
  {
    forall i | 0 <= i < |a + b| ensures IsSpace((a + b)[i]) {
      if i >= |a| { assert (a + b)[i] == b[i - |a|]; }
    }
  }

  lemma {:induction false} TrimStartSkips(pre: string, t: string)
    requires AllSpace(pre)
    ensures TrimStart(pre + t) == TrimStart(t)
  {
    if pre == [] {
      assert pre + t == t;
    } else {
      assert (pre + t)[0] == pre[0];
      assert (pre + t)[1..] == pre[1..] + t;
      TrimStartSkips(pre[1..], t);
    }
  }

  lemma {:induction false} TrimEndSkips(t: string, post: string)
    requires AllSpace(post)
    ensures TrimEnd(t + post) == TrimEnd(t)
  {
    if post == [] {
      assert t + post == t;
    } else {
      var n := |t + post|;
      assert (t + post)[n - 1] == post[|post| - 1];
      assert (t + post)[..n - 1] == t + post[..|post| - 1];
      TrimEndSkips(t, post[..|post| - 1]);
    }
  }

  /** Trim is characterised by its result: a core with no whitespace at
      either end, surrounded by whitespace, trims to exactly that core. */
  lemma TrimUnique(pre: string, core: string, post: string)
    requires AllSpace(pre) && AllSpace(post)
    requires core == [] || (!IsSpace(core[0]) && !IsSpace(core[|core| - 1]))
    ensures Trim(pre + core + post) == core
  {
    assert pre + core + post == pre + (core + post);
    TrimStartSkips(pre, core + post);
    if core == [] {
      assert core + post == post + [];
      TrimStartSkips(post, []);
    } else {
      assert (core + post)[0] == core[0];
      TrimEndSkips(core, post);
    }
  }

  lemma {:induction false} TrimEndKeepsFirst(s: string)
    ensures TrimEnd(s) == [] || TrimEnd(s)[0] == s[0]
  {
    if |s| > 0 && IsSpace(s[|s| - 1]) {
      TrimEndKeepsFirst(s[..|s| - 1]);
    }
  }

  /** TrimStart keeps a suffix and drops only whitespace. */
  lemma {:induction false} TrimStartSplit(s: string) returns (pre: string)
    ensures s == pre + TrimStart(s) && AllSpace(pre)
  {
    if |s| > 0 && IsSpace(s[0]) {
      var p := TrimStartSplit(s[1..]);
      pre := [s[0]] + p;
      assert s == [s[0]] + s[1..];
      forall i | 0 <= i < |pre| ensures IsSpace(pre[i]) {
        if i > 0 { assert pre[i] == p[i - 1]; }
      }
    } else {
      pre := [];
      assert s == [] + s;
    }
  }

  /** TrimEnd keeps a prefix and drops only whitespace. */
  lemma {:induction false} TrimEndSplit(s: string) returns (post: string)
    ensures s == TrimEnd(s) + post && AllSpace(post)
  {
    if |s| > 0 && IsSpace(s[|s| - 1]) {
      var last := s[|s| - 1];
      var p := TrimEndSplit(s[..|s| - 1]);
      post := p + [last];
      assert s == s[..|s| - 1] + [last];
      forall i | 0 <= i < |post| ensures IsSpace(post[i]) {
        if i < |p| { assert post[i] == p[i]; }
      }
    } else {
      post := [];
      assert s == s + [];
    }
  }

  /** Every string is its trimmed form with whitespace around it. */
  lemma TrimSplit(s: string) returns (pre: string, post: string)
    ensures s == pre + Trim(s) + post
    ensures AllSpace(pre) && AllSpace(post)
  {
    pre := TrimStartSplit(s);
    post := TrimEndSplit(TrimStart(s));
  }

  lemma TrimIdempotent(s: string)
    ensures Trim(Trim(s)) == Trim(s)
  {
    TrimUnique([], Trim(s), []);
    assert [] + Trim(s) + [] == Trim(s);
  }

  /** Whitespace added around a string does not change its trimmed form. */
  lemma TrimIgnoresPadding(pre: string, s: string, post: string)
    requires AllSpace(pre) && AllSpace(post)
    ensures Trim(pre + s + post) == Trim(s)
  {
    var p, q := TrimSplit(s);
    AllSpaceConcat(pre, p);
    AllSpaceConcat(q, post);
    assert pre + s + post == (pre + p) + Trim(s) + (q + post);
    TrimUnique(pre + p, Trim(s), q + post);
  }

  // ---------------------------------------------------------------------------
  // Lemmas about lower-casing
  // ---------------------------------------------------------------------------

  lemma LowerKeepsSpace(c: char)
    ensures IsSpace(LowerChar(c)) == IsSpace(c)
  {
  }

  lemma ToLowerConcat(a: string, b: string)
    ensures ToLower(a + b) == ToLower(a) + ToLower(b)
  {
    var l, r := ToLower(a + b), ToLower(a) + ToLower(b);
    forall i | 0 <= i < |l| ensures l[i] == r[i] {
      if i >= |a| { assert (a + b)[i] == b[i - |a|]; }
    }
  }

  lemma ToLowerAllSpace(s: string)
    requires AllSpace(s)
    ensures AllSpace(ToLower(s))
  {
    forall i | 0 <= i < |s| ensures IsSpace(ToLower(s)[i]) { LowerKeepsSpace(s[i]); }
  }

  /** Lower-casing and trimming commute, so the fill-in normal form may be
      read as trim(lower(s)) as well as lower(trim(s)). */
  lemma LowerTrimCommute(s: string)
    ensures ToLower(Trim(s)) == Trim(ToLower(s))
  {
    var pre, post := TrimSplit(s);
    var core := Trim(s);
    ToLowerConcat(pre + core, post);
    ToLowerConcat(pre, core);
    ToLowerAllSpace(pre);
    ToLowerAllSpace(post);
    var lc := ToLower(core);
    if lc != [] {
      LowerKeepsSpace(core[0]);
      LowerKeepsSpace(core[|core| - 1]);
    }
    TrimUnique(ToLower(pre), lc, ToLower(post));
  }

  lemma ToLowerIdempotent(s: string)
    ensures ToLower(ToLower(s)) == ToLower(s)
  {
    var l := ToLower(s);
    assert forall i :: 0 <= i < |s| ==> ToLower(l)[i] == l[i];
  }

  // ---------------------------------------------------------------------------
  // Lemmas about grading
  // ---------------------------------------------------------------------------

  /** Multiple-choice and true/false answers are correct exactly when they
      equal the stored answer, character for character. */
  lemma ExactKindsCompareExactly(kind: Kind, q: Question, answer: string)
    requires kind != FillBlank
    ensures Grade(kind, q, answer) <==> answer == q.answer
  {
  }

  /** The stored answer itself is graded correct in every kind. */
  lemma StoredAnswerIsCorrect(kind: Kind, q: Question)
    ensures Grade(kind, q, q.answer)
  {
  }

  /** Fill-in grading compares trim(lower(answer)) with trim(lower(stored)). */
  lemma FillGradeIsTrimLower(q: Question, answer: string)
    ensures Grade(FillBlank, q, answer) <==> Trim(ToLower(answer)) == Trim(ToLower(q.answer))
  {
    LowerTrimCommute(answer);
    LowerTrimCommute(q.answer);
  }

  /** Fill-in grading ignores whitespace around the user's answer. */
  lemma FillIgnoresPadding(q: Question, pre: string, answer: string, post: string)
    requires AllSpace(pre) && AllSpace(post)
    ensures Grade(FillBlank, q, pre + answer + post) == Grade(FillBlank, q, answer)
  {
    TrimIgnoresPadding(pre, answer, post);
  }

  /** Fill-in grading ignores the letter case of the user's answer: two
      answers that lower-case alike are graded alike. */
  lemma FillIgnoresCase(q: Question, a: string, b: string)
    requires ToLower(a) == ToLower(b)
    ensures Grade(FillBlank, q, a) == Grade(FillBlank, q, b)
  {
    LowerTrimCommute(a);
    LowerTrimCommute(b);
  }

  /** Trimming the fill-in draft (as it is read from the input box) does not
      change its grade. */
  lemma FillDraftGradesAsTyped(q: Question, selected: Option<string>, fillText: string)
    ensures Draft(FillBlank, selected, fillText) == Trim(fillText)
    ensures Grade(FillBlank, q, Draft(FillBlank, selected, fillText)) == Grade(FillBlank, q, fillText)
  {
    TrimIdempotent(fillText);
  }

  /** With no option selected the multiple-choice or true/false draft is the
      empty string, which is correct only when the stored answer is empty. */
  lemma NoSelectionIsEmptyDraft(kind: Kind, q: Question, fillText: string)
    requires kind != FillBlank
    ensures Draft(kind, None, fillText) == ""
    ensures Grade(kind, q, Draft(kind, None, fillText)) <==> q.answer == ""
  {
  }

  /** An empty fill-in draft is correct exactly when the stored answer is
      blank (empty or whitespace only). */
  lemma EmptyFillDraft(q: Question)
    ensures Grade(FillBlank, q, "") <==> AllSpace(q.answer)
  {
    var pre, post := TrimSplit(q.answer);
    if Trim(q.answer) == [] {
      assert q.answer == pre + post;
      AllSpaceConcat(pre, post);
    }
    if AllSpace(q.answer) {
      assert q.answer + [] + [] == q.answer;
      TrimUnique(q.answer, [], []);
    }
  }

  /** Picking a labelled option is graded correct exactly when the stored
      answer is that option's label letter. */
  lemma PickedOptionGrade(q: Question, i: nat)
    requires i < |q.options| && q.options[i] != []
    ensures Grade(MultipleChoice, q, OptionValue(q.options[i])) <==> q.answer == [q.options[i][0]]
  {
    assert q.options[i][..1] == [q.options[i][0]];
  }

  /** A stored multiple-choice answer longer than one letter (and not the
      word "undefined") cannot be reached by picking any option. */
  lemma LongAnswerUnreachable(q: Question, option: string)
    requires |q.answer| != 1 && q.answer != "undefined"
    ensures !Grade(MultipleChoice, q, OptionValue(option))
  {
  }

  /** The worked fill-in example: " Paris " matches the stored "paris". */
  lemma FillExample(q: Question, typed: string)
    requires typed == " Paris " && q.answer == "paris"
    ensures Grade(FillBlank, q, typed)
  {
    var word, stored := typed[1..6], q.answer;
    assert typed == typed[..1] + word + typed[6..];
    assert Trim(typed) == word by {
      TrimUnique(typed[..1], word, typed[6..]);
    }
    assert Trim(stored) == stored by {
      assert [] + stored + [] == stored;
      TrimUnique([], stored, []);
    }
    assert ToLower(word) == stored by {
      assert forall i :: 0 <= i < 5 ==> ToLower(word)[i] == stored[i];
    }
    assert ToLower(stored) == stored by {
      assert forall i :: 0 <= i < 5 ==> ToLower(stored)[i] == stored[i];
    }
  }

  /** After a wrong pick the picked option is marked incorrect and the
      option carrying the stored answer is marked correct; after a right
      pick nothing is marked. */
  lemma PickHighlighted(kind: Kind, q: Question, value: string)
    requires kind != FillBlank
    ensures var correct := Grade(kind, q, value);
      (correct ==> Highlight(kind, correct, q.answer, value, true) == Plain)
      && (!correct ==> Highlight(kind, correct, q.answer, value, true) == MarkedIncorrect
                       && Highlight(kind, correct, q.answer, q.answer, false) == MarkedCorrect)
  {
  }
}
