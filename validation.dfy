/**
 * Submission validation (app.py lines 362-376): the annotator must be one of
 * the known names, each of questions 3 to 9 must be off its placeholder, and
 * the feedback must not be blank. Errors are collected in that order.
 */
module Validation {

  /** The known annotators (app.py line 54). */
  const ANNOTATORS: seq<string> := ["Leti", "Laura"]

  /** The placeholder pre-selected in every rating and yes/no question (app.py lines 306-308). */
  const SENTINEL: string := "Select an answer"

  /** The first question whose answer is checked; questions 1 and 2 never are. */
  const FIRST_CHECKED: nat := 3

  /** A single-choice answer: a picked label, or nothing when the pill was deselected. */
  datatype Choice = Unselected | Picked(value: string)

  /**
   * One answer set. `q1` and `q2` are the multi-select key-information
   * questions, `q3`..`q7` and `q9` ratings, `q8` the yes/no coherence question.
   */
  datatype Answers = Answers(
    q1: seq<string>, q2: seq<string>,
    q3: Choice, q4: Choice, q5: Choice, q6: Choice, q7: Choice, q8: Choice, q9: Choice)

  /** The answers that are checked, in question order 3..9. */
  function Checked(a: Answers): (r: seq<Choice>)
    ensures |r| == 7
  {
    [a.q3, a.q4, a.q5, a.q6, a.q7, a.q8, a.q9]
  }

  datatype ValidationError =
    | AnnotatorNotSelected
    | QuestionUnanswered(question: nat)
    | FeedbackMissing

  /** The text shown for an error. */
  function Message(e: ValidationError): string
  {
    match e
    case AnnotatorNotSelected => "Please select your name from the dropdown."
    case QuestionUnanswered(n) => QUESTION_PREFIX + NatToString(n) + "."
    case FeedbackMissing => "Please provide additional comments explaining low scores."
  }

  function Digit(d: nat): (c: char)
    requires d < 10
  {
    "0123456789"[d]
  }

  /** Python's `str(n)` on a non-negative integer. */
  function NatToString(n: nat): (s: string)
    ensures |s| >= 1
  {
    if n < 10 then [Digit(n)] else NatToString(n / 10) + [Digit(n % 10)]
  }

  /** Python's `str.isspace` on one character. */
  predicate IsSpace(c: char)
  {
    var n := c as int;
    || (0x09 <= n <= 0x0D) || (0x1C <= n <= 0x20) || n == 0x85 || n == 0xA0
    || n == 0x1680 || (0x2000 <= n <= 0x200A) || n == 0x2028 || n == 0x2029
    || n == 0x202F || n == 0x205F || n == 0x3000
  }

  predicate IsBlank(s: string)
  {
    forall i :: 0 <= i < |s| ==> IsSpace(s[i])
  }

  /** Leading whitespace removed. */
  function TrimStart(s: string): (r: string)
    ensures |r| <= |s| && r == s[|s| - |r|..]
    ensures r == [] || !IsSpace(r[0])
    ensures forall i :: 0 <= i < |s| - |r| ==> IsSpace(s[i])
  {
    if s != [] && IsSpace(s[0]) then TrimStart(s[1..]) else s
  }

  /** Trailing whitespace removed. */
  function TrimEnd(s: string): (r: string)
    ensures |r| <= |s| && r == s[..|r|]
    ensures r == [] || !IsSpace(r[|r| - 1])
    ensures forall i :: |r| <= i < |s| ==> IsSpace(s[i])
  {
    if s != [] && IsSpace(s[|s| - 1]) then TrimEnd(s[..|s| - 1]) else s
  }

  /** Python's `str.strip()` with no argument. */
  function Strip(s: string): string
  {
    TrimEnd(TrimStart(s))
  }

  /** `not s.strip()` holds exactly of the empty and the whitespace-only strings. */
  lemma StripEmptyIffBlank(s: string)
    ensures Strip(s) == [] <==> IsBlank(s)
  {
    if IsBlank(s) {
      assert TrimStart(s) == [];
    }
  }

  /** One error per placeholder answer, numbered from `first` in order. */
  function QuestionErrors(answers: seq<Choice>, first: nat): seq<ValidationError>
  {
    if answers == [] then []
    else
      (if answers[0] == Picked(SENTINEL) then [QuestionUnanswered(first)] else [])
      + QuestionErrors(answers[1..], first + 1)
  }

  /** The error list the submit handler builds, in order. */
  function ValidationErrors(annotator: string, answers: Answers, feedback: string): seq<ValidationError>
  {
    (if annotator in ANNOTATORS then [] else [AnnotatorNotSelected])
    + QuestionErrors(Checked(answers), FIRST_CHECKED)
    + (if Strip(feedback) == [] then [FeedbackMissing] else [])
  }

  lemma {:induction false} QuestionErrorsSnoc(answers: seq<Choice>, x: Choice, first: nat)
    ensures QuestionErrors(answers + [x], first)
         == QuestionErrors(answers, first)
          + (if x == Picked(SENTINEL) then [QuestionUnanswered(first + |answers|)] else [])
  {
    if answers != [] {
      assert (answers + [x])[1..] == answers[1..] + [x];
      QuestionErrorsSnoc(answers[1..], x, first + 1);
    }
  }

  /** The submit handler's loop: it appends one error per offending condition. */
  method Validate(annotator: string, answers: Answers, feedback: string) returns (errors: seq<ValidationError>)
    ensures errors == ValidationErrors(annotator, answers, feedback)
  {
    errors := [];
    if annotator !in ANNOTATORS {
      errors := errors + [AnnotatorNotSelected];
    }
    var checked := Checked(answers);
    errors := AppendQuestionErrors(errors, checked);
    if Strip(feedback) == [] {
      errors := errors + [FeedbackMissing];
    }
  }

  /** The loop over questions 3..9 of the submit handler. */
  method AppendQuestionErrors(init: seq<ValidationError>, checked: seq<Choice>) returns (errors: seq<ValidationError>)
    ensures errors == init + QuestionErrors(checked, FIRST_CHECKED)
  {
    errors := init;
    var k := 0;
    while k < |checked|
      invariant 0 <= k <= |checked|
      invariant errors == init + QuestionErrors(checked[..k], FIRST_CHECKED)
    {
      QuestionErrorsSnoc(checked[..k], checked[k], FIRST_CHECKED);
      assert checked[..k + 1] == checked[..k] + [checked[k]];
      if checked[k] == Picked(SENTINEL) {
        errors := errors + [QuestionUnanswered(FIRST_CHECKED + k)];
      }
      k := k + 1;
    }
    assert checked[..k] == checked;
  }

  /** Which question errors there are: exactly one per placeholder answer. */
  lemma {:induction false} QuestionErrorsMembers(answers: seq<Choice>, first: nat, e: ValidationError)
    ensures e in QuestionErrors(answers, first) <==>
      && e.QuestionUnanswered?
      && first <= e.question < first + |answers|
      && answers[e.question - first] == Picked(SENTINEL)
  {
    if answers != [] {
      var head := if answers[0] == Picked(SENTINEL) then [QuestionUnanswered(first)] else [];
      var rest := QuestionErrors(answers[1..], first + 1);
      assert QuestionErrors(answers, first) == head + rest;
      assert e in head + rest <==> e in head || e in rest;
      QuestionErrorsMembers(answers[1..], first + 1, e);
      if e.QuestionUnanswered? && first < e.question < first + |answers| {
        assert answers[e.question - first] == answers[1..][e.question - (first + 1)];
      }
    }
  }

  /** Position of an error in the list: annotator first, questions by number, feedback last. */
  function Rank(e: ValidationError): nat
  {
    match e
    case AnnotatorNotSelected => 0
    case QuestionUnanswered(n) => n
    case FeedbackMissing => FIRST_CHECKED + 7
  }

  predicate InOrder(errors: seq<ValidationError>)
  {
    forall i, j :: 0 <= i < j < |errors| ==> Rank(errors[i]) < Rank(errors[j])
  }

  lemma {:induction false} QuestionErrorsInOrder(answers: seq<Choice>, first: nat)
    ensures InOrder(QuestionErrors(answers, first))
    ensures forall k :: 0 <= k < |QuestionErrors(answers, first)| ==>
      first <= Rank(QuestionErrors(answers, first)[k]) < first + |answers|
  {
    if answers != [] {
      QuestionErrorsInOrder(answers[1..], first + 1);
    }
  }

  /** Two ordered lists, every rank of the first below every rank of the second, join in order. */
  lemma InOrderConcat(xs: seq<ValidationError>, ys: seq<ValidationError>)
    requires InOrder(xs) && InOrder(ys)
    requires forall i, j :: 0 <= i < |xs| && 0 <= j < |ys| ==> Rank(xs[i]) < Rank(ys[j])
    ensures InOrder(xs + ys)
  {
    var zs := xs + ys;
    forall i, j | 0 <= i < j < |zs| ensures Rank(zs[i]) < Rank(zs[j]) {
      if j < |xs| {
        assert zs[i] == xs[i] && zs[j] == xs[j];
      } else if i < |xs| {
        assert zs[i] == xs[i] && zs[j] == ys[j - |xs|];
      } else {
        assert zs[i] == ys[i - |xs|] && zs[j] == ys[j - |xs|];
      }
    }
  }

  /**
   * The error list is in the fixed order: the annotator error, then the
   * question errors by increasing question number, then the feedback error,
   * each at most once.
   */
  lemma ValidationErrorsInOrder(annotator: string, answers: Answers, feedback: string)
    ensures InOrder(ValidationErrors(annotator, answers, feedback))
  {
    var head := if annotator in ANNOTATORS then [] else [AnnotatorNotSelected];
    var qs := QuestionErrors(Checked(answers), FIRST_CHECKED);
    var tail := if Strip(feedback) == [] then [FeedbackMissing] else [];
    QuestionErrorsInOrder(Checked(answers), FIRST_CHECKED);
    InOrderConcat(head, qs);
    forall i, j | 0 <= i < |head + qs| && 0 <= j < |tail| ensures Rank((head + qs)[i]) < Rank(tail[j]) {
      if i >= |head| { assert (head + qs)[i] == qs[i - |head|]; }
    }
    InOrderConcat(head + qs, tail);
  }

  /** Which errors there are. */
  lemma ValidationErrorsMembers(annotator: string, answers: Answers, feedback: string, e: ValidationError)
    ensures e in ValidationErrors(annotator, answers, feedback) <==>
      match e
      case AnnotatorNotSelected => annotator !in ANNOTATORS
      case QuestionUnanswered(n) =>
        FIRST_CHECKED <= n < FIRST_CHECKED + 7 && Checked(answers)[n - FIRST_CHECKED] == Picked(SENTINEL)
      case FeedbackMissing => IsBlank(feedback)
  {
    QuestionErrorsMembers(Checked(answers), FIRST_CHECKED, e);
    StripEmptyIffBlank(feedback);
  }

  /** A submission passes exactly when none of the three conditions holds. */
  lemma ValidationErrorsEmptyIff(annotator: string, answers: Answers, feedback: string)
    ensures ValidationErrors(annotator, answers, feedback) == [] <==>
      && annotator in ANNOTATORS
      && (forall k :: 0 <= k < 7 ==> Checked(answers)[k] != Picked(SENTINEL))
      && !IsBlank(feedback)
  {
    var errors := ValidationErrors(annotator, answers, feedback);
    ValidationErrorsMembers(annotator, answers, feedback, AnnotatorNotSelected);
    ValidationErrorsMembers(annotator, answers, feedback, FeedbackMissing);
    forall k | 0 <= k < 7
      ensures QuestionUnanswered(FIRST_CHECKED + k) in errors <==> Checked(answers)[k] == Picked(SENTINEL)
    {
      ValidationErrorsMembers(annotator, answers, feedback, QuestionUnanswered(FIRST_CHECKED + k));
    }
    if errors != [] {
      var e := errors[0];
      ValidationErrorsMembers(annotator, answers, feedback, e);
      if e.QuestionUnanswered? {
        assert QuestionUnanswered(FIRST_CHECKED + (e.question - FIRST_CHECKED)) in errors;
      }
    }
  }

  /** Blank feedback is always rejected, and its error comes last. */
  lemma BlankFeedbackRejected(annotator: string, answers: Answers, feedback: string)
    requires IsBlank(feedback)
    ensures var errors := ValidationErrors(annotator, answers, feedback);
      errors != [] && errors[|errors| - 1] == FeedbackMissing
  {
    StripEmptyIffBlank(feedback);
  }

  /** The key-information answers (questions 1 and 2) never affect validation. */
  lemma KeyInformationNotChecked(annotator: string, answers: Answers, feedback: string, cc: seq<string>, ds: seq<string>)
    ensures ValidationErrors(annotator, answers.(q1 := cc, q2 := ds), feedback)
         == ValidationErrors(annotator, answers, feedback)
  {
    assert Checked(answers.(q1 := cc, q2 := ds)) == Checked(answers);
  }

  /**
   * Only the placeholder is flagged: a pill that was deselected entirely
   * passes the check.
   */
  lemma DeselectedPillPasses(annotator: string, answers: Answers, feedback: string, n: nat)
    requires FIRST_CHECKED <= n < FIRST_CHECKED + 7
    requires Checked(answers)[n - FIRST_CHECKED] == Unselected
    ensures QuestionUnanswered(n) !in ValidationErrors(annotator, answers, feedback)
  {
    ValidationErrorsMembers(annotator, answers, feedback, QuestionUnanswered(n));
  }

  const QUESTION_PREFIX: string := "Please select an answer for Question "

  /** Distinct errors the validator can report read differently. */
  lemma MessagesDistinct(e1: ValidationError, e2: ValidationError)
    requires e1.QuestionUnanswered? ==> e1.question < 10
    requires e2.QuestionUnanswered? ==> e2.question < 10
    requires e1 != e2
    ensures Message(e1) != Message(e2)
  {
    if e1.QuestionUnanswered? && e2.QuestionUnanswered? {
      assert Message(e1)[|QUESTION_PREFIX|] == Digit(e1.question);
      assert Message(e2)[|QUESTION_PREFIX|] == Digit(e2.question);
      assert "0123456789"[e1.question] != "0123456789"[e2.question];
    }
  }
}
