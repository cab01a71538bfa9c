/** `answerLearnQuestions` in solver.js: find the question buttons of the learn page, open
    each unanswered question, pick the choice that matches the stored answer, submit it
    and close the dialog, counting answered and skipped questions. The page is handed in
    as records, and each sleep passes the flag through `RunState.Sleep`. */
module Quiz {
  import opened Text
  import opened Wrappers
  import opened Scan
  import opened Numbers
  import opened RunState
  import opened AnswerMatch
  import Quests

  const QuestionPrefix: string := "Question "

  /** `/^Question \d+$/`: the prefix and then one or more decimal digits, nothing else. */
  predicate IsQuestionLabel(s: string) {
    |s| > |QuestionPrefix| && s[..|QuestionPrefix|] == QuestionPrefix &&
    forall k :: |QuestionPrefix| <= k < |s| ==> IsDigit(s[k])
  }

  /** The key under which the answer of the question at position `i` of the filtered
      list is stored: `Question ${i + 1}`, by position and not by the heading shown. */
  function Key(i: nat): (r: string)
    ensures IsQuestionLabel(r)
  {
    var r := QuestionPrefix + ShowNat(i + 1);
    assert r[..|QuestionPrefix|] == QuestionPrefix;
    r
  }

  /** Different positions look up different answers. */
  lemma KeyInjective(i: nat, j: nat)
    requires Key(i) == Key(j)
    ensures i == j
  {
    assert Key(i)[|QuestionPrefix|..] == ShowNat(i + 1);
    assert Key(j)[|QuestionPrefix|..] == ShowNat(j + 1);
    ShowNatInjective(i + 1, j + 1);
  }

  /** The key of a position is the heading of a question button exactly when that button
      shows the number one past its position. */
  lemma KeyIsHeading(i: nat, n: nat)
    ensures Key(i) == QuestionPrefix + ShowNat(n) <==> n == i + 1
  {
    if Key(i) == QuestionPrefix + ShowNat(n) {
      assert Key(i)[|QuestionPrefix|..] == ShowNat(i + 1);
      assert (QuestionPrefix + ShowNat(n))[|QuestionPrefix|..] == ShowNat(n);
      ShowNatInjective(i + 1, n);
    }
  }

  /** A button of the learn page, by the text of its first `h2`/`h3`. */
  datatype QuestionButton = QuestionButton(heading: Option<string>)

  predicate IsQuestionButton(b: QuestionButton) {
    b.heading.Some? && IsQuestionLabel(b.heading.value)
  }

  /** The discovery loop: the question buttons, in document order. */
  function Questions(bs: seq<QuestionButton>): (r: seq<QuestionButton>)
    ensures |r| <= |bs|
    ensures forall k :: 0 <= k < |r| ==> IsQuestionButton(r[k]) && r[k] in bs
    decreases |bs|
  {
    if bs == [] then []
    else if IsQuestionButton(bs[0]) then [bs[0]] + Questions(bs[1..])
    else Questions(bs[1..])
  }

  /** The discovery keeps document order, which the positional key `Question i+1`
      relies on: discovering in a concatenation is discovering in each half, and a
      single button is kept exactly when its heading is a question label. */
  lemma {:induction false} QuestionsAppend(a: seq<QuestionButton>, b: seq<QuestionButton>)
    ensures Questions(a + b) == Questions(a) + Questions(b)
    ensures forall x :: Questions([x]) == (if IsQuestionButton(x) then [x] else [])
    decreases |a|
  {
    if a != [] {
      assert (a + b)[1..] == a[1..] + b;
      QuestionsAppend(a[1..], b);
    } else {
      assert a + b == b;
    }
    forall x
      ensures Questions([x]) == (if IsQuestionButton(x) then [x] else [])
    {
      assert [x][1..] == [];
    }
  }

  /** The discovery loop over the buttons: a button whose heading is a question label
      is pushed. */
  method FindQuestionButtons(bs: seq<QuestionButton>) returns (qs: seq<QuestionButton>)
    ensures qs == Questions(bs)
  {
    qs := [];
    var i := 0;
    while i < |bs|
      invariant 0 <= i <= |bs|
      invariant qs + Questions(bs[i..]) == Questions(bs)
      decreases |bs| - i
    {
      assert bs[i..][1..] == bs[i + 1..];
      if bs[i].heading.Some? && IsQuestionLabel(bs[i].heading.value) {
        qs := qs + [bs[i]];
      }
      i := i + 1;
    }
  }

  /** No question button is missed, and there is none exactly when no button qualifies. */
  lemma {:induction false} QuestionsComplete(bs: seq<QuestionButton>)
    ensures forall b :: b in bs && IsQuestionButton(b) ==> b in Questions(bs)
    ensures Questions(bs) == [] <==> forall k :: 0 <= k < |bs| ==> !IsQuestionButton(bs[k])
    decreases |bs|
  {
    if bs != [] {
      QuestionsComplete(bs[1..]);
      assert forall k :: 1 <= k < |bs| ==> bs[k] == bs[1..][k - 1];
    }
  }

  /** An `input[type="radio"]`: its `id` (`""` when absent), the text of the label that
      names it, and the text of its parent. */
  datatype NativeRadio = NativeRadio(id: string, forLabel: Option<string>, parentText: Option<string>)

  /** A `[role="radio"]` element and the text of its parent. */
  datatype RoleRadio = RoleRadio(parentText: Option<string>)

  /** The label of a native radio: the trimmed text of its label when it has an id and a
      label, or else the trimmed text of its parent. */
  function NativeLabel(r: NativeRadio): (shown: string)
    ensures Unpadded(shown)
    ensures (r.id == [] || r.forLabel.None?) && r.parentText.None? ==> shown == []
    ensures r.id != [] && r.forLabel.Some? && Trim(r.forLabel.value) != [] ==> shown == Trim(r.forLabel.value)
    ensures !(r.id != [] && r.forLabel.Some? && Trim(r.forLabel.value) != []) && r.parentText.Some? ==>
      shown == Trim(r.parentText.value)
  {
    var own := if r.id != [] && r.forLabel.Some? then TrimSpec(r.forLabel.value); Trim(r.forLabel.value) else [];
    if own == [] && r.parentText.Some? then TrimSpec(r.parentText.value); Trim(r.parentText.value) else own
  }

  /** The label of a role radio: the trimmed text of its parent, or `""`. */
  function RoleLabel(r: RoleRadio): (shown: string)
    ensures Unpadded(shown)
    ensures r.parentText.None? ==> shown == []
    ensures r.parentText.Some? ==> shown == Trim(r.parentText.value)
  {
    if r.parentText.Some? then TrimSpec(r.parentText.value); Trim(r.parentText.value) else []
  }

  /** A page action of the quiz run. */
  datatype QuizAction =
    | OpenLearn
    | ClickQuestion(question: nat)
    | ClickQuickClose
    | ClickNative(radio: nat)
    | ClickRole(radio: nat)
    | ClickQuizSubmit(button: nat)
    | ClickQuizClose(button: nat)

  /** What one iteration of the counting loop observes: whether the question's button
      shows one of the completion icons when the loop reaches it (after the earlier
      questions were answered), then, in the opened dialog, its native and role radios,
      its buttons when submitting and when closing, and whether the close query used
      when no answer is stored finds a button. */
  datatype QuizDialog = QuizDialog(
    checked: bool, native: seq<NativeRadio>, role: seq<RoleRadio>,
    submitButtons: seq<string>, closeButtons: seq<string>, quickClose: bool)

  function QuizDialogAt(ds: seq<QuizDialog>, i: nat): QuizDialog {
    if i < |ds| then ds[i] else QuizDialog(false, [], [], [], [], false)
  }

  /** The test of each radio loop: the radio's label matches the answer. */
  function NativeMatches(answer: string): NativeRadio -> bool {
    r => IsAnswerMatch(NativeLabel(r), answer)
  }

  function RoleMatches(answer: string): RoleRadio -> bool {
    r => IsAnswerMatch(RoleLabel(r), answer)
  }

  /** The choice clicked for a stored answer: the first matching native radio, or else
      the first matching role radio. Both loops break at once when the flag is clear,
      and nothing in them sleeps before a match, so the flag is read once. */
  function Choose(d: QuizDialog, answer: string, running: bool): (r: Option<QuizAction>)
    ensures r.Some? ==> running
    ensures r.Some? && r.value.ClickNative? ==>
      r.value.radio < |d.native| && IsAnswerMatch(NativeLabel(d.native[r.value.radio]), answer) &&
      forall k :: 0 <= k < r.value.radio ==> !IsAnswerMatch(NativeLabel(d.native[k]), answer)
    ensures r.Some? && r.value.ClickRole? ==>
      r.value.radio < |d.role| && IsAnswerMatch(RoleLabel(d.role[r.value.radio]), answer) &&
      (forall k :: 0 <= k < r.value.radio ==> !IsAnswerMatch(RoleLabel(d.role[k]), answer)) &&
      forall k :: 0 <= k < |d.native| ==> !IsAnswerMatch(NativeLabel(d.native[k]), answer)
    ensures r.Some? ==> r.value.ClickNative? || r.value.ClickRole?
    ensures r.None? && running ==>
      (forall k :: 0 <= k < |d.native| ==> !IsAnswerMatch(NativeLabel(d.native[k]), answer)) &&
      (forall k :: 0 <= k < |d.role| ==> !IsAnswerMatch(RoleLabel(d.role[k]), answer))
  {
    if !running then None
    else
      match First(d.native, NativeMatches(answer))
      case Some(k) => Some(ClickNative(k))
      case None =>
        match First(d.role, RoleMatches(answer))
        case Some(k) => Some(ClickRole(k))
        case None => None
  }

  predicate IsQuizSubmit(text: string) {
    Contains(Lower(text), "submit")
  }

  predicate IsQuizClose(text: string) {
    Clean(text) == "close" || Clean(text) == "ok" || Contains(Clean(text), "continue")
  }

  /** The run's flag, its two counters and its page actions. */
  datatype QuizRun = QuizRun(flag: Flag, answered: nat, skipped: nat, trace: seq<QuizAction>)

  function Wait(q: QuizRun): QuizRun {
    q.(flag := Sleep(q.flag))
  }

  function Act(q: QuizRun, a: QuizAction): QuizRun {
    q.(trace := q.trace + [a])
  }

  /** Clicking the chosen radio, when there is one, and sleeping after it. */
  function Picked(pick: Option<QuizAction>, q: QuizRun): (r: QuizRun)
    ensures q.trace <= r.trace
    ensures pick.None? ==> r == q
    ensures pick.Some? ==>
      r.trace == q.trace + [pick.value] && r.flag == Sleep(q.flag) &&
      r.answered == q.answered && r.skipped == q.skipped
  {
    if pick.Some? then Wait(Act(q, pick.value)) else q
  }

  /** Submitting after a choice: the first submit button is clicked, followed by a sleep,
      and the question counts as answered. */
  function Submitted(d: QuizDialog, pick: Option<QuizAction>, q: QuizRun): (r: QuizRun)
    ensures q.trace <= r.trace
    ensures r == q <==> pick.None? || forall k :: 0 <= k < |d.submitButtons| ==> !IsQuizSubmit(d.submitButtons[k])
    ensures r != q ==>
      r.trace == q.trace + [ClickQuizSubmit(First(d.submitButtons, IsQuizSubmit).value)] &&
      r.flag == Sleep(q.flag) && r.answered == q.answered + 1 && r.skipped == q.skipped
  {
    if pick.None? then q
    else match First(d.submitButtons, IsQuizSubmit)
      case None => q
      case Some(b) => var s := Wait(Act(q, ClickQuizSubmit(b))); s.(answered := s.answered + 1)
  }

  /** Closing the dialog: the first close button is clicked, followed by a sleep. */
  function Closed(d: QuizDialog, q: QuizRun): (r: QuizRun)
    ensures q.trace <= r.trace
    ensures r == q <==> forall k :: 0 <= k < |d.closeButtons| ==> !IsQuizClose(d.closeButtons[k])
    ensures r != q ==>
      r.trace == q.trace + [ClickQuizClose(First(d.closeButtons, IsQuizClose).value)] &&
      r.flag == Sleep(q.flag) && r.answered == q.answered && r.skipped == q.skipped
  {
    match First(d.closeButtons, IsQuizClose)
    case None => q
    case Some(b) => Wait(Act(q, ClickQuizClose(b)))
  }

  /** Answering an opened question with a stored answer: click the chosen radio, submit
      when a choice was clicked and a submit button exists, then close the dialog, with
      a sleep after each of the three. */
  function AnswerOpened(d: QuizDialog, answer: string, q: QuizRun): (r: QuizRun)
    ensures q.trace <= r.trace
  {
    var pick := Choose(d, answer, q.flag.running);
    Wait(Closed(d, Wait(Submitted(d, pick, Wait(Picked(pick, q))))))
  }

  /** One question of the counting loop, entered with the flag set: a checkmarked one is
      skipped; any other is opened, and then answered when an answer is stored under its
      positional key, or closed without counting when none is. */
  function AnswerOne(i: nat, d: QuizDialog, answers: map<string, string>, q: QuizRun): (r: QuizRun)
    ensures q.trace <= r.trace
  {
    if d.checked then q.(skipped := q.skipped + 1)
    else
      var shown := Wait(Act(q, ClickQuestion(i)));
      if Key(i) !in answers then Wait(if d.quickClose then Act(shown, ClickQuickClose) else shown)
      else AnswerOpened(d, answers[Key(i)], shown)
  }

  /** A question counts as answered exactly when it has no checkmark, an answer is stored
      under its key, the flag was still set after opening it, a choice matched and a
      submit button was found; it counts as skipped exactly when it has a checkmark; and
      never both. */
  lemma AnswerOneCounts(i: nat, d: QuizDialog, answers: map<string, string>, q: QuizRun)
    ensures var r := AnswerOne(i, d, answers, q);
      (r.answered == q.answered + 1 <==>
        !d.checked && Key(i) in answers && Choose(d, answers[Key(i)], Sleep(q.flag).running).Some? &&
        exists k :: 0 <= k < |d.submitButtons| && IsQuizSubmit(d.submitButtons[k])) &&
      (r.skipped == q.skipped + 1 <==> d.checked) &&
      q.answered <= r.answered <= q.answered + 1 && q.skipped <= r.skipped <= q.skipped + 1 &&
      (r.answered == q.answered || r.skipped == q.skipped)
  {
  }

  /** The counting loop from question `i` on; it stops at the first iteration that finds
      the flag clear. */
  function AnswerFrom(qs: seq<QuestionButton>, ds: seq<QuizDialog>, answers: map<string, string>, i: nat, q: QuizRun): (r: QuizRun)
    requires i <= |qs|
    ensures q.trace <= r.trace
    decreases |qs| - i
  {
    if i == |qs| || !q.flag.running then q
    else AnswerFrom(qs, ds, answers, i + 1, AnswerOne(i, QuizDialogAt(ds, i), answers, q))
  }

  /** The loop counts at most one per question. */
  lemma {:induction false} AnswerFromCounts(qs: seq<QuestionButton>, ds: seq<QuizDialog>, answers: map<string, string>, i: nat, q: QuizRun)
    requires i <= |qs|
    ensures var r := AnswerFrom(qs, ds, answers, i, q);
      q.answered <= r.answered && q.skipped <= r.skipped &&
      (r.answered - q.answered) + (r.skipped - q.skipped) <= |qs| - i
    decreases |qs| - i
  {
    if i < |qs| && q.flag.running {
      AnswerOneCounts(i, QuizDialogAt(ds, i), answers, q);
      AnswerFromCounts(qs, ds, answers, i + 1, AnswerOne(i, QuizDialogAt(ds, i), answers, q));
    }
  }

  /** What the learn page shows: the location, its buttons, and the dialogs of the
      questions in discovery order. */
  datatype QuizPage = QuizPage(href: string, pathname: string, buttons: seq<QuestionButton>, dialogs: seq<QuizDialog>)

  const NotOnLearnPortal: string := "Not on " + Quests.PortalHost + " - please navigate to /learn first"
  const LoadAnswersFailed: string := "Failed to load learn answers file"

  /** `loadLearnAnswers`: the answers already loaded, or the fetched file, or an error. */
  function LoadAnswers(loaded: Option<map<string, string>>, fetched: Option<map<string, string>>): (r: Result<map<string, string>>)
    ensures r.Failure? <==> loaded.None? && fetched.None?
    ensures r.Failure? ==> r.error == LoadAnswersFailed
    ensures loaded.Some? ==> r == Success(loaded.value)
  {
    if loaded.Some? then Success(loaded.value)
    else if fetched.Some? then Success(fetched.value)
    else Failure(LoadAnswersFailed)
  }

  /** `answerLearnQuestions`: load the answers, check the location, go to `/learn` when
      elsewhere, wait for the page, discover the questions and run the counting loop.
      With no question it returns normally. The answers loaded are returned too, since
      they stay loaded for later runs. */
  function AnswerQuestions(loaded: Option<map<string, string>>, fetched: Option<map<string, string>>, p: QuizPage, f: Flag): (r: (Outcome, Option<map<string, string>>, QuizRun))
    ensures r.0.Thrown? ==> r.2 == QuizRun(f, 0, 0, [])
    ensures r.0.Thrown? ==> r.0 == Thrown(LoadAnswersFailed) || r.0 == Thrown(NotOnLearnPortal)
  {
    var q := QuizRun(f, 0, 0, []);
    match LoadAnswers(loaded, fetched)
    case Failure(e) => (Thrown(e), loaded, q)
    case Success(answers) =>
      if !Contains(p.href, Quests.PortalHost) then (Thrown(NotOnLearnPortal), Some(answers), q)
      else
        var q0 := if Contains(p.pathname, "/learn") then q else Wait(Act(q, OpenLearn));
        var q1 := Wait(q0);
        var qs := Questions(p.buttons);
        if qs == [] then (Done, Some(answers), q1)
        else (Done, Some(answers), AnswerFrom(qs, p.dialogs, answers, 0, q1))
  }

  /** The run throws exactly when no answers can be loaded or it is not on the portal,
      with the message of each case; it answers nothing when the page has no question;
      and its counters never exceed the number of questions. */
  lemma AnswerQuestionsSpec(loaded: Option<map<string, string>>, fetched: Option<map<string, string>>, p: QuizPage, f: Flag)
    ensures var r := AnswerQuestions(loaded, fetched, p, f);
      (r.0 == Thrown(LoadAnswersFailed) <==> loaded.None? && fetched.None?) &&
      (r.0 == Thrown(NotOnLearnPortal) <==> (loaded.Some? || fetched.Some?) && !Contains(p.href, Quests.PortalHost)) &&
      (Questions(p.buttons) == [] ==> r.2.answered == 0 && r.2.skipped == 0) &&
      (loaded.Some? ==> r.1 == loaded) &&
      r.2.answered + r.2.skipped <= |Questions(p.buttons)|
  {
    assert NotOnLearnPortal[3] == ' ' && LoadAnswersFailed[3] == 'l';
    var q := QuizRun(f, 0, 0, []);
    var l := LoadAnswers(loaded, fetched);
    if l.Success? && Contains(p.href, Quests.PortalHost) {
      var q0 := if Contains(p.pathname, "/learn") then q else Wait(Act(q, OpenLearn));
      var qs := Questions(p.buttons);
      if qs != [] {
        AnswerFromCounts(qs, p.dialogs, l.value, 0, Wait(q0));
      }
    }
  }
}
