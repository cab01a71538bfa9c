/** The content script of `solver.js` as it runs: one object holding the module-level
    state (`isRunning` with its pending stop, `solvedPuzzles`, `currentPuzzleId`,
    `solutions`, `learnAnswers`) and the trace of page actions, with the script's loops
    written as loops. Each method is proved to leave the state, and to return, exactly
    what the functions of `Solver`, `Polling`, `Quests` and `Quiz` say. */
module Session {
  import opened Wrappers
  import opened Text
  import opened Scan
  import opened RunState
  import opened PuzzleIds
  import opened Grid
  import opened Polling
  import Solver
  import Quests
  import Quiz
  import opened AnswerMatch

  class Session {
    var flag: Flag
    var solved: set<string>
    var current: Option<string>
    var solutions: Option<map<string, Solver.Solution>>
    var learnAnswers: Option<map<string, string>>
    var trace: seq<Solver.Action>

    /** The part of the state the solver functions work on. */
    function Snapshot(): Solver.State
      reads this
    {
      Solver.State(flag, solved, current, solutions, trace)
    }

    /** The script as loaded: not running, nothing solved, current or loaded; `stopIn`
        says after how many sleeps a `STOP_SOLVER` message arrives. */
    constructor (stopIn: Option<nat>)
      ensures Snapshot() == Solver.State(Flag(false, stopIn), {}, None, None, [])
      ensures learnAnswers == None
    {
      flag := Flag(false, stopIn);
      solved := {};
      current := None;
      solutions := None;
      learnAnswers := None;
      trace := [];
    }

    /** `await sleep(…)`: a stop message may be handled meanwhile. */
    method Pause()
      modifies this
      ensures Snapshot() == Solver.Pause(old(Snapshot())) && learnAnswers == old(learnAnswers)
    {
      flag := Sleep(flag);
    }

    method Click(a: Solver.Action)
      modifies this
      ensures Snapshot() == Solver.Do(old(Snapshot()), a) && learnAnswers == old(learnAnswers)
    {
      trace := trace + [a];
    }

    /** `stopSolver()`. */
    method StopSolver()
      modifies this
      ensures Snapshot() == Solver.Stopped(old(Snapshot())) && learnAnswers == old(learnAnswers)
    {
      flag := flag.(running := false);
    }

    /** The reply to `GET_SOLVER_STATUS`. */
    method GetSolverStatus(headings: seq<string>) returns (isRunning: bool, solvedCount: nat, currentPuzzle: string)
      ensures (isRunning, solvedCount, currentPuzzle) == Solver.Status(headings, Snapshot())
    {
      var pid := GetPuzzleId(headings);
      currentPuzzle := if Truthy(pid) then pid.value else "N/A";
      return flag.running, |solved|, currentPuzzle;
    }

    // ------------------------------------------------------------ solving a puzzle

    /** `solvePuzzle`: the grid search, then one click and one sleep per target that has
        a cell, breaking off as soon as the flag is clear. */
    method SolvePuzzle(page: seq<Element>, targets: Solver.Solution) returns (o: Outcome)
      modifies this
      ensures (o, Snapshot()) == Solver.SolvePuzzle(page, targets, old(Snapshot()))
      ensures learnAnswers == old(learnAnswers)
    {
      var g := FindFirst(page, IsGridDiv);
      if g.None? {
        return Thrown(Solver.GridNotFound);
      }
      var cells := Clickable(page[g.value].cells);
      ghost var st0 := Snapshot();
      var i := 0;
      while i < |targets|
        invariant 0 <= i <= |targets|
        invariant Solver.SolveFrom(cells, targets, i, Snapshot()) == Solver.SolveFrom(cells, targets, 0, st0)
        invariant learnAnswers == old(learnAnswers)
        decreases |targets| - i
      {
        if !flag.running {
          break;
        }
        var k := FindCell(cells, targets[i]);
        if k.Some? {
          Click(Solver.ClickCell(k.value));
          Pause();
        }
        i := i + 1;
      }
      return Done;
    }

    /** `submitSolution`. */
    method SubmitSolution(buttons: seq<string>) returns (o: Outcome)
      modifies this
      ensures (o, Snapshot()) == Solver.SubmitSolution(buttons, old(Snapshot()))
      ensures learnAnswers == old(learnAnswers)
    {
      var b := FindFirst(buttons, Solver.IsSubmitButton);
      if b.None? {
        return Thrown(Solver.SubmitNotFound);
      }
      Click(Solver.ClickSubmit(b.value));
      Pause();
      return Done;
    }

    /** `waitForSubmissionResult`: poll every 200 ms for up to 5 s. `k` counts the polls
        made, so that `elapsed == 200 * k`. */
    method WaitForSubmissionResult(polls: seq<string>) returns (success: bool)
      modifies this
      ensures (success, Snapshot()) == Solver.WaitForResult(polls, old(Snapshot()))
      ensures learnAnswers == old(learnAnswers)
    {
      var elapsed := 0;
      var k: nat := 0;
      while elapsed < SubmitMaxWait
        invariant elapsed == k * SubmitInterval
        invariant SubmitFrom(polls, k) == SubmitResult(polls)
        invariant Snapshot() == old(Snapshot()).(flag := Sleeps(old(flag), k))
        invariant learnAnswers == old(learnAnswers)
        decreases SubmitMaxWait - elapsed
      {
        var text := PollText(polls, k);
        if IsSuccessText(text) {
          return true;
        }
        if IsFailureText(text) {
          return false;
        }
        Pause();
        SleepsSucc(old(flag), k);
        elapsed := elapsed + SubmitInterval;
        k := k + 1;
      }
      return false;
    }

    // ------------------------------------------------------------ login

    /** `clickLoginButton`. */
    method ClickLoginButton(buttons: seq<string>) returns (clicked: bool)
      modifies this
      ensures (clicked, Snapshot()) == Solver.ClickLoginButton(buttons, old(Snapshot()))
      ensures learnAnswers == old(learnAnswers)
    {
      var b := FindFirst(buttons, Solver.IsLoginButton);
      if b.None? {
        return false;
      }
      Click(Solver.ClickLogin(b.value));
      return true;
    }

    /** `waitForLogin`: poll every second for up to five minutes while the flag is set.
        `k` counts the polls made, so that `elapsed == 1000 * k`. */
    method WaitForLogin(polls: seq<LoginPoll>) returns (o: Outcome)
      modifies this
      ensures (o, flag) == Polling.WaitForLogin(polls, old(flag))
      ensures Snapshot() == old(Snapshot()).(flag := flag) && learnAnswers == old(learnAnswers)
    {
      var elapsed := 0;
      var k: nat := 0;
      while elapsed < LoginMaxWait && flag.running
        invariant elapsed == k * LoginInterval
        invariant LoginFrom(polls, k, flag) == Polling.WaitForLogin(polls, old(flag))
        invariant Snapshot() == old(Snapshot()).(flag := flag) && learnAnswers == old(learnAnswers)
        decreases LoginMaxWait - elapsed
      {
        if IsLoggedIn(LoginPollAt(polls, k)) {
          return Done;
        }
        Pause();
        elapsed := elapsed + LoginInterval;
        k := k + 1;
      }
      if !flag.running {
        return Thrown(StoppedWhileWaiting);
      }
      return Thrown(LoginTimeout);
    }

    /** `initializeFromCurrentState`. */
    method Initialize(v: Solver.InitView) returns (o: Outcome)
      modifies this
      ensures (o, Snapshot()) == Solver.Initialize(v, old(Snapshot()))
      ensures learnAnswers == old(learnAnswers)
    {
      if IsWaitingForLogin(v.body) {
        var _ := ClickLoginButton(v.loginButtons);
        o := WaitForLogin(v.loginPolls);
        if o.Thrown? {
          return;
        }
        Pause();
      }
      var pid := GetPuzzleId(v.headings);
      if Truthy(pid) {
        current := pid;
        if Contains(v.pageBody, Solver.AlreadyCompleted) {
          var _ := NavigateToPuzzleList(v.backButtons);
          Pause();
        }
      }
      return Done;
    }

    // ------------------------------------------------------------ navigation

    /** `navigateToPuzzleList`. */
    method NavigateToPuzzleList(buttons: seq<string>) returns (navigated: bool)
      modifies this
      ensures (navigated, Snapshot()) == Solver.NavigateToPuzzleList(buttons, old(Snapshot()))
      ensures learnAnswers == old(learnAnswers)
    {
      var b := FindFirst(buttons, Solver.IsBackButton);
      if b.None? {
        Click(Solver.OpenPuzzleList);
      } else {
        Click(Solver.ClickBack(b.value));
      }
      Pause();
      return true;
    }

    /** `selectNextUnsolvedPuzzle`: after a sleep, walk the list; record checkmarked
        entries as solved, and click the first unsolved entry with a solution after which
        the page shows a new puzzle. */
    method SelectNextUnsolvedPuzzle(list: seq<Solver.ListItem>) returns (moved: bool)
      modifies this
      ensures (moved, Snapshot()) == Solver.SelectNext(list, old(Snapshot()))
      ensures learnAnswers == old(learnAnswers)
    {
      Pause();
      ghost var st0 := Snapshot();
      var i := 0;
      while i < |list|
        invariant 0 <= i <= |list|
        invariant Solver.SelectFrom(list, i, Snapshot()) == Solver.SelectFrom(list, 0, st0)
        invariant learnAnswers == old(learnAnswers)
        decreases |list| - i
      {
        var item := list[i];
        if item.heading.Some? {
          var id := Solver.ItemId(item);
          if id !in solved {
            if item.hasCheckmark {
              solved := solved + {id};
            } else if solutions.Some? && id in solutions.value {
              Click(Solver.ClickItem(i));
              Pause();
              if Solver.Moved(item.idAfterClick, current) {
                return true;
              }
            }
          }
        }
        i := i + 1;
      }
      return false;
    }

    /** The loop of `goToNextPuzzle` over the buttons: click each "next puzzle" button
        in turn until one leads to a new puzzle. */
    method TryNextButtons(buttons: seq<Solver.PageButton>) returns (moved: bool)
      modifies this
      ensures (moved, Snapshot()) == Solver.NextFrom(buttons, 0, old(Snapshot()))
      ensures learnAnswers == old(learnAnswers)
    {
      ghost var st0 := Snapshot();
      var i := 0;
      while i < |buttons|
        invariant 0 <= i <= |buttons|
        invariant Solver.NextFrom(buttons, i, Snapshot()) == Solver.NextFrom(buttons, 0, st0)
        invariant learnAnswers == old(learnAnswers)
        decreases |buttons| - i
      {
        if Solver.IsNextButton(buttons[i]) {
          Click(Solver.ClickNext(i));
          Pause();
          if Solver.Moved(buttons[i].idAfterClick, current) {
            return true;
          }
        }
        i := i + 1;
      }
      return false;
    }

    /** `goToNextPuzzle`: the first "next puzzle" button that leads to a new puzzle, or
        else back to the list and the next unsolved entry. */
    method GoToNextPuzzle(nav: Solver.NavView) returns (moved: bool)
      modifies this
      ensures (moved, Snapshot()) == Solver.GoNext(nav, old(Snapshot()))
      ensures learnAnswers == old(learnAnswers)
    {
      moved := TryNextButtons(nav.buttons);
      if moved {
        return;
      }
      var navigated := NavigateToPuzzleList(nav.backButtons);
      if !navigated {
        return false;
      }
      moved := SelectNextUnsolvedPuzzle(nav.list);
    }

    // ------------------------------------------------------------ the main loop

    /** `if (!moved) { stopSolver(); break; } await sleep(2000);` */
    method AfterMove(moved: bool) returns (end: Solver.StepEnd)
      modifies this
      ensures (end, Snapshot()) == Solver.AfterMove((moved, old(Snapshot())))
      ensures learnAnswers == old(learnAnswers)
    {
      if !moved {
        StopSolver();
        return Solver.Break;
      }
      Pause();
      return Solver.Continue;
    }

    /** The solving branch of an iteration, with the loop's `catch`. */
    method SolveAndSubmit(t: Solver.Tick, id: string) returns (end: Solver.StepEnd)
      requires solutions.Some? && id in solutions.value
      modifies this
      ensures (end, Snapshot()) == Solver.SolveAndSubmit(t, id, old(Snapshot()))
      ensures learnAnswers == old(learnAnswers)
    {
      var o := SolvePuzzle(t.page, solutions.value[id]);
      if o.Thrown? {
        Pause();
        return Solver.Continue;
      }
      o := SubmitSolution(t.submitButtons);
      if o.Thrown? {
        Pause();
        return Solver.Continue;
      }
      var success := WaitForSubmissionResult(t.polls);
      end := AfterVerdict(t.nav, id, success);
    }

    /** The end of the solving branch once the verdict is in. */
    method AfterVerdict(nav: Solver.NavView, id: string, success: bool) returns (end: Solver.StepEnd)
      modifies this
      ensures (end, Snapshot()) == Solver.AfterVerdict(nav, id, (success, old(Snapshot())))
      ensures learnAnswers == old(learnAnswers)
    {
      if success {
        solved := solved + {id};
        Pause();
      }
      var moved := GoToNextPuzzle(nav);
      end := AfterMove(moved);
    }

    /** One iteration of `solverLoop`. */
    method Iterate(t: Solver.Tick) returns (end: Solver.StepEnd)
      modifies this
      ensures (end, Snapshot()) == Solver.Step(t, old(Snapshot()))
      ensures learnAnswers == old(learnAnswers)
    {
      var pid := GetPuzzleId(t.headings);
      if !Truthy(pid) {
        if Contains(t.body, "Choose Your Challenge") {
          var moved := SelectNextUnsolvedPuzzle(t.nav.list);
          end := AfterMove(moved);
        } else {
          Pause();
          end := Solver.Continue;
        }
        return;
      }
      if current == pid && pid.value in solved {
        var moved := GoToNextPuzzle(t.nav);
        end := AfterMove(moved);
        return;
      }
      current := pid;
      if Contains(t.body, Solver.AlreadyCompleted) {
        solved := solved + {pid.value};
        var moved := GoToNextPuzzle(t.nav);
        end := AfterMove(moved);
        return;
      }
      if !(solutions.Some? && pid.value in solutions.value) {
        var moved := GoToNextPuzzle(t.nav);
        end := AfterMove(moved);
        return;
      }
      end := SolveAndSubmit(t, pid.value);
    }

    /** `solverLoop`: one observation per iteration while the flag is set. */
    method SolverLoop(ticks: seq<Solver.Tick>)
      modifies this
      ensures Snapshot() == Solver.RunFrom(ticks, 0, old(Snapshot()))
      ensures learnAnswers == old(learnAnswers)
    {
      ghost var st0 := Snapshot();
      var i := 0;
      while i < |ticks| && flag.running
        invariant 0 <= i <= |ticks|
        invariant Solver.RunFrom(ticks, i, Snapshot()) == Solver.RunFrom(ticks, 0, st0)
        invariant learnAnswers == old(learnAnswers)
        decreases |ticks| - i
      {
        var end := Iterate(ticks[i]);
        if end == Solver.Break {
          return;
        }
        i := i + 1;
      }
    }

    /** `startSolver`, with the response the `START_SOLVER` handler sends. */
    method StartSolver(fetched: Option<map<string, Solver.Solution>>, init: Solver.InitView, ticks: seq<Solver.Tick>)
      returns (o: Outcome)
      modifies this
      ensures (o, Snapshot()) == Solver.StartSolver(fetched, init, ticks, old(Snapshot()))
      ensures learnAnswers == old(learnAnswers)
    {
      if flag.running {
        return Done;
      }
      flag := flag.(running := true);
      var loaded := Solver.LoadSolutions(fetched, Snapshot());
      if loaded.Failure? {
        flag := flag.(running := false);
        return Thrown(loaded.error);
      }
      solutions := Some(loaded.value);
      o := Initialize(init);
      if o.Thrown? {
        flag := flag.(running := false);
        return;
      }
      SolverLoop(ticks);
    }

    // ------------------------------------------------------------ quests

    /** The check of an opened card: the loop for the first "check puzzle" button, then
        a click, a sleep and the classification of the page text. */
    method CheckPuzzle(d: Quests.QuestDialog, claimed0: nat, skipped0: nat, actions0: seq<Quests.QuestAction>)
      returns (claimed: nat, skipped: nat, actions: seq<Quests.QuestAction>)
      modifies this
      ensures Quests.QuestRun(flag, claimed, skipped, actions) ==
              Quests.CheckCard(d, Quests.QuestRun(old(flag), claimed0, skipped0, actions0))
      ensures Snapshot() == old(Snapshot()).(flag := flag) && learnAnswers == old(learnAnswers)
    {
      claimed, skipped, actions := claimed0, skipped0, actions0;
      var check := FindFirst(d.buttons, Quests.IsCheckButton);
      if check.Some? {
        actions := actions + [Quests.ClickCheck(check.value)];
        Pause();
        if Quests.Classify(d.body) == Quests.Claimed {
          claimed := claimed + 1;
        } else {
          skipped := skipped + 1;
        }
      }
    }

    /** Closing a quest dialog: the loop for the first close button, or else Escape, and
        a sleep. */
    method CloseQuestDialog(buttons: seq<Quests.DialogButton>, ghost q: Quests.QuestRun, actions0: seq<Quests.QuestAction>)
      returns (actions: seq<Quests.QuestAction>)
      requires q.flag == flag && q.trace == actions0
      modifies this
      ensures Quests.QuestRun(flag, q.claimed, q.skipped, actions) == Quests.CloseDialog(buttons, q)
      ensures Snapshot() == old(Snapshot()).(flag := flag) && learnAnswers == old(learnAnswers)
    {
      var close := FindFirst(buttons, Quests.IsCloseButton);
      if close.Some? {
        actions := actions0 + [Quests.ClickClose(close.value)];
      } else {
        actions := actions0 + [Quests.PressEscape];
      }
      Pause();
    }

    /** One card of the loop of `claimGameOfLifeQuests`, entered with the flag set; the
        counters and the quest actions are the loop's locals. */
    method ClaimCard(i: nat, d: Quests.QuestDialog, claimed0: nat, skipped0: nat, actions0: seq<Quests.QuestAction>)
      returns (claimed: nat, skipped: nat, actions: seq<Quests.QuestAction>)
      modifies this
      ensures Quests.QuestRun(flag, claimed, skipped, actions) ==
              Quests.ClaimOne(i, d, Quests.QuestRun(old(flag), claimed0, skipped0, actions0))
      ensures Snapshot() == old(Snapshot()).(flag := flag) && learnAnswers == old(learnAnswers)
    {
      claimed, skipped, actions := claimed0, skipped0, actions0;
      if Contains(d.cardText, "Completed") {
        skipped := skipped + 1;
        return;
      }
      actions := actions + [Quests.ClickCard(i)];
      Pause();
      Pause();
      claimed, skipped, actions := CheckPuzzle(d, claimed, skipped, actions);
      Pause();
      actions := CloseQuestDialog(d.closeButtons, Quests.QuestRun(flag, claimed, skipped, actions), actions);
      Pause();
    }

    /** The counting loop of `claimGameOfLifeQuests`. */
    method ClaimEach(cards: seq<Quests.Card>, ds: seq<Quests.QuestDialog>, claimed0: nat, skipped0: nat, actions0: seq<Quests.QuestAction>)
      returns (claimed: nat, skipped: nat, actions: seq<Quests.QuestAction>)
      modifies this
      ensures Quests.QuestRun(flag, claimed, skipped, actions) ==
              Quests.ClaimFrom(cards, ds, 0, Quests.QuestRun(old(flag), claimed0, skipped0, actions0))
      ensures Snapshot() == old(Snapshot()).(flag := flag) && learnAnswers == old(learnAnswers)
    {
      claimed, skipped, actions := claimed0, skipped0, actions0;
      var i := 0;
      while i < |cards|
        invariant 0 <= i <= |cards|
        invariant Quests.ClaimFrom(cards, ds, i, Quests.QuestRun(flag, claimed, skipped, actions)) ==
                  Quests.ClaimFrom(cards, ds, 0, Quests.QuestRun(old(flag), claimed0, skipped0, actions0))
        invariant Snapshot() == old(Snapshot()).(flag := flag) && learnAnswers == old(learnAnswers)
        decreases |cards| - i
      {
        if !flag.running {
          break;
        }
        claimed, skipped, actions := ClaimCard(i, Quests.DialogAt(ds, i), claimed, skipped, actions);
        i := i + 1;
      }
    }

    /** `claimGameOfLifeQuests`, with its `catch`. */
    method ClaimGameOfLifeQuests(p: Quests.QuestPage)
      returns (o: Outcome, claimed: nat, skipped: nat, actions: seq<Quests.QuestAction>)
      modifies this
      ensures (o, Quests.QuestRun(flag, claimed, skipped, actions)) == Quests.ClaimQuests(p, old(flag))
      ensures Snapshot() == old(Snapshot()).(flag := flag) && learnAnswers == old(learnAnswers)
    {
      claimed, skipped, actions := 0, 0, [];
      if !Contains(p.href, Quests.PortalHost) {
        o := Thrown(Quests.Rethrow(Quests.NotOnQuestsPortal));
        return;
      }
      if !Contains(p.pathname, "/quests") {
        actions := actions + [Quests.OpenQuests];
        Pause();
      }
      Pause();
      var cards := Quests.FindQuestCards(p.headings);
      if cards == [] {
        o := Thrown(Quests.Rethrow(Quests.NoQuestsFound));
        return;
      }
      claimed, skipped, actions := ClaimEach(cards, p.dialogs, claimed, skipped, actions);
      o := Done;
    }

    /** The `CLAIM_GOL_QUESTS` handler: set the flag, run, and clear the flag whatever
        the outcome. */
    method HandleClaimQuests(p: Quests.QuestPage) returns (o: Outcome)
      modifies this
      ensures var r := Quests.ClaimQuests(p, old(flag).(running := true));
        o == r.0 && flag == r.1.flag.(running := false)
      ensures Snapshot() == old(Snapshot()).(flag := flag) && learnAnswers == old(learnAnswers)
    {
      flag := flag.(running := true);
      var claimed, skipped, actions;
      o, claimed, skipped, actions := ClaimGameOfLifeQuests(p);
      flag := flag.(running := false);
    }

    // ------------------------------------------------------------ the quiz

    /** One radio loop of `answerLearnQuestions`: the first radio whose label matches
        the answer (`matches`); it breaks at once when the flag is clear. */
    method ScanRadios<R>(rs: seq<R>, matches: R -> bool) returns (k: Option<nat>)
      ensures k == if flag.running then First(rs, matches) else None
    {
      var j := 0;
      while j < |rs|
        invariant 0 <= j <= |rs|
        invariant forall i :: 0 <= i < j ==> !matches(rs[i])
        decreases |rs| - j
      {
        if !flag.running {
          return None;
        }
        if matches(rs[j]) {
          FirstIs(rs, matches, j);
          return Some(j);
        }
        j := j + 1;
      }
      return None;
    }

    /** The two radio loops of `answerLearnQuestions`: the first matching native radio,
        or else the first matching role radio. */
    method ChooseRadio(d: Quiz.QuizDialog, answer: string) returns (pick: Option<Quiz.QuizAction>)
      ensures pick == Quiz.Choose(d, answer, flag.running)
    {
      var k := ScanRadios(d.native, Quiz.NativeMatches(answer));
      if k.Some? {
        return Some(Quiz.ClickNative(k.value));
      }
      k := ScanRadios(d.role, Quiz.RoleMatches(answer));
      if k.Some? {
        return Some(Quiz.ClickRole(k.value));
      }
      return None;
    }

    /** Clicking the chosen radio and sleeping after it. */
    method ClickChoice(pick: Option<Quiz.QuizAction>, ghost q: Quiz.QuizRun, actions0: seq<Quiz.QuizAction>)
      returns (actions: seq<Quiz.QuizAction>)
      requires q.flag == flag && q.trace == actions0
      modifies this
      ensures Quiz.QuizRun(flag, q.answered, q.skipped, actions) == Quiz.Picked(pick, q)
      ensures Snapshot() == old(Snapshot()).(flag := flag) && learnAnswers == old(learnAnswers)
    {
      actions := actions0;
      if pick.Some? {
        actions := actions + [pick.value];
        Pause();
      }
    }

    /** The submit loop: after a choice, click the first submit button, sleep, and count
        the question as answered. */
    method SubmitChoice(d: Quiz.QuizDialog, pick: Option<Quiz.QuizAction>, answered0: nat, skipped: nat, actions0: seq<Quiz.QuizAction>)
      returns (answered: nat, actions: seq<Quiz.QuizAction>)
      modifies this
      ensures Quiz.QuizRun(flag, answered, skipped, actions) == Quiz.Submitted(d, pick, Quiz.QuizRun(old(flag), answered0, skipped, actions0))
      ensures Snapshot() == old(Snapshot()).(flag := flag) && learnAnswers == old(learnAnswers)
    {
      answered, actions := answered0, actions0;
      if pick.Some? {
        var submit := FindFirst(d.submitButtons, Quiz.IsQuizSubmit);
        if submit.Some? {
          actions := actions + [Quiz.ClickQuizSubmit(submit.value)];
          Pause();
          answered := answered + 1;
        }
      }
    }

    /** The close loop: click the first close button and sleep after it. */
    method CloseQuizDialog(d: Quiz.QuizDialog, ghost q: Quiz.QuizRun, actions0: seq<Quiz.QuizAction>)
      returns (actions: seq<Quiz.QuizAction>)
      requires q.flag == flag && q.trace == actions0
      modifies this
      ensures Quiz.QuizRun(flag, q.answered, q.skipped, actions) == Quiz.Closed(d, q)
      ensures Snapshot() == old(Snapshot()).(flag := flag) && learnAnswers == old(learnAnswers)
    {
      actions := actions0;
      var close := FindFirst(d.closeButtons, Quiz.IsQuizClose);
      if close.Some? {
        actions := actions + [Quiz.ClickQuizClose(close.value)];
        Pause();
      }
    }

    /** An opened question with a stored answer: click the chosen radio, submit, close. */
    method AnswerOpened(d: Quiz.QuizDialog, answer: string, answered0: nat, skipped: nat, actions0: seq<Quiz.QuizAction>)
      returns (answered: nat, actions: seq<Quiz.QuizAction>)
      modifies this
      ensures Quiz.QuizRun(flag, answered, skipped, actions) ==
              Quiz.AnswerOpened(d, answer, Quiz.QuizRun(old(flag), answered0, skipped, actions0))
      ensures Snapshot() == old(Snapshot()).(flag := flag) && learnAnswers == old(learnAnswers)
    {
      var pick := ChooseRadio(d, answer);
      actions := ClickChoice(pick, Quiz.QuizRun(flag, answered0, skipped, actions0), actions0);
      Pause();
      answered, actions := SubmitChoice(d, pick, answered0, skipped, actions);
      Pause();
      actions := CloseQuizDialog(d, Quiz.QuizRun(flag, answered, skipped, actions), actions);
      Pause();
    }

    /** One question of the loop of `answerLearnQuestions`, entered with the flag set. */
    method AnswerQuestion(i: nat, d: Quiz.QuizDialog, answers: map<string, string>,
                          answered0: nat, skipped0: nat, actions0: seq<Quiz.QuizAction>)
      returns (answered: nat, skipped: nat, actions: seq<Quiz.QuizAction>)
      modifies this
      ensures Quiz.QuizRun(flag, answered, skipped, actions) ==
              Quiz.AnswerOne(i, d, answers, Quiz.QuizRun(old(flag), answered0, skipped0, actions0))
      ensures Snapshot() == old(Snapshot()).(flag := flag) && learnAnswers == old(learnAnswers)
    {
      answered, skipped, actions := answered0, skipped0, actions0;
      if d.checked {
        skipped := skipped + 1;
        return;
      }
      actions := actions + [Quiz.ClickQuestion(i)];
      Pause();
      var key := Quiz.Key(i);
      if key !in answers {
        if d.quickClose {
          actions := actions + [Quiz.ClickQuickClose];
        }
        Pause();
        return;
      }
      answered, actions := AnswerOpened(d, answers[key], answered, skipped, actions);
    }

    /** The counting loop of `answerLearnQuestions`. */
    method AnswerEach(qs: seq<Quiz.QuestionButton>, ds: seq<Quiz.QuizDialog>, answers: map<string, string>,
                      answered0: nat, skipped0: nat, actions0: seq<Quiz.QuizAction>)
      returns (answered: nat, skipped: nat, actions: seq<Quiz.QuizAction>)
      modifies this
      ensures Quiz.QuizRun(flag, answered, skipped, actions) ==
              Quiz.AnswerFrom(qs, ds, answers, 0, Quiz.QuizRun(old(flag), answered0, skipped0, actions0))
      ensures Snapshot() == old(Snapshot()).(flag := flag) && learnAnswers == old(learnAnswers)
    {
      answered, skipped, actions := answered0, skipped0, actions0;
      var i := 0;
      while i < |qs|
        invariant 0 <= i <= |qs|
        invariant Quiz.AnswerFrom(qs, ds, answers, i, Quiz.QuizRun(flag, answered, skipped, actions)) ==
                  Quiz.AnswerFrom(qs, ds, answers, 0, Quiz.QuizRun(old(flag), answered0, skipped0, actions0))
        invariant Snapshot() == old(Snapshot()).(flag := flag) && learnAnswers == old(learnAnswers)
        decreases |qs| - i
      {
        if !flag.running {
          break;
        }
        answered, skipped, actions := AnswerQuestion(i, Quiz.QuizDialogAt(ds, i), answers, answered, skipped, actions);
        i := i + 1;
      }
    }

    /** `answerLearnQuestions`; the answers it loads stay loaded. */
    method AnswerLearnQuestions(fetched: Option<map<string, string>>, p: Quiz.QuizPage)
      returns (o: Outcome, answered: nat, skipped: nat, actions: seq<Quiz.QuizAction>)
      modifies this
      ensures (o, learnAnswers, Quiz.QuizRun(flag, answered, skipped, actions)) ==
              Quiz.AnswerQuestions(old(learnAnswers), fetched, p, old(flag))
      ensures Snapshot() == old(Snapshot()).(flag := flag)
    {
      answered, skipped, actions := 0, 0, [];
      var loaded := Quiz.LoadAnswers(learnAnswers, fetched);
      if loaded.Failure? {
        o := Thrown(loaded.error);
        return;
      }
      learnAnswers := Some(loaded.value);
      var answers := loaded.value;
      if !Contains(p.href, Quests.PortalHost) {
        o := Thrown(Quiz.NotOnLearnPortal);
        return;
      }
      if !Contains(p.pathname, "/learn") {
        actions := actions + [Quiz.OpenLearn];
        Pause();
      }
      Pause();
      var qs := Quiz.FindQuestionButtons(p.buttons);
      o := Done;
      if qs == [] {
        return;
      }
      answered, skipped, actions := AnswerEach(qs, p.dialogs, answers, answered, skipped, actions);
    }

    /** The `ANSWER_LEARN_QUESTIONS` handler: set the flag, run, and clear the flag
        whatever the outcome. */
    method HandleAnswerQuestions(fetched: Option<map<string, string>>, p: Quiz.QuizPage) returns (o: Outcome)
      modifies this
      ensures var r := Quiz.AnswerQuestions(old(learnAnswers), fetched, p, old(flag).(running := true));
        o == r.0 && learnAnswers == r.1 && flag == r.2.flag.(running := false)
      ensures Snapshot() == old(Snapshot()).(flag := flag)
    {
      flag := flag.(running := true);
      var answered, skipped, actions;
      o, answered, skipped, actions := AnswerLearnQuestions(fetched, p);
      flag := flag.(running := false);
    }
  }
}
