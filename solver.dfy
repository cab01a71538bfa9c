/** The auto-solver of `solver.js` as functions of the session state: the module-level
    `isRunning`, `solvedPuzzles`, `currentPuzzleId` and `solutions`, together with the
    trace of page actions (clicks and navigation) the solver has performed. The page is
    a sequence of observations handed in as parameters, and each step that sleeps passes
    the flag through `RunState.Sleep`. */
module Solver {
  import opened Text
  import opened Wrappers
  import opened Scan
  import opened Numbers
  import opened RunState
  import opened PuzzleIds
  import opened Grid
  import opened Polling

  /** A page action of the solver. Positions index the sequence the action was chosen
      from: the grid's clickable cells, the buttons on the page, or the puzzle list. */
  datatype Action =
    | ClickLogin(button: nat)
    | ClickCell(cell: nat)
    | ClickSubmit(button: nat)
    | ClickNext(button: nat)
    | ClickBack(button: nat)
    | OpenPuzzleList
    | ClickItem(item: nat)

  /** The cells of a stored solution, in the order they are clicked. */
  type Solution = seq<Coord>

  datatype State = State(
    flag: Flag,
    solved: set<string>,
    current: Option<string>,
    solutions: Option<map<string, Solution>>,
    trace: seq<Action>)

  /** One `await sleep(…)`. */
  function Pause(st: State): State {
    st.(flag := Sleep(st.flag))
  }

  function Do(st: State, a: Action): State {
    st.(trace := st.trace + [a])
  }

  /** `stopSolver()`. */
  function Stopped(st: State): State {
    st.(flag := st.flag.(running := false))
  }

  /** `solutions && solutions[id]`. */
  predicate HasSolution(st: State, id: string) {
    st.solutions.Some? && id in st.solutions.value
  }

  /** The fields a navigation or solving step never writes. */
  predicate SameSession(st: State, r: State) {
    r.current == st.current && r.solutions == st.solutions && st.trace <= r.trace
  }

  // ---------------------------------------------------------------- solvePuzzle

  /** Reference for the clicks of `solvePuzzle` from target `i` on: the first cell placed
      at each target, in solution order, with targets that have no cell left out. */
  function FoundFrom(cells: seq<Cell>, targets: seq<Coord>, i: nat): (r: seq<nat>)
    requires i <= |targets|
    ensures |r| <= |targets| - i
    decreases |targets| - i
  {
    if i == |targets| then []
    else
      var rest := FoundFrom(cells, targets, i + 1);
      match FindCell(cells, targets[i])
      case None => rest
      case Some(k) => [k] + rest
  }

  function Found(cells: seq<Cell>, targets: seq<Coord>): (r: seq<nat>)
    ensures |r| <= |targets|
  {
    FoundFrom(cells, targets, 0)
  }

  /** Cell `k` exists and is placed at one of the targets from `i` on. */
  ghost predicate AtTargetFrom(cells: seq<Cell>, k: nat, targets: seq<Coord>, i: nat) {
    k < |cells| && exists m :: i <= m < |targets| && IsAt(cells[k], targets[m])
  }

  /** Every reference click is on a cell placed at one of the targets. */
  lemma {:induction false} FoundSound(cells: seq<Cell>, targets: seq<Coord>, i: nat)
    requires i <= |targets|
    ensures forall j :: 0 <= j < |FoundFrom(cells, targets, i)| ==>
      AtTargetFrom(cells, FoundFrom(cells, targets, i)[j], targets, i)
    decreases |targets| - i
  {
    if i < |targets| {
      FoundSound(cells, targets, i + 1);
      var rest := FoundFrom(cells, targets, i + 1);
      assert forall j :: 0 <= j < |rest| ==> AtTargetFrom(cells, rest[j], targets, i);
      match FindCell(cells, targets[i])
      case None =>
        assert FoundFrom(cells, targets, i) == rest;
      case Some(k) =>
        assert FoundFrom(cells, targets, i) == [k] + rest;
        FindCellSpec(cells, targets[i]);
        assert AtTargetFrom(cells, k, targets, i);
    }
  }

  /** The click actions on the given cells, in order. */
  function CellClicks(ks: seq<nat>): (r: seq<Action>)
    ensures |r| == |ks|
    decreases |ks|
  {
    if ks == [] then [] else [ClickCell(ks[0])] + CellClicks(ks[1..])
  }

  /** The loop of `solvePuzzle` from target `i` on: it stops as soon as the flag is
      clear, clicks the first cell placed at each target and sleeps after each click. */
  function SolveFrom(cells: seq<Cell>, targets: seq<Coord>, i: nat, st: State): (r: State)
    requires i <= |targets|
    ensures SameSession(st, r) && r.solved == st.solved
    decreases |targets| - i
  {
    if i == |targets| || !st.flag.running then st
    else match FindCell(cells, targets[i])
      case None => SolveFrom(cells, targets, i + 1, st)
      case Some(k) => SolveFrom(cells, targets, i + 1, Pause(Do(st, ClickCell(k))))
  }

  /** How many cells the loop of `solvePuzzle` clicks from target `i` on, given the
      flag at that point. */
  function ClicksMade(cells: seq<Cell>, targets: seq<Coord>, i: nat, f: Flag): nat
    requires i <= |targets|
    decreases |targets| - i
  {
    if i == |targets| || !f.running then 0
    else match FindCell(cells, targets[i])
      case None => ClicksMade(cells, targets, i + 1, f)
      case Some(_) => 1 + ClicksMade(cells, targets, i + 1, Sleep(f))
  }

  /** The clicks of `solvePuzzle` are a prefix of the reference clicks. */
  lemma {:induction false} SolveFromClicks(cells: seq<Cell>, targets: seq<Coord>, i: nat, st: State)
    requires i <= |targets|
    ensures ClicksMade(cells, targets, i, st.flag) <= |FoundFrom(cells, targets, i)|
    ensures SolveFrom(cells, targets, i, st).trace ==
      st.trace + CellClicks(FoundFrom(cells, targets, i)[..ClicksMade(cells, targets, i, st.flag)])
    decreases |targets| - i
  {
    if i == |targets| || !st.flag.running {
    } else {
      match FindCell(cells, targets[i])
      case None =>
        SolveFromClicks(cells, targets, i + 1, st);
      case Some(k) =>
        var s1 := Pause(Do(st, ClickCell(k)));
        SolveFromClicks(cells, targets, i + 1, s1);
        var m1 := ClicksMade(cells, targets, i + 1, s1.flag);
        var rest := FoundFrom(cells, targets, i + 1);
        assert FoundFrom(cells, targets, i) == [k] + rest;
        var taken := ([k] + rest)[..m1 + 1];
        assert taken == [k] + rest[..m1];
        assert taken[1..] == rest[..m1];
        assert CellClicks(taken) == [ClickCell(k)] + CellClicks(rest[..m1]);
    }
  }

  /** The loop of `solvePuzzle` sleeps once after each click, and nowhere else. */
  lemma {:induction false} SolveFromSleeps(cells: seq<Cell>, targets: seq<Coord>, i: nat, st: State)
    requires i <= |targets|
    ensures SolveFrom(cells, targets, i, st).flag == Sleeps(st.flag, ClicksMade(cells, targets, i, st.flag))
    decreases |targets| - i
  {
    if i < |targets| && st.flag.running {
      match FindCell(cells, targets[i])
      case None =>
        assert SolveFrom(cells, targets, i, st) == SolveFrom(cells, targets, i + 1, st);
        assert ClicksMade(cells, targets, i, st.flag) == ClicksMade(cells, targets, i + 1, st.flag);
        SolveFromSleeps(cells, targets, i + 1, st);
      case Some(k) =>
        var s1 := Pause(Do(st, ClickCell(k)));
        assert s1.flag == Sleep(st.flag);
        var m := ClicksMade(cells, targets, i + 1, s1.flag);
        assert SolveFrom(cells, targets, i, st) == SolveFrom(cells, targets, i + 1, s1);
        assert ClicksMade(cells, targets, i, st.flag) == 1 + m;
        assert Sleeps(st.flag, 1 + m) == Sleeps(s1.flag, m);
        SolveFromSleeps(cells, targets, i + 1, s1);
    }
  }

  /** A stop cuts the clicks short: none when the flag is already clear, all of them
      when no stop is pending, and none after the sleep that receives the stop. */
  lemma {:induction false} ClicksMadeBounds(cells: seq<Cell>, targets: seq<Coord>, i: nat, f: Flag)
    requires i <= |targets|
    ensures !f.running ==> ClicksMade(cells, targets, i, f) == 0
    ensures f.running && f.stopIn.None? ==> ClicksMade(cells, targets, i, f) == |FoundFrom(cells, targets, i)|
    ensures f.running && f.stopIn.Some? ==>
      ClicksMade(cells, targets, i, f) == |FoundFrom(cells, targets, i)| ||
      ClicksMade(cells, targets, i, f) == f.stopIn.value + 1
    ensures f.stopIn.Some? ==> ClicksMade(cells, targets, i, f) <= f.stopIn.value + 1
    decreases |targets| - i
  {
    if i < |targets| && f.running {
      match FindCell(cells, targets[i])
      case None =>
        ClicksMadeBounds(cells, targets, i + 1, f);
      case Some(k) =>
        ClicksMadeBounds(cells, targets, i + 1, Sleep(f));
    }
  }

  const GridNotFound: string := "Puzzle grid not found"

  /** `solvePuzzle(solution)`: throws when no grid qualifies, before any click. */
  function SolvePuzzle(page: seq<Element>, targets: Solution, st: State): (r: (Outcome, State))
    ensures r.0.Thrown? <==> FindPuzzleGrid(page).None?
    ensures r.0.Thrown? ==> r == (Thrown(GridNotFound), st)
    ensures SameSession(st, r.1) && r.1.solved == st.solved
  {
    match FindPuzzleGrid(page)
    case None => (Thrown(GridNotFound), st)
    case Some(g) => (Done, SolveFrom(Clickable(page[g].cells), targets, 0, st))
  }

  // ---------------------------------------------------------------- submitting

  predicate IsSubmitButton(text: string) {
    Contains(Lower(text), "submit solution") || Contains(Lower(text), "resubmit solution")
  }

  const SubmitNotFound: string := "Submit button not found"

  /** `submitSolution`: clicks the first submit button and sleeps, or throws. */
  function SubmitSolution(buttons: seq<string>, st: State): (r: (Outcome, State))
    ensures r.0.Thrown? <==> forall b :: 0 <= b < |buttons| ==> !IsSubmitButton(buttons[b])
    ensures r.0.Thrown? ==> r == (Thrown(SubmitNotFound), st)
    ensures r.0.Done? ==> exists b :: 0 <= b < |buttons| && IsSubmitButton(buttons[b]) &&
                                      (forall j :: 0 <= j < b ==> !IsSubmitButton(buttons[j])) &&
                                      r.1 == Pause(Do(st, ClickSubmit(b)))
  {
    match First(buttons, IsSubmitButton)
    case None => (Thrown(SubmitNotFound), st)
    case Some(b) => (Done, Pause(Do(st, ClickSubmit(b))))
  }

  /** `waitForSubmissionResult`: the verdict, and the flag after its sleeps. */
  function WaitForResult(polls: seq<string>, st: State): (r: (bool, State))
    ensures r.0 == SubmitResult(polls).0
    ensures r.1 == st.(flag := Sleeps(st.flag, SubmitResult(polls).1))
  {
    var v := SubmitResult(polls);
    (v.0, st.(flag := Sleeps(st.flag, v.1)))
  }

  // ---------------------------------------------------------------- navigation

  predicate IsLoginButton(text: string) {
    Contains(Clean(text), "log in") || Clean(text) == "login"
  }

  /** `clickLoginButton`: clicks the first login button; no sleep. */
  function ClickLoginButton(buttons: seq<string>, st: State): (r: (bool, State))
    ensures r.0 <==> exists b :: 0 <= b < |buttons| && IsLoginButton(buttons[b])
    ensures !r.0 ==> r.1 == st
    ensures r.0 ==> exists b :: 0 <= b < |buttons| && IsLoginButton(buttons[b]) &&
                                (forall j :: 0 <= j < b ==> !IsLoginButton(buttons[j])) &&
                                r.1 == Do(st, ClickLogin(b))
  {
    match First(buttons, IsLoginButton)
    case None => (false, st)
    case Some(b) => (true, Do(st, ClickLogin(b)))
  }

  predicate IsBackButton(text: string) {
    Clean(text) == "back to puzzles"
  }

  /** `navigateToPuzzleList`: clicks the first "back to puzzles" button, or else sets
      the location to the puzzle list; it sleeps once either way, and never reports
      failure. */
  function NavigateToPuzzleList(buttons: seq<string>, st: State): (r: (bool, State))
    ensures r.0
    ensures |r.1.trace| == |st.trace| + 1 && IsNavAction(r.1.trace[|st.trace|])
    ensures r.1 == Pause(st.(trace := r.1.trace)) && st.trace <= r.1.trace
  {
    match First(buttons, IsBackButton)
    case None => (true, Pause(Do(st, OpenPuzzleList)))
    case Some(b) => (true, Pause(Do(st, ClickBack(b))))
  }

  /** Which navigation it takes: with no "back to puzzles" button it opens the list by
      location; otherwise it clicks the first such button. */
  lemma NavigateToPuzzleListSpec(buttons: seq<string>, st: State)
    ensures (forall b :: 0 <= b < |buttons| ==> !IsBackButton(buttons[b])) ==>
      NavigateToPuzzleList(buttons, st).1 == Pause(Do(st, OpenPuzzleList))
    ensures (exists b :: 0 <= b < |buttons| && IsBackButton(buttons[b])) ==>
      exists b :: 0 <= b < |buttons| && IsBackButton(buttons[b]) &&
                  (forall j :: 0 <= j < b ==> !IsBackButton(buttons[j])) &&
                  NavigateToPuzzleList(buttons, st).1 == Pause(Do(st, ClickBack(b)))
  {
    match First(buttons, IsBackButton)
    case None =>
    case Some(b) =>
      assert IsBackButton(buttons[b]) && forall j :: 0 <= j < b ==> !IsBackButton(buttons[j]);
  }

  /** An entry of the puzzle list: the text of its first `h3`/`h2`/`h1`, whether it shows
      one of the completion icons, and the identifier `getPuzzleId()` reads once clicking
      it has taken effect. */
  datatype ListItem = ListItem(heading: Option<string>, hasCheckmark: bool, idAfterClick: Option<string>)

  /** The identifier of a list entry, computed as for a puzzle page. */
  function ItemId(item: ListItem): string
    requires item.heading.Some?
  {
    IdOf(item.heading.value)
  }

  /** A click on entry `a.item` that `selectNextUnsolvedPuzzle` may make: it has a
      heading, its identifier was not yet solved, it shows no checkmark, and a solution
      is stored for it. */
  predicate SoundItemClick(list: seq<ListItem>, st: State, a: Action) {
    a.ClickItem? && a.item < |list| && list[a.item].heading.Some? &&
    ItemId(list[a.item]) !in st.solved && !list[a.item].hasCheckmark &&
    HasSolution(st, ItemId(list[a.item]))
  }

  /** The identifier read after a click shows that the page moved to a new puzzle. */
  predicate Moved(idAfter: Option<string>, current: Option<string>) {
    Truthy(idAfter) && idAfter != current
  }

  /** A click on a list entry after which the page shows a new puzzle. */
  predicate ItemMoved(list: seq<ListItem>, a: Action, st: State) {
    a.ClickItem? && a.item < |list| && Moved(list[a.item].idAfterClick, st.current)
  }

  /** The loop of `selectNextUnsolvedPuzzle` from entry `i` on. */
  function SelectFrom(list: seq<ListItem>, i: nat, st: State): (r: (bool, State))
    requires i <= |list|
    ensures SameSession(st, r.1) && st.solved <= r.1.solved
    decreases |list| - i
  {
    if i == |list| then (false, st)
    else
      var item := list[i];
      if item.heading.None? then SelectFrom(list, i + 1, st)
      else
        var id := ItemId(item);
        if id in st.solved then SelectFrom(list, i + 1, st)
        else if item.hasCheckmark then SelectFrom(list, i + 1, st.(solved := st.solved + {id}))
        else if HasSolution(st, id) then
          var s1 := Pause(Do(st, ClickItem(i)));
          if Moved(item.idAfterClick, st.current) then (true, s1)
          else SelectFrom(list, i + 1, s1)
        else SelectFrom(list, i + 1, st)
  }

  /** The identifiers `selectNextUnsolvedPuzzle` adds to the solved set are those of
      checkmarked entries. */
  ghost predicate Checkmarked(list: seq<ListItem>, i: nat, id: string) {
    exists k :: i <= k < |list| && list[k].heading.Some? && list[k].hasCheckmark && ItemId(list[k]) == id
  }

  ghost predicate FromCheckmarks(list: seq<ListItem>, i: nat, before: set<string>, after: set<string>) {
    forall id :: id in after && id !in before ==> Checkmarked(list, i, id)
  }

  /** The list scan adds to the solved set only the identifiers of checkmarked entries. */
  lemma {:induction false} SelectFromMarks(list: seq<ListItem>, i: nat, st: State)
    requires i <= |list|
    ensures FromCheckmarks(list, i, st.solved, SelectFrom(list, i, st).1.solved)
    decreases |list| - i
  {
    if i < |list| {
      var item := list[i];
      if item.heading.None? {
        SelectFromMarks(list, i + 1, st);
      } else {
        var id := ItemId(item);
        if id in st.solved {
          SelectFromMarks(list, i + 1, st);
        } else if item.hasCheckmark {
          SelectFromMarks(list, i + 1, st.(solved := st.solved + {id}));
        } else if HasSolution(st, id) {
          if !Moved(item.idAfterClick, st.current) {
            SelectFromMarks(list, i + 1, Pause(Do(st, ClickItem(i))));
          }
        } else {
          SelectFromMarks(list, i + 1, st);
        }
      }
    }
  }

  /** The list scan clicks only entries with a heading whose identifier is unsolved, that
      show no checkmark and that have a stored solution. */
  lemma {:induction false} SelectFromClicks(list: seq<ListItem>, i: nat, st: State)
    requires i <= |list|
    ensures forall j :: |st.trace| <= j < |SelectFrom(list, i, st).1.trace| ==>
      SoundItemClick(list, st, SelectFrom(list, i, st).1.trace[j])
    decreases |list| - i
  {
    if i < |list| {
      var item := list[i];
      if item.heading.None? {
        SelectFromClicks(list, i + 1, st);
      } else {
        var id := ItemId(item);
        if id in st.solved {
          SelectFromClicks(list, i + 1, st);
        } else if item.hasCheckmark {
          SelectFromClicks(list, i + 1, st.(solved := st.solved + {id}));
        } else if HasSolution(st, id) {
          if !Moved(item.idAfterClick, st.current) {
            SelectFromClicks(list, i + 1, Pause(Do(st, ClickItem(i))));
          }
        } else {
          SelectFromClicks(list, i + 1, st);
        }
      }
    }
  }

  /** The list scan reports a move only right after a click that led to a new puzzle. */
  lemma {:induction false} SelectFromMoved(list: seq<ListItem>, i: nat, st: State)
    requires i <= |list|
    ensures SelectFrom(list, i, st).0 ==>
      |SelectFrom(list, i, st).1.trace| > |st.trace| &&
      ItemMoved(list, SelectFrom(list, i, st).1.trace[|SelectFrom(list, i, st).1.trace| - 1], st)
    decreases |list| - i
  {
    if i < |list| {
      var item := list[i];
      if item.heading.None? {
        SelectFromMoved(list, i + 1, st);
      } else {
        var id := ItemId(item);
        if id in st.solved {
          SelectFromMoved(list, i + 1, st);
        } else if item.hasCheckmark {
          SelectFromMoved(list, i + 1, st.(solved := st.solved + {id}));
        } else if HasSolution(st, id) {
          if !Moved(item.idAfterClick, st.current) {
            SelectFromMoved(list, i + 1, Pause(Do(st, ClickItem(i))));
          }
        } else {
          SelectFromMoved(list, i + 1, st);
        }
      }
    }
  }

  // The list scan is complete: it clicks the eligible entries in list order until one
  // moves, and it marks every checkmarked entry it passes as solved.

  /** A checkmarked entry between `i` and `j` carries identifier `id`. */
  ghost predicate CheckmarkedIn(list: seq<ListItem>, i: nat, j: nat, id: string) {
    exists k :: i <= k < j && k < |list| && list[k].heading.Some? && list[k].hasCheckmark && ItemId(list[k]) == id
  }

  /** Entry `k` is one the scan from `i` clicks when it gets there: it has a heading, its
      identifier is neither solved when the scan starts nor carried by a checkmarked
      entry the scan passes first, it shows no checkmark, and a solution is stored. */
  ghost predicate Eligible(list: seq<ListItem>, i: nat, k: nat, st: State) {
    i <= k < |list| && list[k].heading.Some? && ItemId(list[k]) !in st.solved &&
    !CheckmarkedIn(list, i, k, ItemId(list[k])) && !list[k].hasCheckmark && HasSolution(st, ItemId(list[k]))
  }

  /** Action `a` was taken in the part of trace `t` from position `from` on. */
  ghost predicate ClickedIn(t: seq<Action>, from: nat, a: Action) {
    exists j :: from <= j < |t| && t[j] == a
  }

  /** Every eligible entry from `i` up to `e` was clicked and did not move the page. */
  ghost predicate TriedBefore(list: seq<ListItem>, i: nat, e: nat, st: State, t: seq<Action>) {
    forall k :: i <= k < e && Eligible(list, i, k, st) ==>
      ClickedIn(t, |st.trace|, ClickItem(k)) && !Moved(list[k].idAfterClick, st.current)
  }

  /** Every checkmarked entry from `i` up to `e` has its identifier in `solved`. */
  ghost predicate MarkedBefore(list: seq<ListItem>, i: nat, e: nat, solved: set<string>) {
    forall k :: i <= k < e && k < |list| && list[k].heading.Some? && list[k].hasCheckmark ==>
      ItemId(list[k]) in solved
  }

  /** Where the scan stopped: the entry whose click moved the page, or the end of the list. */
  ghost function ScanEnd(list: seq<ListItem>, r: (bool, State)): nat {
    var t := r.1.trace;
    if r.0 && |t| > 0 && t[|t| - 1].ClickItem? then t[|t| - 1].item else |list|
  }

  /** The identifiers a step of the scan adds to the solved set. */
  function Mark(item: ListItem): set<string> {
    if item.heading.Some? && item.hasCheckmark then {ItemId(item)} else {}
  }

  /** A checkmarked entry the scan from `i` passes before `k` is either entry `i` itself or
      one the scan from `i + 1` passes. */
  lemma CheckmarkedInShift(list: seq<ListItem>, i: nat, k: nat)
    requires i < k < |list| && list[k].heading.Some?
    ensures CheckmarkedIn(list, i, k, ItemId(list[k])) <==>
      CheckmarkedIn(list, i + 1, k, ItemId(list[k])) || ItemId(list[k]) in Mark(list[i])
  {
    var id := ItemId(list[k]);
    if CheckmarkedIn(list, i, k, id) {
      var m :| i <= m < k && m < |list| && list[m].heading.Some? && list[m].hasCheckmark && ItemId(list[m]) == id;
      if m > i {
        assert CheckmarkedIn(list, i + 1, k, id);
      }
    }
    if id in Mark(list[i]) {
      assert CheckmarkedIn(list, i, k, id);
    }
  }

  /** Passing entry `i` changes what counts as eligible after it only through the
      identifier it marks as solved. */
  lemma EligibleShift(list: seq<ListItem>, i: nat, st: State, st2: State)
    requires i < |list|
    requires st2.solutions == st.solutions && st2.solved == st.solved + Mark(list[i])
    ensures forall k :: i < k < |list| ==> (Eligible(list, i, k, st) <==> Eligible(list, i + 1, k, st2))
  {
    forall k | i < k < |list|
      ensures Eligible(list, i, k, st) <==> Eligible(list, i + 1, k, st2)
    {
      if list[k].heading.Some? {
        CheckmarkedInShift(list, i, k);
      }
    }
  }

  /** The conclusions about the rest of the scan extend to entry `i`. */
  lemma TriedStep(list: seq<ListItem>, i: nat, e: nat, st: State, st2: State, t: seq<Action>)
    requires i < |list| && i < e
    requires st2.solutions == st.solutions && st2.solved == st.solved + Mark(list[i])
    requires st2.current == st.current && |st.trace| <= |st2.trace|
    requires TriedBefore(list, i + 1, e, st2, t)
    requires Eligible(list, i, i, st) ==> ClickedIn(t, |st.trace|, ClickItem(i)) && !Moved(list[i].idAfterClick, st.current)
    ensures TriedBefore(list, i, e, st, t)
  {
    EligibleShift(list, i, st, st2);
    forall k | i < k < e && Eligible(list, i, k, st)
      ensures ClickedIn(t, |st.trace|, ClickItem(k))
    {
      assert Eligible(list, i + 1, k, st2);
      var j :| |st2.trace| <= j < |t| && t[j] == ClickItem(k);
    }
  }

  /** Where the list scan stops: when it reports a move, at an eligible entry that moved
      the page; when it reports none, at the end of the list. */
  lemma {:induction false} SelectFromStop(list: seq<ListItem>, i: nat, st: State)
    requires i <= |list|
    ensures var r := SelectFrom(list, i, st);
      (r.0 ==> Eligible(list, i, ScanEnd(list, r), st) && Moved(list[ScanEnd(list, r)].idAfterClick, st.current)) &&
      (!r.0 ==> ScanEnd(list, r) == |list|)
    decreases |list| - i
  {
    if i < |list| {
      var r := SelectFrom(list, i, st);
      var item := list[i];
      var st2 := if item.heading.Some? && ItemId(item) !in st.solved && item.hasCheckmark
                 then st.(solved := st.solved + {ItemId(item)}) else st;
      if item.heading.Some? && ItemId(item) !in st.solved && !item.hasCheckmark && HasSolution(st, ItemId(item)) {
        var s1 := Pause(Do(st, ClickItem(i)));
        if !Moved(item.idAfterClick, st.current) {
          assert r == SelectFrom(list, i + 1, s1);
          SelectFromStop(list, i + 1, s1);
          EligibleShift(list, i, st, s1);
        } else {
          assert r == (true, s1);
        }
      } else {
        assert r == SelectFrom(list, i + 1, st2);
        assert st2.solved == st.solved + Mark(item);
        SelectFromStop(list, i + 1, st2);
        EligibleShift(list, i, st, st2);
      }
    }
  }

  /** The list scan leaves no eligible entry out: every eligible entry before the one it
      stops at was clicked, and none of them moved the page. */
  lemma {:induction false} SelectFromTried(list: seq<ListItem>, i: nat, st: State)
    requires i <= |list|
    ensures var r := SelectFrom(list, i, st); TriedBefore(list, i, ScanEnd(list, r), st, r.1.trace)
    decreases |list| - i
  {
    if i < |list| {
      var r := SelectFrom(list, i, st);
      var e := ScanEnd(list, r);
      var item := list[i];
      var st2 := if item.heading.Some? && ItemId(item) !in st.solved && item.hasCheckmark
                 then st.(solved := st.solved + {ItemId(item)}) else st;
      if item.heading.Some? && ItemId(item) !in st.solved && !item.hasCheckmark && HasSolution(st, ItemId(item)) {
        var s1 := Pause(Do(st, ClickItem(i)));
        if !Moved(item.idAfterClick, st.current) {
          assert r == SelectFrom(list, i + 1, s1);
          SelectFromTried(list, i + 1, s1);
          assert r.1.trace[|st.trace|] == ClickItem(i);
          if i < e {
            TriedStep(list, i, e, st, s1, r.1.trace);
          }
        } else {
          assert r == (true, s1);
        }
      } else {
        assert r == SelectFrom(list, i + 1, st2);
        assert st2.solved == st.solved + Mark(item);
        SelectFromTried(list, i + 1, st2);
        if i < e {
          TriedStep(list, i, e, st, st2, r.1.trace);
        }
      }
    }
  }

  /** Checkmarked items are added to the solved set: every checkmarked entry before the
      one the scan stops at is solved afterwards. */
  lemma {:induction false} SelectFromMarked(list: seq<ListItem>, i: nat, st: State)
    requires i <= |list|
    ensures var r := SelectFrom(list, i, st); MarkedBefore(list, i, ScanEnd(list, r), r.1.solved)
    decreases |list| - i
  {
    if i < |list| {
      var r := SelectFrom(list, i, st);
      var item := list[i];
      var st2 := if item.heading.Some? && ItemId(item) !in st.solved && item.hasCheckmark
                 then st.(solved := st.solved + {ItemId(item)}) else st;
      if item.heading.Some? && ItemId(item) !in st.solved && !item.hasCheckmark && HasSolution(st, ItemId(item)) {
        var s1 := Pause(Do(st, ClickItem(i)));
        if !Moved(item.idAfterClick, st.current) {
          assert r == SelectFrom(list, i + 1, s1);
          SelectFromMarked(list, i + 1, s1);
        } else {
          assert r == (true, s1);
        }
      } else {
        assert r == SelectFrom(list, i + 1, st2);
        SelectFromMarked(list, i + 1, st2);
        assert Mark(item) <= st2.solved <= r.1.solved;
      }
    }
  }

  /** `selectNextUnsolvedPuzzle`: sleeps once, then scans the list. */
  function SelectNext(list: seq<ListItem>, st: State): (r: (bool, State))
    ensures SameSession(st, r.1) && st.solved <= r.1.solved
  {
    SelectFrom(list, 0, Pause(st))
  }

  /** `selectNextUnsolvedPuzzle` clicks the eligible entries of the whole list in order
      and stops at the first that moves the page; it reports failure only when every
      eligible entry was clicked without a move. Every checkmarked entry before the stop
      is solved afterwards, and only checkmarked entries are added. */
  lemma SelectNextComplete(list: seq<ListItem>, st: State)
    ensures var r := SelectNext(list, st);
      var e := ScanEnd(list, r);
      (r.0 ==> Eligible(list, 0, e, st) && Moved(list[e].idAfterClick, st.current)) &&
      (!r.0 ==> e == |list|) &&
      TriedBefore(list, 0, e, st, r.1.trace) && MarkedBefore(list, 0, e, r.1.solved) &&
      FromCheckmarks(list, 0, st.solved, r.1.solved)
  {
    var p := Pause(st);
    SelectFromStop(list, 0, p);
    SelectFromTried(list, 0, p);
    SelectFromMarked(list, 0, p);
    SelectFromMarks(list, 0, p);
    assert forall k :: Eligible(list, 0, k, p) <==> Eligible(list, 0, k, st);
  }

  /** A button on a puzzle page, and the identifier read once clicking it took effect. */
  datatype PageButton = PageButton(text: string, idAfterClick: Option<string>)

  predicate IsNextButton(b: PageButton) {
    Clean(b.text) == "next puzzle"
  }

  /** What `goToNextPuzzle` sees: the buttons of the puzzle page, the buttons when it
      goes back to the list, and the puzzle list itself. */
  datatype NavView = NavView(buttons: seq<PageButton>, backButtons: seq<string>, list: seq<ListItem>)

  /** The actions of navigation; none of them touches the grid or submits. */
  predicate IsNavAction(a: Action) {
    a.ClickNext? || a.ClickBack? || a.OpenPuzzleList? || a.ClickItem?
  }

  /** A click on a "next puzzle" button after which the page shows a new puzzle. */
  predicate NextMoved(buttons: seq<PageButton>, a: Action, st: State) {
    a.ClickNext? && a.button < |buttons| && Moved(buttons[a.button].idAfterClick, st.current)
  }

  /** The loop over the "next puzzle" buttons of `goToNextPuzzle`, from button `i` on. */
  function NextFrom(buttons: seq<PageButton>, i: nat, st: State): (r: (bool, State))
    requires i <= |buttons|
    ensures SameSession(st, r.1) && r.1.solved == st.solved
    decreases |buttons| - i
  {
    if i == |buttons| then (false, st)
    else if IsNextButton(buttons[i]) then
      var s1 := Pause(Do(st, ClickNext(i)));
      if Moved(buttons[i].idAfterClick, st.current) then (true, s1)
      else NextFrom(buttons, i + 1, s1)
    else NextFrom(buttons, i + 1, st)
  }

  /** The clicks of a "next puzzle" button from `a` on. */
  ghost predicate NextClicks(buttons: seq<PageButton>, t: seq<Action>, a: nat) {
    forall j :: a <= j < |t| ==> t[j].ClickNext? && t[j].button < |buttons| && IsNextButton(buttons[t[j].button])
  }

  /** The loop clicks only "next puzzle" buttons. */
  lemma {:induction false} NextFromClicks(buttons: seq<PageButton>, i: nat, st: State)
    requires i <= |buttons|
    ensures NextClicks(buttons, NextFrom(buttons, i, st).1.trace, |st.trace|)
    decreases |buttons| - i
  {
    if i < |buttons| {
      if IsNextButton(buttons[i]) {
        var s1 := Pause(Do(st, ClickNext(i)));
        var r := NextFrom(buttons, i, st);
        if Moved(buttons[i].idAfterClick, st.current) {
          assert r.1.trace == st.trace + [ClickNext(i)];
        } else {
          NextFromClicks(buttons, i + 1, s1);
          assert r == NextFrom(buttons, i + 1, s1);
          forall j | |st.trace| <= j < |r.1.trace|
            ensures r.1.trace[j].ClickNext? && r.1.trace[j].button < |buttons| && IsNextButton(buttons[r.1.trace[j].button])
          {
            if j == |st.trace| {
              assert r.1.trace[j] == s1.trace[j] == ClickNext(i);
            }
          }
        }
      } else {
        NextFromClicks(buttons, i + 1, st);
      }
    }
  }

  /** When the loop reports a move, its last click is one after which the page showed a
      new puzzle. */
  lemma {:induction false} NextFromMoved(buttons: seq<PageButton>, i: nat, st: State)
    requires i <= |buttons|
    ensures var r := NextFrom(buttons, i, st);
      r.0 ==> |r.1.trace| > |st.trace| && NextMoved(buttons, r.1.trace[|r.1.trace| - 1], st)
    decreases |buttons| - i
  {
    if i < |buttons| {
      if IsNextButton(buttons[i]) {
        if !Moved(buttons[i].idAfterClick, st.current) {
          NextFromMoved(buttons, i + 1, Pause(Do(st, ClickNext(i))));
        }
      } else {
        NextFromMoved(buttons, i + 1, st);
      }
    }
  }

  /** The loop over the "next puzzle" buttons stops at the first one whose click moves
      the page; `NextEnd` is the button it stopped at, or the end of the buttons. */
  ghost function NextEnd(buttons: seq<PageButton>, r: (bool, State)): nat {
    var t := r.1.trace;
    if r.0 && |t| > 0 && t[|t| - 1].ClickNext? then t[|t| - 1].button else |buttons|
  }

  /** No "next puzzle" button from `i` up to `e` moves the page. */
  ghost predicate NoneMoves(buttons: seq<PageButton>, i: nat, e: nat, current: Option<string>) {
    forall k :: i <= k < e && k < |buttons| && IsNextButton(buttons[k]) ==> !Moved(buttons[k].idAfterClick, current)
  }

  /** Every "next puzzle" button from `i` up to `e` was clicked after position `from`. */
  ghost predicate NextTried(buttons: seq<PageButton>, i: nat, e: nat, t: seq<Action>, from: nat) {
    forall k :: i <= k < e && k < |buttons| && IsNextButton(buttons[k]) ==> ClickedIn(t, from, ClickNext(k))
  }

  /** The loop stops at the right button: it reports a move exactly at the first "next
      puzzle" button that moves the page, and reports none only when no such button
      moves it. */
  lemma {:induction false} NextFromStop(buttons: seq<PageButton>, i: nat, st: State)
    requires i <= |buttons|
    ensures var r := NextFrom(buttons, i, st);
      var e := NextEnd(buttons, r);
      (r.0 ==> i <= e < |buttons| && IsNextButton(buttons[e]) && Moved(buttons[e].idAfterClick, st.current)) &&
      (!r.0 ==> e == |buttons|) &&
      NoneMoves(buttons, i, e, st.current)
    decreases |buttons| - i
  {
    if i < |buttons| {
      var r := NextFrom(buttons, i, st);
      if IsNextButton(buttons[i]) {
        var s1 := Pause(Do(st, ClickNext(i)));
        if Moved(buttons[i].idAfterClick, st.current) {
          assert r == (true, s1);
        } else {
          assert r == NextFrom(buttons, i + 1, s1);
          NextFromStop(buttons, i + 1, s1);
        }
      } else {
        assert r == NextFrom(buttons, i + 1, st);
        NextFromStop(buttons, i + 1, st);
      }
    }
  }

  /** The loop clicks, in this run, every "next puzzle" button before the one it stops
      at. */
  lemma {:induction false} NextFromTried(buttons: seq<PageButton>, i: nat, st: State)
    requires i <= |buttons|
    ensures var r := NextFrom(buttons, i, st);
      NextTried(buttons, i, NextEnd(buttons, r), r.1.trace, |st.trace|)
    decreases |buttons| - i
  {
    if i < |buttons| {
      var r := NextFrom(buttons, i, st);
      var e := NextEnd(buttons, r);
      if IsNextButton(buttons[i]) {
        var s1 := Pause(Do(st, ClickNext(i)));
        if Moved(buttons[i].idAfterClick, st.current) {
          assert r == (true, s1);
        } else {
          assert r == NextFrom(buttons, i + 1, s1);
          NextFromTried(buttons, i + 1, s1);
          NextFromClicks(buttons, i + 1, s1);
          assert r.1.trace[|st.trace|] == ClickNext(i);
          forall k | i < k < e && k < |buttons| && IsNextButton(buttons[k])
            ensures ClickedIn(r.1.trace, |st.trace|, ClickNext(k))
          {
            var j :| |s1.trace| <= j < |r.1.trace| && r.1.trace[j] == ClickNext(k);
          }
        }
      } else {
        assert r == NextFrom(buttons, i + 1, st);
        NextFromTried(buttons, i + 1, st);
      }
    }
  }

  /** The loop reports a move exactly when some "next puzzle" button moves the page. */
  lemma NextFromMovesIff(buttons: seq<PageButton>, st: State)
    ensures NextFrom(buttons, 0, st).0 <==>
      exists k :: 0 <= k < |buttons| && IsNextButton(buttons[k]) && Moved(buttons[k].idAfterClick, st.current)
  {
    NextFromStop(buttons, 0, st);
  }

  /** `goToNextPuzzle`: a "next puzzle" button that leads to a new puzzle, or else the
      puzzle list and the next unsolved entry on it. */
  function GoNext(nav: NavView, st: State): (r: (bool, State))
    ensures SameSession(st, r.1) && st.solved <= r.1.solved
  {
    var n := NextFrom(nav.buttons, 0, st);
    if n.0 then n
    else
      var b := NavigateToPuzzleList(nav.backButtons, n.1);
      if !b.0 then b
      else SelectNext(nav.list, b.1)
  }

  /** `goToNextPuzzle` adds to the solved set only the identifiers of checkmarked list
      entries. */
  lemma GoNextMarks(nav: NavView, st: State)
    ensures FromCheckmarks(nav.list, 0, st.solved, GoNext(nav, st).1.solved)
  {
    var n := NextFrom(nav.buttons, 0, st);
    NextFromClicks(nav.buttons, 0, st);
    if n.0 {
      assert GoNext(nav, st) == n;
    } else {
      var b := NavigateToPuzzleList(nav.backButtons, n.1);
      SelectFromMarks(nav.list, 0, Pause(b.1));
      assert b.0 ==> GoNext(nav, st) == SelectNext(nav.list, b.1);
    }
  }

  /** `goToNextPuzzle` takes only navigation actions. */
  lemma GoNextNavOnly(nav: NavView, st: State)
    ensures forall j :: |st.trace| <= j < |GoNext(nav, st).1.trace| ==> IsNavAction(GoNext(nav, st).1.trace[j])
  {
    var n := NextFrom(nav.buttons, 0, st);
    NextFromClicks(nav.buttons, 0, st);
    if n.0 {
      assert GoNext(nav, st) == n;
    } else {
      var b := NavigateToPuzzleList(nav.backButtons, n.1);
      SelectFromClicks(nav.list, 0, Pause(b.1));
      var r := SelectNext(nav.list, b.1);
      assert b.0 ==> GoNext(nav, st) == r;
      assert forall j :: |b.1.trace| <= j < |r.1.trace| ==> r.1.trace[j].ClickItem?;
      assert forall j :: |st.trace| <= j < |b.1.trace| ==> IsNavAction(b.1.trace[j]) by {
        assert forall j :: |st.trace| <= j < |n.1.trace| ==> n.1.trace[j] == b.1.trace[j];
      }
    }
  }

  /** `goToNextPuzzle` takes only navigation actions, and adds to the solved set only the
      identifiers of checkmarked list entries. */
  lemma GoNextSound(nav: NavView, st: State)
    ensures FromCheckmarks(nav.list, 0, st.solved, GoNext(nav, st).1.solved)
    ensures forall j :: |st.trace| <= j < |GoNext(nav, st).1.trace| ==> IsNavAction(GoNext(nav, st).1.trace[j])
  {
    GoNextMarks(nav, st);
    GoNextNavOnly(nav, st);
  }

  /** `goToNextPuzzle` falls back to the list only when no "next puzzle" button moved the
      page: with a button that moves, the result is the button loop's; with none, it is
      the list scan after the navigation to the list. */
  lemma GoNextFallback(nav: NavView, st: State)
    ensures (exists k :: 0 <= k < |nav.buttons| && IsNextButton(nav.buttons[k]) &&
                         Moved(nav.buttons[k].idAfterClick, st.current)) ==>
      GoNext(nav, st) == NextFrom(nav.buttons, 0, st) && GoNext(nav, st).0
    ensures (forall k :: 0 <= k < |nav.buttons| && IsNextButton(nav.buttons[k]) ==>
                         !Moved(nav.buttons[k].idAfterClick, st.current)) ==>
      GoNext(nav, st) == SelectNext(nav.list, NavigateToPuzzleList(nav.backButtons, NextFrom(nav.buttons, 0, st).1).1)
  {
    NextFromMovesIff(nav.buttons, st);
  }

  // ---------------------------------------------------------------- the main loop

  /** What one iteration of `solverLoop` reads: the `h1`/`h2` texts and body text of the
      page, its elements, the buttons when submitting, the texts of the result polls, and
      what navigation sees. */
  datatype Tick = Tick(
    headings: seq<string>, body: string, page: seq<Element>,
    submitButtons: seq<string>, polls: seq<string>, nav: NavView)

  datatype StepEnd = Continue | Break

  /** `if (!moved) { stopSolver(); break; } await sleep(2000);` */
  function AfterMove(m: (bool, State)): (r: (StepEnd, State))
    ensures r.0 == Break <==> !m.0
    ensures r.0 == Break ==> !r.1.flag.running
  {
    if !m.0 then (Break, Stopped(m.1)) else (Continue, Pause(m.1))
  }

  /** The branch that solves the puzzle `id`; a thrown error is caught by the loop,
      which sleeps and goes on. */
  function SolveAndSubmit(t: Tick, id: string, st: State): (r: (StepEnd, State))
    requires HasSolution(st, id)
    ensures r.0 == Break ==> !r.1.flag.running
    ensures st.solved <= r.1.solved && st.trace <= r.1.trace && r.1.solutions == st.solutions
  {
    var s := SolvePuzzle(t.page, st.solutions.value[id], st);
    if s.0.Thrown? then (Continue, Pause(s.1))
    else
      var u := SubmitSolution(t.submitButtons, s.1);
      if u.0.Thrown? then (Continue, Pause(u.1))
      else AfterVerdict(t.nav, id, WaitForResult(t.polls, u.1))
  }

  /** After the verdict: a success records `id` as solved and sleeps; either way the
      solver moves on. */
  function AfterVerdict(nav: NavView, id: string, w: (bool, State)): (r: (StepEnd, State))
    ensures r.0 == Break ==> !r.1.flag.running
    ensures w.1.solved <= r.1.solved && w.1.trace <= r.1.trace && r.1.solutions == w.1.solutions
    ensures w.0 ==> id in r.1.solved
  {
    if w.0 then AfterMove(GoNext(nav, Pause(w.1.(solved := w.1.solved + {id}))))
    else AfterMove(GoNext(nav, w.1))
  }

  /** After the verdict only `id`, after a success, and checkmarked list entries are
      recorded as solved. */
  lemma AfterVerdictMarks(nav: NavView, id: string, w: (bool, State))
    ensures forall x :: x in AfterVerdict(nav, id, w).1.solved && x !in w.1.solved ==>
      (x == id && w.0) || Checkmarked(nav.list, 0, x)
  {
    if w.0 {
      GoNextSound(nav, Pause(w.1.(solved := w.1.solved + {id})));
    } else {
      GoNextSound(nav, w.1);
    }
  }

  const AlreadyCompleted: string := "Puzzle already completed!"

  /** The guard under which an iteration solves and submits: a puzzle page with an
      identifier that is not the current, already solved puzzle, not shown as completed,
      and with a stored solution. */
  predicate Attempts(t: Tick, st: State) {
    var pid := GetPuzzleId(t.headings);
    Truthy(pid) && !(st.current == pid && pid.value in st.solved) &&
    !Contains(t.body, AlreadyCompleted) && HasSolution(st, pid.value)
  }

  /** The identifier an iteration may record as solved from its own page: the page's
      identifier, when the page says it is completed or the verdict was a success. */
  predicate PageSolved(t: Tick, id: string) {
    GetPuzzleId(t.headings) == Some(id) && (Contains(t.body, AlreadyCompleted) || SubmitResult(t.polls).0)
  }

  /** One iteration of `solverLoop`. */
  function Step(t: Tick, st: State): (r: (StepEnd, State))
    ensures r.0 == Break ==> !r.1.flag.running
    ensures st.solved <= r.1.solved && st.trace <= r.1.trace && r.1.solutions == st.solutions
  {
    var pid := GetPuzzleId(t.headings);
    if !Truthy(pid) then
      if Contains(t.body, "Choose Your Challenge") then AfterMove(SelectNext(t.nav.list, st))
      else (Continue, Pause(st))
    else if st.current == pid && pid.value in st.solved then AfterMove(GoNext(t.nav, st))
    else
      var s0 := st.(current := pid);
      if Contains(t.body, AlreadyCompleted) then
        AfterMove(GoNext(t.nav, s0.(solved := s0.solved + {pid.value})))
      else if !HasSolution(s0, pid.value) then AfterMove(GoNext(t.nav, s0))
      else SolveAndSubmit(t, pid.value, s0)
  }

  /** An iteration records as solved only its own page's identifier, when the page says
      it is completed or the submission succeeded, and checkmarked list entries. */
  lemma StepSolvedSound(t: Tick, st: State)
    ensures forall id :: id in Step(t, st).1.solved && id !in st.solved ==>
      PageSolved(t, id) || Checkmarked(t.nav.list, 0, id)
  {
    var pid := GetPuzzleId(t.headings);
    var r := Step(t, st);
    if !Truthy(pid) {
      if Contains(t.body, "Choose Your Challenge") {
        SelectFromMarks(t.nav.list, 0, Pause(st));
      }
    } else if st.current == pid && pid.value in st.solved {
      GoNextSound(t.nav, st);
    } else {
      var s0 := st.(current := pid);
      if Contains(t.body, AlreadyCompleted) {
        var s1 := s0.(solved := s0.solved + {pid.value});
        GoNextSound(t.nav, s1);
        assert r.1.solved == GoNext(t.nav, s1).1.solved;
        assert PageSolved(t, pid.value);
      } else if !HasSolution(s0, pid.value) {
        GoNextSound(t.nav, s0);
      } else {
        SolveAndSubmitMarks(t, pid.value, s0);
      }
    }
  }

  /** The solving branch records as solved only its own identifier after a success, and
      checkmarked list entries. */
  lemma SolveAndSubmitMarks(t: Tick, id: string, st: State)
    requires HasSolution(st, id)
    ensures forall x :: x in SolveAndSubmit(t, id, st).1.solved && x !in st.solved ==>
      (x == id && SubmitResult(t.polls).0) || Checkmarked(t.nav.list, 0, x)
  {
    var s := SolvePuzzle(t.page, st.solutions.value[id], st);
    if s.0.Done? {
      var u := SubmitSolution(t.submitButtons, s.1);
      if u.0.Done? {
        var w := WaitForResult(t.polls, u.1);
        assert w.1.solved == st.solved && w.0 == SubmitResult(t.polls).0;
        AfterVerdictMarks(t.nav, id, w);
      }
    }
  }

  /** An iteration that does not attempt the puzzle clicks no cell and no submit button:
      it only navigates. */
  lemma StepNavigatesOnly(t: Tick, st: State)
    requires !Attempts(t, st)
    ensures forall j :: |st.trace| <= j < |Step(t, st).1.trace| ==> IsNavAction(Step(t, st).1.trace[j])
  {
    var pid := GetPuzzleId(t.headings);
    if !Truthy(pid) {
      if Contains(t.body, "Choose Your Challenge") {
        SelectFromClicks(t.nav.list, 0, Pause(st));
      }
    } else if st.current == pid && pid.value in st.solved {
      GoNextSound(t.nav, st);
    } else {
      var s0 := st.(current := pid);
      if Contains(t.body, AlreadyCompleted) {
        GoNextSound(t.nav, s0.(solved := s0.solved + {pid.value}));
      } else {
        GoNextSound(t.nav, s0);
      }
    }
  }

  /** A puzzle that is attempted, has a grid and a submit button, and whose verdict is a
      success is recorded as solved. */
  lemma StepSuccessRecorded(t: Tick, st: State)
    requires Attempts(t, st)
    requires FindPuzzleGrid(t.page).Some?
    requires exists b :: 0 <= b < |t.submitButtons| && IsSubmitButton(t.submitButtons[b])
    requires SubmitResult(t.polls).0
    ensures GetPuzzleId(t.headings).value in Step(t, st).1.solved
  {
  }

  /** `solverLoop`, one observation per iteration, for as long as the flag is set and
      observations remain. */
  function RunFrom(ticks: seq<Tick>, i: nat, st: State): (r: State)
    requires i <= |ticks|
    ensures st.solved <= r.solved && st.trace <= r.trace && r.solutions == st.solutions
    // Every identifier the loop records as solved was the page's own identifier in
    // some iteration that saw it completed or succeeded, or a checkmarked list entry.
    ensures forall id :: id in r.solved && id !in st.solved ==>
      exists k :: i <= k < |ticks| && (PageSolved(ticks[k], id) || Checkmarked(ticks[k].nav.list, 0, id))
    decreases |ticks| - i
  {
    if i == |ticks| || !st.flag.running then st
    else
      var r := Step(ticks[i], st);
      StepSolvedSound(ticks[i], st);
      if r.0 == Break then
        SolvedJoin(ticks, i, st.solved, r.1.solved, r.1.solved);
        r.1
      else
        var rest := RunFrom(ticks, i + 1, r.1);
        SolvedJoin(ticks, i, st.solved, r.1.solved, rest.solved);
        rest
  }

  /** What the iteration `i` records, followed by what the later iterations record. */
  lemma SolvedJoin(ticks: seq<Tick>, i: nat, s0: set<string>, s1: set<string>, s2: set<string>)
    requires i < |ticks|
    requires forall id :: id in s1 && id !in s0 ==>
      PageSolved(ticks[i], id) || Checkmarked(ticks[i].nav.list, 0, id)
    requires forall id :: id in s2 && id !in s1 ==>
      exists k :: i + 1 <= k < |ticks| && (PageSolved(ticks[k], id) || Checkmarked(ticks[k].nav.list, 0, id))
    ensures forall id :: id in s2 && id !in s0 ==>
      exists k :: i <= k < |ticks| && (PageSolved(ticks[k], id) || Checkmarked(ticks[k].nav.list, 0, id))
  {
    forall id | id in s2 && id !in s0
      ensures exists k :: i <= k < |ticks| && (PageSolved(ticks[k], id) || Checkmarked(ticks[k].nav.list, 0, id))
    {
      if id in s1 {
        assert PageSolved(ticks[i], id) || Checkmarked(ticks[i].nav.list, 0, id);
      }
    }
  }

  // ---------------------------------------------------------------- start, stop, status

  /** What `initializeFromCurrentState` reads: the body text and buttons before login,
      the login polls, and then the headings, body text and buttons of the page. */
  datatype InitView = InitView(
    body: string, loginButtons: seq<string>, loginPolls: seq<LoginPoll>,
    headings: seq<string>, pageBody: string, backButtons: seq<string>)

  /** The login part of `initializeFromCurrentState`: when a wallet prompt shows, click
      the login button (its result is ignored), wait for login, and sleep once more. */
  function LoginIfNeeded(v: InitView, st: State): (r: (Outcome, State))
    ensures !IsWaitingForLogin(v.body) ==> r == (Done, st)
    ensures r.0.Thrown? ==> r.0 == Thrown(StoppedWhileWaiting) || r.0 == Thrown(LoginTimeout)
    ensures r.1.solved == st.solved && SameSession(st, r.1)
    ensures forall j :: |st.trace| <= j < |r.1.trace| ==> r.1.trace[j].ClickLogin?
  {
    if !IsWaitingForLogin(v.body) then (Done, st)
    else
      var c := ClickLoginButton(v.loginButtons, st).1;
      var w := WaitForLogin(v.loginPolls, c.flag);
      if w.0.Thrown? then (w.0, c.(flag := w.1)) else (Done, Pause(c.(flag := w.1)))
  }

  /** `initializeFromCurrentState`: after any login, a puzzle page becomes the current
      puzzle, and a completed one sends the solver back to the list. */
  function Initialize(v: InitView, st: State): (r: (Outcome, State))
    ensures r.1.solved == st.solved && r.1.solutions == st.solutions && st.trace <= r.1.trace
    ensures r.0.Thrown? ==> IsWaitingForLogin(v.body)
    ensures r.0.Done? && Truthy(GetPuzzleId(v.headings)) ==> r.1.current == GetPuzzleId(v.headings)
    ensures !Truthy(GetPuzzleId(v.headings)) ==> r.1.current == st.current
  {
    var l := LoginIfNeeded(v, st);
    if l.0.Thrown? then l
    else
      var pid := GetPuzzleId(v.headings);
      if !Truthy(pid) then l
      else
        var s1 := l.1.(current := pid);
        if Contains(v.pageBody, AlreadyCompleted) then (Done, Pause(NavigateToPuzzleList(v.backButtons, s1).1))
        else (Done, s1)
  }

  /** Initialisation never clicks a cell or a submit button. */
  lemma InitializeClicksNoCell(v: InitView, st: State)
    ensures forall j :: |st.trace| <= j < |Initialize(v, st).1.trace| ==>
      Initialize(v, st).1.trace[j].ClickLogin? || IsNavAction(Initialize(v, st).1.trace[j])
  {
    var l := LoginIfNeeded(v, st);
    var pid := GetPuzzleId(v.headings);
    if l.0.Done? && Truthy(pid) && Contains(v.pageBody, AlreadyCompleted) {
      var n := NavigateToPuzzleList(v.backButtons, l.1.(current := pid)).1;
      assert Initialize(v, st).1.trace == n.trace;
      forall j | |st.trace| <= j < |n.trace|
        ensures n.trace[j].ClickLogin? || IsNavAction(n.trace[j])
      {
        if j < |l.1.trace| {
          assert n.trace[j] == l.1.trace[j];
        }
      }
    } else {
      assert Initialize(v, st).1.trace == l.1.trace;
    }
  }

  const LoadFailed: string := "Failed to load solutions file"

  /** `loadSolutions`: the solutions already loaded, or the fetched file, or an error. */
  function LoadSolutions(fetched: Option<map<string, Solution>>, st: State): (r: Result<map<string, Solution>>)
    ensures r.Failure? <==> st.solutions.None? && fetched.None?
    ensures r.Failure? ==> r.error == LoadFailed
    ensures st.solutions.Some? ==> r == Success(st.solutions.value)
  {
    if st.solutions.Some? then Success(st.solutions.value)
    else if fetched.Some? then Success(fetched.value)
    else Failure(LoadFailed)
  }

  /** `startSolver`: nothing happens when the solver already runs; otherwise the flag is
      set, the solutions are loaded, the page is initialised and the loop runs. A thrown
      error clears the flag and is passed on. */
  function StartSolver(fetched: Option<map<string, Solution>>, init: InitView, ticks: seq<Tick>, st: State): (r: (Outcome, State))
    ensures st.flag.running ==> r == (Done, st)
    ensures r.0.Thrown? ==> !r.1.flag.running
    ensures st.solved <= r.1.solved
  {
    if st.flag.running then (Done, st)
    else
      var s0 := st.(flag := st.flag.(running := true));
      match LoadSolutions(fetched, s0)
      case Failure(e) => (Thrown(e), Stopped(s0))
      case Success(m) =>
        var i := Initialize(init, s0.(solutions := Some(m)));
        if i.0.Thrown? then (i.0, Stopped(i.1))
        else (Done, RunFrom(ticks, 0, i.1))
  }

  /** The errors of `startSolver`: a missing solutions file, or the login wait giving up;
      either way nothing was clicked beyond the login button. */
  lemma StartSolverErrors(fetched: Option<map<string, Solution>>, init: InitView, ticks: seq<Tick>, st: State)
    requires !st.flag.running
    ensures var r := StartSolver(fetched, init, ticks, st);
      r.0.Thrown? ==>
        (r.0 == Thrown(LoadFailed) && st.solutions.None? && fetched.None? && r.1.trace == st.trace) ||
        (IsWaitingForLogin(init.body) && (r.0 == Thrown(StoppedWhileWaiting) || r.0 == Thrown(LoginTimeout)))
  {
  }

  /** The reply to `GET_SOLVER_STATUS`: the flag, the number of solved puzzles, and the
      identifier of the page, or `"N/A"` when it has none. */
  function Status(headings: seq<string>, st: State): (r: (bool, nat, string))
    ensures r.0 == st.flag.running && r.1 == |st.solved|
    ensures r.2 == "N/A" <==> !Truthy(GetPuzzleId(headings))
    ensures r.2 != "N/A" ==> GetPuzzleId(headings) == Some(r.2)
  {
    var pid := GetPuzzleId(headings);
    if Truthy(pid) then
      assert !IsIdChar("N/A"[0]);
      (st.flag.running, |st.solved|, pid.value)
    else (st.flag.running, |st.solved|, "N/A")
  }
}
