# Linera testnet helper: the solver and the recorder, modelled in Dafny

The extension helps with the Linera testnet portal's Game of Life puzzles. Two content
scripts do the work, and this project models both.

- The solver (`solver.js`) has three jobs:
  - it replays recorded solutions: it finds the puzzle grid and clicks the listed
    cells, submits, watches for the verdict and moves on to the next unsolved puzzle;
  - it claims the Game of Life quests on the portal's quests page;
  - it answers the portal's quiz from a file of known answers.
- The recorder (`recorder/content.js`) reads a solved puzzle from the page: its name,
  identifier, grid size and the placements of the cells painted as the solution. Its
  result is the recording that the solver later replays.

## How the model is built

- The page is modelled as records. Headings, buttons, grid elements, cells, dialogs and
  quiz radios are sequences of values holding exactly the text, attributes and computed
  style that the scripts read.
- A page that changes between two reads becomes a sequence of observations:
  - the polls of the submission and login waits;
  - the loop iterations of `solverLoop` (`Solver.Tick`);
  - one observation per iteration of the quest and quiz loops: the card's text or the
    question's checkmark as read when the loop reaches it, then the dialog it opens.
- The identifier a page shows after a navigation click is part of the button it was
  read from.
- Every click, key press and navigation is appended to a trace. Contracts speak about
  what was clicked and what was never clicked. For the navigation scans (the login
  button, the "back to puzzles" button, the "next puzzle" buttons and the puzzle list)
  they also say which element the scan stops at and that it passes over no candidate.
- The module-level state of `solver.js` is one object, `Session.Session`. Its state is
  `isRunning`, `solvedPuzzles`, `currentPuzzleId`, `solutions` and `learnAnswers`,
  plus the trace.
  - Its methods are the script's functions, with the script's loops written as loops.
  - Each method is proved to return, and to leave the state, exactly what a function
    of modules `Solver`, `Polling`, `Quests` or `Quiz` gives for the old state.
  - The properties of the script are then lemmas about those functions.
- `STOP_SOLVER` stops the script asynchronously. The model assumes that the handler
  runs only while the script awaits a `sleep`, so the stop is modelled as a pending count, `Flag.stopIn`.
  The flag is cleared at the `(stopIn + 1)`-th sleep from now, and `None` means no stop
  arrives (`RunState`).
- JavaScript's string operations are modelled in `Text`:
  - `trim`, `toLowerCase` and `includes`;
  - `split` on one character and on white space;
  - `replace(/\s+/g, …)`.
- `parseInt` and `===` on numbers, including `NaN` and `undefined`, are modelled in
  `Numbers`. `undefined` is the column of a placement without a `/`. A recorded `NaN`
  is saved as JSON `null`, which the solver compares like `NaN`: it equals nothing, so
  `Numbers.NaN` stands for both.
- All integers are unbounded. The scripts do no arithmetic where a width matters.

## Model

| member | source | states |
|---|---|---|
| Text.LowerChar | solver.js:110 | the lower-cased character is never a capital, an already small character is kept, and white space stays white space |
| Text.Lower | solver.js:110 | `toLowerCase` keeps the length |
| Text.LowerSpec | solver.js:110 | `toLowerCase` maps each position independently |
| Text.LowerAppend | solver.js:890-891 | lower-casing distributes over concatenation |
| Text.TrimStartSpec | solver.js:351 | the left trim is a suffix that starts with a non-space, and everything dropped is white space |
| Text.TrimEndSpec | solver.js:351 | the right trim is a prefix that ends with a non-space, and everything dropped is white space |
| Text.TrimSpec | solver.js:351 | `trim` shortens the text and leaves no white space at either end |
| Text.TrimPadded | solver.js:424 | a text without outer white space, padded with white space on both sides, trims back to itself |
| Text.TrimAround | solver.js:424 | one space on either side of an unpadded text is trimmed away |
| Text.ContainsIff | solver.js:124-128 | `includes` holds exactly when some slice of the text equals the word |
| Text.OccursTrans | solver.js:892 | containment is transitive |
| Text.NotContainsByChar | solver.js:892 | a word with a character absent from the text is not contained in it |
| Text.ContainsPart | solver.js:895 | a text containing a word contains every part of that word |
| Text.TrimSlice | solver.js:890 | `trim` keeps one slice of its argument and drops only white space around it |
| Text.UnpaddedInTrim | solver.js:890 | an unpadded non-empty text found in a string lies inside the trimmed string |
| Text.OccursTrim | solver.js:890-892 | containment survives trimming both sides |
| Text.OccursLower | solver.js:890-892 | containment survives lower-casing both sides |
| Text.SplitOn | solver.js:424 | `split` with a one-character separator always gives at least one part |
| Text.SplitOnSpec | solver.js:424 | no part contains the separator, and joining the parts with it gives the input back |
| Text.SplitOnAt | solver.js:424 | the part before the first separator comes first, and the rest is split the same way |
| Text.SplitOnWithout | solver.js:424 | a text without the separator splits into itself alone |
| Text.SplitOnOnePart | solver.js:424 | `split` gives one part exactly when the separator does not occur |
| Text.NonEmpty | solver.js:390-391 | `filter(x => x)` keeps exactly the non-empty parts: a part is in the result exactly when it is a non-empty part of the input |
| Text.NonEmptyAppend | solver.js:390-391 | the filter distributes over concatenation, so it keeps the order of the parts |
| Text.NonEmptyOne | solver.js:390-391 | a single part is kept exactly when it is non-empty |
| Text.TokenCountPositive | solver.js:390-391 | a template has a token exactly when it has a character other than a space |
| Text.SplitWs | solver.js:893 | `split(/\s+/)` gives at least one part, and no part holds white space |
| Text.SplitWsNoSpace | solver.js:893 | a text without white space splits into itself alone |
| Text.SplitWsAt | solver.js:893 | a maximal run of white space ends exactly one part: the text before it is a whole part, and the split goes on after the run |
| Text.ReplaceWsRuns | solver.js:362 | after `replace(/\s+/g, c)` every character is `c` or a non-space character of the input, and the text is no longer |
| Text.ReplaceIsSplitJoin | solver.js:362 | replacing the white-space runs is splitting on white space and joining with `c` |
| Text.ReplaceWsRunsNoSpace | solver.js:362 | a text without white space is left unchanged |
| Text.ReplaceWsRunsAt | solver.js:362 | a maximal run of white space becomes exactly one `c`, the text before it is copied, and the replacement goes on after the run |
| Numbers.DigitPrefix | solver.js:424 | `parseInt` reads the longest prefix made of digits of the radix |
| Numbers.ParseInt | solver.js:424 | `parseInt` gives a number or `NaN`, and `NaN` for a text that is empty or only white space |
| Numbers.ParseUnsigned | solver.js:424 | an unsigned digit string never parses to a negative number |
| Numbers.DigitChar | solver.js:852 | the character written for a digit is a decimal digit of that value |
| Numbers.ShowNat | solver.js:852 | the decimal text of a number is non-empty and made of digits |
| Numbers.ShowUnpadded | solver.js:424 | the decimal text of an integer has no white space at either end |
| Numbers.ValueOfShowNat | solver.js:852 | the digits written for a number have that number as their value |
| Numbers.DigitPrefixOfDigits | solver.js:424 | a text made only of decimal digits is read whole |
| Numbers.ParseUnsignedDigits | solver.js:424 | parsing the decimal text of a natural number gives that number |
| Numbers.ParseShow | solver.js:424 | `parseInt(String(n)) === n` for every integer, the negative ones included |
| Numbers.ShowNatInjective | solver.js:852 | different numbers have different decimal texts |
| PuzzleIds.KeepIdChars | solver.js:362 | `replace(/[^a-z0-9-]/g, '')` keeps exactly the identifier characters of the input and never lengthens the text |
| PuzzleIds.KeepIdCharsAppend | solver.js:362 | the removal distributes over concatenation, so the kept characters stay in order; one character is kept exactly when it is an identifier character |
| PuzzleIds.KeepIdCharsOfId | solver.js:362 | a text made of identifier characters is left unchanged |
| PuzzleIds.Normalize | solver.js:362 | a normalised name holds only `[a-z0-9-]` and no white space |
| PuzzleIds.NormalizeOfId | solver.js:362 | an identifier normalises to itself |
| PuzzleIds.NormalizeIdempotent | solver.js:362 | normalising twice is normalising once |
| PuzzleIds.NormalizeFixedPoints | solver.js:362 | the fixed points of normalisation are exactly the strings over `[a-z0-9-]` |
| PuzzleIds.IdOf | solver.js:351-362 | a heading's identifier holds only identifier characters |
| PuzzleIds.GetPuzzleId | solver.js:347-366 | `null` exactly when every heading trims to empty or to one of the five generic titles, and otherwise an identifier |
| PuzzleIds.GetPuzzleIdIsFirstTitle | solver.js:350-363 | the identifier comes from the first heading that is not generic |
| AnswerMatch.LongWords | solver.js:893 | the filter keeps exactly the words longer than three characters |
| AnswerMatch.LongWordsAppend | solver.js:893 | the filter distributes over concatenation, so it keeps the order of the words |
| AnswerMatch.LongWordsOne | solver.js:893 | one word is kept exactly when it is longer than three characters |
| AnswerMatch.KeyWords | solver.js:893 | the key words of an answer are exactly its white-space separated words longer than three characters |
| AnswerMatch.Hits | solver.js:895 | the count of words found is at most the number of words; it is all of them exactly when every word is found, and zero exactly when none is |
| AnswerMatch.HitsAppend | solver.js:895 | the count is additive over concatenated word lists, and one word counts one exactly when the text contains it |
| AnswerMatch.IsAnswerMatch | solver.js:889-899 | a label matches when it contains the cleaned answer; otherwise it matches exactly when the answer has key words and at least 70% of them are found |
| AnswerMatch.ShortAnswerNeedsContainment | solver.js:893-896 | an answer without a word of more than three characters matches only by containment |
| AnswerMatch.AllKeyWordsMatch | solver.js:894-896 | when every key word is found, the label matches |
| AnswerMatch.NoKeyWordNoMatch | solver.js:892-898 | when the answer is not contained and none of its key words is found, the label does not match |
| AnswerMatch.HitsMonotone | solver.js:895 | a text containing another finds at least as many key words |
| AnswerMatch.MatchMonotone | solver.js:889-899 | a matching label still matches inside any longer text that contains it |
| AnswerMatch.AnswerInsideLabelMatches | solver.js:890-892 | a label made of the answer with any text around it matches |
| Grid.FindPuzzleGrid | solver.js:376-400 | the first `div` that passes the shape test, and `null` exactly when none does |
| Grid.NarrowTemplateRejected | solver.js:390-395 | a grid with fewer than four column or row tokens is never the puzzle grid |
| Grid.Clickable | solver.js:412 | the `div[tabindex="0"]` cells are exactly the cells with that tab index, taken from the grid |
| Grid.ClickableAppend | solver.js:412 | the selection distributes over concatenation, so it keeps document order; one cell is kept exactly when its tab index is `"0"` |
| Grid.PlacementParts | solver.js:424 | the placement text `"<row> / <col>"` splits at `/` into the two padded numbers |
| Grid.TrimShowPadded | solver.js:424 | trimming a padded number gives its decimal text back |
| Grid.ParseGridAreaUndefined | solver.js:424-425 | the row is always a number or `NaN`; the column is `undefined` exactly when the placement has no `/` |
| Grid.OnePartGridArea | solver.js:424-425 | a placement without `/` reads as its row and an `undefined` column |
| Grid.GridAreaRoundTrip | solver.js:421-425 | the placement `"<row> / <col>"` reads back as exactly that row and column |
| Grid.FindCellFromIsFirst | solver.js:421-426 | the cell lookup is the first-match scan with the placement test |
| Grid.FindCell | solver.js:421-426 | the lookup gives the position of an existing cell or nothing |
| Grid.FindCellSpec | solver.js:421-426 | the lookup finds the first cell placed at the target, and nothing exactly when no cell is placed there |
| Grid.UnreadableTargetNotFound | solver.js:424-425 | a target with an unreadable number (`NaN`) matches no cell, because `NaN === x` never holds |
| Grid.PlacedCellFound | solver.js:421-426 | a cell placed at `"<row> / <col>"` is found at its own position or at an earlier cell with the same placement |
| Grid.OnePartCellFound | solver.js:421-426 | a cell whose placement has no `/` is found for the target of its row with an `undefined` column, because `undefined === undefined` holds |
| Polling.SubmitFrom | solver.js:462-479 | from poll `k`, the wait ends after at most 25 sleeps in all; once 5000 ms have elapsed it reports failure with no more sleeps |
| Polling.SubmitResult | solver.js:459-480 | `waitForSubmissionResult` sleeps at most 25 times of 200 ms |
| Polling.SubmitFromDecided | solver.js:464-476 | from any poll before the first decisive one, the verdict is that poll's success reading, after one sleep per earlier poll |
| Polling.SubmitFromUndecided | solver.js:462-479 | when no remaining poll is decisive, the wait reports failure after 25 sleeps |
| Polling.SubmitResultSpec | solver.js:459-480 | the verdict is the reading of the first decisive poll, and failure after 25 sleeps when none of the first 25 is decisive |
| Polling.SuccessWinsOverFailureWords | solver.js:467-473 | a poll showing the success message counts as success even when it also says "incorrect" or "failed" |
| Polling.LoginFrom | solver.js:138-171 | the wait throws only the stopped or the timeout error, and the stopped error exactly when the flag ends cleared |
| Polling.IsLoggedInCases | solver.js:141-152 | a poll whose text says "Please connect your wallet" or "Connecting to wallet" never ends the wait (the other login phrases, such as "Connect wallet", do not block it); without those two, the challenge list, the application's title "Conway's Game of Life" or a puzzle identifier ends it, and nothing else does |
| Polling.StillWaitingIsWaiting | solver.js:122-129 | the prompt test inside the wait (solver.js:145-146) is narrower than `isWaitingForLogin`: a page the wait treats as waiting is one the initial check treats as waiting |
| Polling.WaitForLogin | solver.js:132-172 | the same for the whole `waitForLogin` |
| Polling.RunningEarlier | solver.js:138 | a flag still set after `k` sleeps was set after every smaller number of sleeps |
| Polling.LoginFromAt | solver.js:138-155 | from any poll up to the first successful one read while the flag is set, the wait returns after one sleep per earlier poll |
| Polling.LoginFromNone | solver.js:138-171 | when no poll succeeds with the flag set, the wait throws |
| Polling.WaitForLoginSpec | solver.js:132-172 | `waitForLogin` returns after the sleeps before the first successful poll, and throws exactly when there is none |
| Polling.LoginStoppedAtStart | solver.js:138-169 | a wait entered with the flag cleared throws "Solver stopped while waiting for login" at once and changes nothing |
| Polling.LoginTimesOut | solver.js:138-171 | without a stop, 300 unsuccessful polls end in "Login timeout - user did not connect wallet" |
| RunState.Sleep | solver.js:573-575 | one sleep delivers a stop that is due and otherwise counts a pending stop down by one |
| RunState.SleepsClosed | solver.js:573-575 | after `n` sleeps the flag is cleared exactly when the stop was due within them |
| RunState.SleepsAdd | solver.js:573-575 | sleeping `a` times and then `b` times is sleeping `a + b` times |
| RunState.SleepsSucc | solver.js:573-575 | one more sleep is one more step of `Sleep` |
| RunState.StoppedStaysStopped | solver.js:222-225 | nothing inside the loops sets the flag again: once cleared it stays cleared |
| RunState.NoStopNoChange | solver.js:573-575 | without a pending stop, the flag survives any number of sleeps |
| Scan.FirstFrom | solver.js:109-116 | the first position from `i` whose element satisfies the test, and `None` exactly when there is none |
| Scan.First | recorder/content.js:97-99 | `Array.prototype.find`: the first position satisfying the test, and `None` exactly when none does |
| Scan.FirstIs | solver.js:719-726 | the first match is determined by its defining property |
| Scan.FindFirst | solver.js:719-726 | a `for … of` loop that breaks at the first match returns the first match |
| Solver.FoundFrom | solver.js:415-434 | the reference clicks from target `i` on are at most one per remaining target |
| Solver.Found | solver.js:415-434 | at most one click per target of the solution |
| Solver.FoundSound | solver.js:421-433 | every reference click is on an existing cell placed at one of the targets |
| Solver.SolveFrom | solver.js:415-434 | the click loop changes only the trace and the flag, and never the solved set |
| Solver.SolveFromClicks | solver.js:415-434 | the clicks of `solvePuzzle` are a prefix of the reference clicks, cut short only by a stop |
| Solver.SolveFromSleeps | solver.js:428-432 | the loop sleeps once after each click and nowhere else |
| Solver.ClicksMadeBounds | solver.js:416 | no click when the flag is clear; all reference clicks without a stop; with a stop, all of them or exactly one more than the sleeps before it |
| Solver.SolvePuzzle | solver.js:403-438 | throws "Puzzle grid not found" exactly when no grid qualifies, before any click, and never touches the solved set |
| Solver.SubmitSolution | solver.js:441-456 | throws "Submit button not found" exactly when no button mentions submitting; otherwise it clicks the first such button and sleeps once |
| Solver.WaitForResult | solver.js:459-480 | the verdict is that of `Polling.SubmitResult` (proved in `Polling.SubmitResultSpec`), and the wait changes only the flag, by the sleeps of the polling |
| Solver.ClickLoginButton | solver.js:106-119 | reports a click exactly when some button reads as a login button; then it clicks the first such button and changes nothing else; it changes nothing when none does |
| Solver.NavigateToPuzzleList | solver.js:175-195 | always reports success, after exactly one navigation action and one sleep |
| Solver.NavigateToPuzzleListSpec | solver.js:178-194 | with a "back to puzzles" button it clicks the first one; with none it opens the puzzle list by location |
| Solver.SelectFrom | solver.js:525-566 | the list scan changes no session field and only adds to the solved set; which entry it stops at, and that it passes over none, is `Solver.SelectFromStop` and `Solver.SelectFromTried` |
| Solver.SelectFromMarks | solver.js:540-551 | the scan adds to the solved set only identifiers of checkmarked entries; the converse, that every checkmarked entry passed is added, is `Solver.SelectFromMarked` |
| Solver.SelectFromClicks | solver.js:554-557 | every click of the scan is on an unsolved, unchecked entry with a solution |
| Solver.SelectFromMoved | solver.js:556-564 | the scan reports a move only right after a click that led to a new puzzle |
| Solver.EligibleShift | solver.js:540-557 | passing one entry changes which later entries the scan clicks only through the identifier it marks as solved |
| Solver.SelectFromStop | solver.js:554-564 | when the scan reports a move it stopped at an eligible entry whose click moved the page; otherwise it ran to the end of the list |
| Solver.SelectFromTried | solver.js:554-564 | every eligible entry before the stop was clicked and did not move the page |
| Solver.SelectFromMarked | solver.js:540-551 | every checkmarked entry before the stop is in the solved set afterwards |
| Solver.SelectNext | solver.js:518-570 | `selectNextUnsolvedPuzzle` changes no session field and only adds to the solved set; `Solver.SelectNextComplete` states which entry it clicks and when it fails |
| Solver.SelectNextComplete | solver.js:518-570 | `selectNextUnsolvedPuzzle` clicks the eligible entries in order and stops at the first that moves the page; it fails only after trying all of them without a move; it marks solved every checkmarked entry it passes, and only those |
| Solver.NextFrom | solver.js:489-504 | the "next puzzle" loop changes no session field and leaves the solved set alone; `Solver.NextFromStop` and `Solver.NextFromTried` state where it stops and that it clicks every button before |
| Solver.NextFromClicks | solver.js:489-494 | the loop clicks only "next puzzle" buttons |
| Solver.NextFromMoved | solver.js:496-501 | the loop reports a move only right after a click that led to a new puzzle |
| Solver.NextFromStop | solver.js:489-504 | the loop reports a move exactly at the first "next puzzle" button that moves the page, and none only when no such button moves it |
| Solver.NextFromTried | solver.js:489-504 | every "next puzzle" button before the stop was clicked |
| Solver.NextFromMovesIff | solver.js:489-504 | the loop reports a move exactly when some "next puzzle" button moves the page |
| Solver.GoNext | solver.js:483-515 | `goToNextPuzzle` changes no session field and only adds to the solved set; `Solver.GoNextFallback` states when the list fallback runs |
| Solver.GoNextSound | solver.js:483-515 | it marks solved only checkmarked list entries and performs only navigation actions |
| Solver.GoNextMarks | solver.js:483-515 | it marks solved only checkmarked list entries |
| Solver.GoNextNavOnly | solver.js:483-515 | it performs only navigation actions |
| Solver.GoNextFallback | solver.js:505-514 | when some "next puzzle" button moves the page, the result is the button loop's; when none does, it is the list scan after navigating to the list |
| Solver.AfterMove | solver.js:258-265 | the loop breaks exactly when there was no move, and a break leaves the flag cleared |
| Solver.SolveAndSubmit | solver.js:301-336 | a break leaves the flag cleared, and the solved set and the trace only grow |
| Solver.AfterVerdict | solver.js:309-335 | a successful verdict records the puzzle as solved, and a break leaves the flag cleared |
| Solver.AfterVerdictMarks | solver.js:309-335 | after the verdict only the puzzle itself, on success, or checkmarked entries become solved |
| Solver.Step | solver.js:229-340 | an iteration that breaks leaves the flag cleared; the solved set and the trace only grow; the solutions stay |
| Solver.StepSolvedSound | solver.js:229-340 | an iteration records as solved only the page's own puzzle, when the page said it was completed or its submission succeeded, or a checkmarked list entry |
| Solver.SolveAndSubmitMarks | solver.js:301-336 | solving records the puzzle only on a successful verdict, or else checkmarked entries |
| Solver.StepNavigatesOnly | solver.js:232-297 | an iteration that does not attempt the page's puzzle only navigates: no cell click and no submit |
| Solver.StepSuccessRecorded | solver.js:301-311 | when the grid and a submit button are present and the verdict is success, the puzzle is recorded as solved |
| Solver.RunFrom | solver.js:228-344 | the loop only adds to the solved set, and every identifier it adds was one that some iteration saw completed or solved, or checkmarked in the list |
| Solver.LoginIfNeeded | solver.js:73-85 | without a wallet prompt (`Polling.IsWaitingForLogin`, solver.js:122-129) nothing happens; otherwise it clicks only login buttons and throws only the stopped or timeout errors |
| Solver.Initialize | solver.js:69-103 | throws only when a wallet prompt showed; a page with an identifier becomes the current puzzle; the solved set and solutions stay |
| Solver.InitializeClicksNoCell | solver.js:69-103 | initialisation clicks only login buttons and navigates, and never clicks a cell or submits |
| Solver.LoadSolutions | solver.js:54-66 | the loaded solutions are kept; otherwise the fetched file; "Failed to load solutions file" exactly when neither exists |
| Solver.StartSolver | solver.js:198-219 | a solver already running returns at once and changes nothing; an error leaves the flag cleared; the solved set only grows |
| Solver.StartSolverErrors | solver.js:207-218 | the only errors are a failed load, before any action, or a login wait that stopped or timed out while a wallet prompt showed |
| Solver.Status | solver.js:29-34 | the status holds the flag, the number of solved puzzles, and the identifier or "N/A" exactly when there is none |
| Quests.Reachable | solver.js:655-657 | the walk up the tree reaches the first twenty ancestors, or all of them below the root |
| Quests.CardOf | solver.js:655-669 | the card is the first reachable ancestor whose text offers "Start Quest", and none exactly when no such ancestor exists |
| Quests.FindCard | solver.js:652-669 | the ancestor loop finds that card |
| Quests.Cards | solver.js:634-677 | at most one card per heading |
| Quests.CardsStep | solver.js:637-677 | the cards are built heading by heading, in document order |
| Quests.FindCardFor | solver.js:638-675 | the card of one heading, when its title qualifies |
| Quests.FindQuestCards | solver.js:634-677 | the discovery loop collects the cards of the qualifying headings |
| Quests.CardsSpec | solver.js:642-672 | every discovered card has a quest title and a "Start Quest" text, and there are none exactly when no heading gives a card |
| Quests.CardsComplete | solver.js:637-677 | every qualifying heading with a reachable card is discovered |
| Quests.ClassifySkipped | solver.js:735-744 | a check counts as skipped exactly when the page says "already completed" and neither "successfully" nor "claimed" |
| Quests.Classify | solver.js:735-744 | a check counts as skipped only when the page says "already completed" or "already claimed", and a page saying "successfully" always counts as claimed |
| Quests.AlreadyClaimedIsClaimed | solver.js:735-740 | a page saying "already claimed" counts as claimed, because it contains "claimed" |
| Quests.CloseDialog | solver.js:753-775 | closing appends exactly the close action, clicking the first close button or else pressing Escape, sleeps once and changes no count |
| Quests.CheckCard | solver.js:715-749 | the check appends exactly the check action; without a "check puzzle" button nothing changes; with one it sleeps once and adds one to the claimed or the skipped count, as the classification says |
| Quests.ClaimOne | solver.js:694-777 | one card only extends the trace |
| Quests.ClaimOneCounts | solver.js:698-744 | a card is claimed exactly when its text read by that iteration does not say "Completed", it has a check button and the check result is not an already-completed text (an empty or ambiguous result counts as claimed); it is skipped exactly when that text says "Completed" or the check says so; never both |
| Quests.ClaimFrom | solver.js:688-778 | the loop only extends the trace |
| Quests.ClaimFromCounts | solver.js:688-778 | the loop counts at most one per card |
| Quests.ClaimFromClicks | solver.js:698-708 | the loop clicks only cards of the list whose text, read when the loop reaches them, does not say "Completed" |
| Quests.CheckActions | solver.js:719-730 | no action exactly when no button says "check puzzle"; otherwise one click on the first such button |
| Quests.CloseAction | solver.js:757-773 | a click on the first close button when there is one; Escape exactly when no button qualifies |
| Quests.ClaimOneClicks | solver.js:698-708 | one card clicks at most itself, and only when it does not say "Completed" |
| Quests.ClaimFromStopped | solver.js:689-692 | a loop entered with the flag cleared does nothing |
| Quests.ClaimFromAllCompleted | solver.js:697-708 | when every remaining card says "Completed" and no stop arrives, each is skipped, none is claimed and nothing is clicked |
| Quests.RethrowPortalError | solver.js:617-619 | the wrong-portal error leaves the `catch` unchanged |
| Quests.RethrowNoQuestsError | solver.js:792-794 | the no-quests error leaves the `catch` reworded as "they may all be completed already" |
| Quests.ClaimQuests | solver.js:612-798 | a thrown error is the wrong-portal or the no-quests error, and then nothing was counted and no card was clicked |
| Quests.ClaimQuestsSpec | solver.js:612-798 | the wrong-portal error exactly off the portal; the no-quests error exactly when no card is found; success otherwise; at most one count per card |
| Quests.ClaimQuestsAllCompleted | solver.js:612-798 | on the portal, when every card says "Completed" and no stop arrives, the run succeeds with every card skipped, none claimed and no card clicked |
| Quiz.Key | solver.js:852 | the answer key of a question is `Question <n>` |
| Quiz.KeyInjective | solver.js:852 | different positions look up different answers |
| Quiz.KeyIsHeading | solver.js:852 | the key of position `i` is the heading `Question <n>` exactly when `n = i + 1` |
| Quiz.Questions | solver.js:825-833 | the question buttons are exactly the page's buttons whose heading is `Question <n>` |
| Quiz.QuestionsAppend | solver.js:825-833 | the selection distributes over concatenation, so it keeps document order |
| Quiz.FindQuestionButtons | solver.js:825-833 | the discovery loop collects exactly those |
| Quiz.QuestionsComplete | solver.js:828-837 | no question button is missed, and there are none exactly when no button qualifies |
| Quiz.NativeLabel | solver.js:909-916 | the trimmed text of the radio's `label[for=id]` when that is non-empty, otherwise the trimmed parent text, otherwise empty; always unpadded |
| Quiz.RoleLabel | solver.js:934 | the trimmed parent text, or empty without a parent |
| Quiz.Choose | solver.js:901-943 | the first matching native radio; otherwise the first matching role radio; nothing when the flag is cleared or no label matches |
| Quiz.Picked | solver.js:920-940 | with a choice, exactly that radio is clicked and one sleep follows, with no count changed; without one nothing changes |
| Quiz.Submitted | solver.js:951-962 | nothing changes exactly when there is no choice or no button says "submit"; otherwise the first such button is clicked, one sleep follows, and the question counts as answered |
| Quiz.Closed | solver.js:966-975 | nothing changes exactly when no button reads "close" or "ok" or mentions "continue"; otherwise the first such button is clicked and one sleep follows, with no count changed |
| Quiz.AnswerOpened | solver.js:901-979 | answering an open dialog only extends the trace |
| Quiz.AnswerOne | solver.js:851-979 | one question only extends the trace |
| Quiz.AnswerOneCounts | solver.js:857-965 | a question is answered exactly when its dialog read by that iteration has an answer stored under its key, no stop arrives during the sleep after opening it, a radio matches and a submit button exists, and its question button shows no checkmark; it is skipped exactly when that button shows the checkmark; never both |
| Quiz.AnswerFrom | solver.js:845-980 | the loop only extends the trace |
| Quiz.AnswerFromCounts | solver.js:845-980 | the loop counts at most one per question |
| Quiz.LoadAnswers | solver.js:597-609 | the loaded answers are kept; otherwise the fetched file; "Failed to load learn answers file" exactly when neither exists |
| Quiz.AnswerQuestions | solver.js:801-990 | a thrown error is the load or the portal error, and then nothing was counted and nothing was done |
| Quiz.AnswerQuestionsSpec | solver.js:801-990 | the load error exactly when nothing loads; the portal error exactly when answers load off the portal; no counts without questions; at most one count per question |
| Recorder.GetPuzzleName | recorder/content.js:65-89 | the first heading that is not generic, trimmed, or "Unknown Puzzle" when there is none |
| Recorder.RecorderPuzzleId | recorder/content.js:38-62 | `null` exactly when no heading is named, and otherwise an identifier |
| Recorder.RecorderIdAgrees | recorder/content.js:38-62 | the recorder and the solver compute the same identifier from the same headings |
| Recorder.IdIsNormalizedName | recorder/content.js:44-88 | the identifier is the normalised puzzle name; without one, the name is "Unknown Puzzle" |
| Recorder.GridSize | recorder/content.js:92-147 | the error exactly when no `div` below the search root passes the shape test; otherwise the size of the first one that does, both counts at least four |
| Recorder.GetGridSize | recorder/content.js:108-138 | the loop over the `div`s gives that size |
| Recorder.FindRecordGrid | recorder/content.js:152-164 | the lookup fails exactly when no element passes any of the four tests; `Recorder.FindRecordGridPriority` states which element is found |
| Recorder.FindRecordGridPriority | recorder/content.js:152-161 | the four selectors are tried in order: the first `.grid.relative`, else the first `.grid`, else the first class mentioning `grid`, else the first `div` displayed as a grid |
| Recorder.AliveIndices | recorder/content.js:170-184 | the recorded positions are alive cells, in strictly increasing order |
| Recorder.AliveIndicesComplete | recorder/content.js:170-184 | every alive cell is recorded |
| Recorder.Recorded | recorder/content.js:167-186 | at most one placement per cell |
| Recorder.RecordedLength | recorder/content.js:170-184 | one placement per alive cell |
| Recorder.RecordedAt | recorder/content.js:176-181 | the `j`-th placement is that of the `j`-th alive cell |
| Recorder.RecordedIsAlivePlacements | recorder/content.js:167-186 | the recording is the placements of exactly the alive cells, in document order |
| Recorder.RecordAlive | recorder/content.js:167-186 | the cell loop builds that recording |
| Recorder.AliveCells | recorder/content.js:150-187 | "Grid not found" exactly when the lookup fails; otherwise the recording of the grid's clickable cells |
| Recorder.GetAliveCells | recorder/content.js:150-187 | the script computes that |
| Recorder.RecordedPlacement | recorder/content.js:178-181 | a cell placed at `"<row> / <col>"` is recorded as that row and column |
| Recorder.ReplayFindsRecorded | recorder/content.js:180 | replaying a recording on the same cells finds every placement with two readable numbers, at the recorded cell or an earlier one, and never one with a `NaN` |
| Recorder.GetSolution | recorder/content.js:12-35 | fails when there is no identifier, no grid size or no grid; otherwise the identifier, name, size of at least 4 by 4, and the recorded cells |
| Recorder.RecordingKeyedForSolver | recorder/content.js:14-29 | a recording carries exactly the identifier under which the solver looks up its solution |
| Session.Session.constructor | solver.js:11-16 | the script starts stopped, with no solved puzzle, no current puzzle and nothing loaded |
| Session.Session.Pause | solver.js:573-575 | one `await sleep(…)` |
| Session.Session.StopSolver | solver.js:222-225 | `stopSolver` clears the flag and nothing else |
| Session.Session.GetSolverStatus | solver.js:29-34 | the status reply |
| Session.Session.SolvePuzzle | solver.js:403-438 | the click loop leaves the state `Solver.SolvePuzzle` gives |
| Session.Session.SubmitSolution | solver.js:441-456 | the button loop leaves the state `Solver.SubmitSolution` gives |
| Session.Session.WaitForSubmissionResult | solver.js:459-480 | the polling loop gives the verdict and sleeps `Solver.WaitForResult` gives |
| Session.Session.ClickLoginButton | solver.js:106-119 | the button loop gives `Solver.ClickLoginButton` |
| Session.Session.WaitForLogin | solver.js:132-172 | the polling loop gives `Polling.WaitForLogin` and changes only the flag |
| Session.Session.Initialize | solver.js:69-103 | `initializeFromCurrentState` gives `Solver.Initialize` |
| Session.Session.NavigateToPuzzleList | solver.js:175-195 | the button loop gives `Solver.NavigateToPuzzleList` |
| Session.Session.SelectNextUnsolvedPuzzle | solver.js:518-570 | the list loop gives `Solver.SelectNext` |
| Session.Session.TryNextButtons | solver.js:487-504 | the "next puzzle" loop gives `Solver.NextFrom` |
| Session.Session.GoToNextPuzzle | solver.js:483-515 | `goToNextPuzzle` gives `Solver.GoNext` |
| Session.Session.AfterMove | solver.js:258-265 | the end of a navigating iteration gives `Solver.AfterMove` |
| Session.Session.SolveAndSubmit | solver.js:301-336 | solving, submitting and moving on give `Solver.SolveAndSubmit` |
| Session.Session.AfterVerdict | solver.js:309-335 | the verdict branch gives `Solver.AfterVerdict` |
| Session.Session.Iterate | solver.js:229-340 | one iteration of the loop body gives `Solver.Step` |
| Session.Session.SolverLoop | solver.js:228-344 | `solverLoop` over the observed iterations gives `Solver.RunFrom` |
| Session.Session.StartSolver | solver.js:198-219 | `startSolver` gives `Solver.StartSolver` |
| Session.Session.CheckPuzzle | solver.js:715-744 | the check of an opened card gives `Quests.CheckCard` |
| Session.Session.CloseQuestDialog | solver.js:753-775 | closing a quest dialog gives `Quests.CloseDialog` |
| Session.Session.ClaimCard | solver.js:694-777 | one card of the loop gives `Quests.ClaimOne` |
| Session.Session.ClaimEach | solver.js:688-778 | the card loop gives `Quests.ClaimFrom` |
| Session.Session.ClaimGameOfLifeQuests | solver.js:612-798 | `claimGameOfLifeQuests` gives `Quests.ClaimQuests` and changes only the flag |
| Session.Session.HandleClaimQuests | solver.js:36-42 | the handler sets the flag, runs the claimer and clears the flag whatever the outcome |
| Session.Session.ScanRadios | solver.js:906-927 | a radio loop finds the first matching radio, or none when the flag is cleared |
| Session.Session.ChooseRadio | solver.js:901-943 | the two radio loops give `Quiz.Choose` |
| Session.Session.ClickChoice | solver.js:920-940 | clicking the chosen radio gives `Quiz.Picked` |
| Session.Session.SubmitChoice | solver.js:951-965 | the submit loop gives `Quiz.Submitted` |
| Session.Session.CloseQuizDialog | solver.js:968-977 | the close loop gives `Quiz.Closed` |
| Session.Session.AnswerOpened | solver.js:901-979 | answering an opened question gives `Quiz.AnswerOpened` |
| Session.Session.AnswerQuestion | solver.js:851-979 | one question of the loop gives `Quiz.AnswerOne` |
| Session.Session.AnswerEach | solver.js:845-980 | the question loop gives `Quiz.AnswerFrom` |
| Session.Session.AnswerLearnQuestions | solver.js:801-990 | `answerLearnQuestions` gives `Quiz.AnswerQuestions`, including the loaded answers it keeps |
| Session.Session.HandleAnswerQuestions | solver.js:43-49 | the handler sets the flag, runs the quiz and clears the flag whatever the outcome |

## Left out

- Message dispatch (solver.js:19-51, recorder/content.js:1-9): only the replies are
  modelled. The status reply is `Session.Session.GetSolverStatus`. The quest and quiz
  handlers are `HandleClaimQuests` and `HandleAnswerQuestions`. The `sendResponse`
  plumbing is not modelled.
- `fetch` and JSON parsing: `loadSolutions` and `loadLearnAnswers` receive the file as an
  `Option`, where `None` means the fetch or the parse failed. A parsed file that is
  `null` or another falsy value is not modelled.
- `window.location`: its `href` and `pathname` are inputs. Assigning to it is a
  navigation action in the trace; the page reload it causes is not modelled.
- The recording's `timestamp` is left out, because clocks are not modelled.
- The popups (`popup.js`, `recorder/popup.js`) are not part of this model.
- Concurrency: a `STOP_SOLVER` is assumed to arrive only while the script awaits a
  `sleep`. A stop that arrives during the other awaits of a run is not modelled: the
  `await fetch(…)` and `await response.json()` of the solution loader (solver.js:58-59)
  and of the answer loader (solver.js:601-602), which run after `isRunning = true`. Other messages arriving during a run are not modelled, for example a `CLAIM_GOL_QUESTS`
  that sets `isRunning` while the solver runs.
- Session.Session.SolverLoop: the loop runs over a finite sequence of observed
  iterations and ends when they run out. A page that never lets the loop end is not
  modelled.
- Object lookups (`solutions[id]`, `learnAnswers[key]`) are map membership. Keys
  inherited from `Object.prototype` are not modelled.
- Text is ASCII:
  - `toLowerCase` maps only the ASCII capitals;
  - white space is the ASCII spaces and the no-break space;
  - other Unicode case mappings and spaces are not modelled.
- `parseInt` reads a sign, a `0x` prefix and decimal or hexadecimal digits. Other radix
  prefixes and numbers beyond the exact range of a double are not modelled.
- A solution without `cells` is not modelled. Neither is a learn-answer entry without
  `answer`: each entry is modelled as its answer text.
- `console` logging and the final summary branch of `claimGameOfLifeQuests`, which only
  logs (solver.js:785-787), are left out.
- Quiz.AnswerQuestionsSpec: the case where the answers load on the portal is stated
  only through the counts and the loaded answers. The exact trace is the one
  `Quiz.AnswerQuestions` gives, and `Session.Session.AnswerLearnQuestions` proves that
  the script produces it.
