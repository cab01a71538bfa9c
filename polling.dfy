/** The two bounded poll loops of the solver: the wait for the verdict after a
    submission, and the wait for the user to connect a wallet. Each poll reads the page
    text; the texts the page shows at successive polls are an input, and a poll beyond
    the given ones reads an empty page. */
module Polling {
  import opened Text
  import opened Wrappers
  import opened RunState
  import opened PuzzleIds

  /** The page text at poll `k`. */
  function PollText(polls: seq<string>, k: nat): string {
    if k < |polls| then polls[k] else ""
  }

  const SubmitMaxWait: nat := 5000
  const SubmitInterval: nat := 200

  predicate IsSuccessText(t: string) {
    Contains(t, "Solution submitted successfully!")
  }

  predicate IsFailureText(t: string) {
    Contains(t, "incorrect") || Contains(t, "failed")
  }

  /** A poll that ends the wait. */
  predicate IsDecisive(t: string) {
    IsSuccessText(t) || IsFailureText(t)
  }

  /** `waitForSubmissionResult` from poll `k` on (`elapsed == 200 * k`): whether it returns
      `true`, and the number of sleeps (of 200 ms) it has gone through in all. */
  function SubmitFrom(polls: seq<string>, k: nat): (r: (bool, nat))
    ensures k * SubmitInterval < SubmitMaxWait ==> k <= r.1 <= 25
    ensures k * SubmitInterval >= SubmitMaxWait ==> r == (false, k)
    decreases SubmitMaxWait - k * SubmitInterval
  {
    if k * SubmitInterval >= SubmitMaxWait then (false, k)
    else
      var t := PollText(polls, k);
      if IsSuccessText(t) then (true, k)
      else if IsFailureText(t) then (false, k)
      else SubmitFrom(polls, k + 1)
  }

  /** The verdict of `waitForSubmissionResult` and the number of sleeps it takes. */
  function SubmitResult(polls: seq<string>): (r: (bool, nat))
    ensures r.1 <= 25
  {
    SubmitFrom(polls, 0)
  }

  /** The first decisive poll among the first 25, if there is one. */
  ghost predicate FirstDecisiveAt(polls: seq<string>, k: nat) {
    k < 25 && IsDecisive(PollText(polls, k)) &&
    forall j :: 0 <= j < k ==> !IsDecisive(PollText(polls, j))
  }

  lemma {:induction false} SubmitFromDecided(polls: seq<string>, k: nat, d: nat)
    requires k <= d && FirstDecisiveAt(polls, d)
    ensures SubmitFrom(polls, k) == (IsSuccessText(PollText(polls, d)), d)
    decreases d - k
  {
    if k < d {
      assert !IsDecisive(PollText(polls, k));
      SubmitFromDecided(polls, k + 1, d);
    }
  }

  lemma {:induction false} SubmitFromUndecided(polls: seq<string>, k: nat)
    requires k <= 25
    requires forall j :: k <= j < 25 ==> !IsDecisive(PollText(polls, j))
    ensures SubmitFrom(polls, k) == (false, 25)
    decreases 25 - k
  {
    if k < 25 {
      SubmitFromUndecided(polls, k + 1);
    }
  }

  /** The verdict is the first decisive poll among the first 25, where the success phrase
      is tested before the failure phrases; with no decisive poll the wait gives up with
      `false` after 25 sleeps. */
  lemma SubmitResultSpec(polls: seq<string>)
    ensures forall d: nat :: FirstDecisiveAt(polls, d) ==>
      SubmitResult(polls) == (IsSuccessText(PollText(polls, d)), d)
    ensures (forall j :: 0 <= j < 25 ==> !IsDecisive(PollText(polls, j))) ==>
      SubmitResult(polls) == (false, 25)
  {
    forall d: nat | FirstDecisiveAt(polls, d)
      ensures SubmitResult(polls) == (IsSuccessText(PollText(polls, d)), d)
    {
      SubmitFromDecided(polls, 0, d);
    }
    if forall j :: 0 <= j < 25 ==> !IsDecisive(PollText(polls, j)) {
      SubmitFromUndecided(polls, 0);
    }
  }

  /** A poll that shows the success phrase next to a failure word still counts as a
      success, provided no earlier poll was decisive. */
  lemma SuccessWinsOverFailureWords(polls: seq<string>, d: nat)
    requires FirstDecisiveAt(polls, d) && IsSuccessText(PollText(polls, d))
    requires IsFailureText(PollText(polls, d))
    ensures SubmitResult(polls).0
  {
    SubmitResultSpec(polls);
  }

  /** `isWaitingForLogin`: the page shows one of the wallet prompts or a `Log In` label. */
  predicate IsWaitingForLogin(body: string) {
    Contains(body, "Please connect your wallet") ||
    Contains(body, "Connecting to wallet") ||
    Contains(body, "Connect wallet") ||
    Contains(body, "Connect Wallet") ||
    Contains(body, "Log In")
  }

  /** The narrower test inside `waitForLogin`. */
  predicate StillWaitingForLogin(body: string) {
    Contains(body, "Please connect your wallet") || Contains(body, "Connecting to wallet")
  }

  /** The test inside the wait is narrower than `isWaitingForLogin`: a page the wait still
      treats as waiting is one the initial check treats as waiting too. */
  lemma StillWaitingIsWaiting(body: string)
    ensures StillWaitingForLogin(body) ==> IsWaitingForLogin(body)
  {
  }

  /** What one poll of `waitForLogin` reads: the body text and the `h1`/`h2` texts. */
  datatype LoginPoll = LoginPoll(body: string, headings: seq<string>)

  function LoginPollAt(polls: seq<LoginPoll>, k: nat): LoginPoll {
    if k < |polls| then polls[k] else LoginPoll("", [])
  }

  /** The poll that ends the wait: neither prompt of `StillWaitingForLogin`, and either a
      known application heading in the text or a puzzle identifier on the page. */
  predicate IsLoggedIn(p: LoginPoll) {
    !StillWaitingForLogin(p.body) &&
    (Contains(p.body, "Choose Your Challenge") || Contains(p.body, "Conway's Game of Life") ||
     Truthy(GetPuzzleId(p.headings)))
  }

  /** A poll whose text says "Please connect your wallet" or "Connecting to wallet" never
      ends the wait; the other login phrases do not block it. One without those two ends
      the wait when it shows the challenge list, the application's title or a puzzle
      identifier, and only then. */
  lemma IsLoggedInCases(p: LoginPoll)
    ensures StillWaitingForLogin(p.body) ==> !IsLoggedIn(p)
    ensures !StillWaitingForLogin(p.body) && Truthy(GetPuzzleId(p.headings)) ==> IsLoggedIn(p)
    ensures !StillWaitingForLogin(p.body) && Contains(p.body, "Choose Your Challenge") ==> IsLoggedIn(p)
    ensures !StillWaitingForLogin(p.body) && Contains(p.body, "Conway's Game of Life") ==> IsLoggedIn(p)
    ensures IsLoggedIn(p) ==>
      !StillWaitingForLogin(p.body) &&
      (Contains(p.body, "Choose Your Challenge") || Contains(p.body, "Conway's Game of Life") ||
       Truthy(GetPuzzleId(p.headings)))
  {
  }

  const LoginMaxWait: nat := 300000
  const LoginInterval: nat := 1000

  const StoppedWhileWaiting: string := "Solver stopped while waiting for login"
  const LoginTimeout: string := "Login timeout - user did not connect wallet"

  /** `waitForLogin` from poll `k` on with the flag `f`: how it ends, and the flag after
      the sleeps it has gone through. */
  function LoginFrom(polls: seq<LoginPoll>, k: nat, f: Flag): (r: (Outcome, Flag))
    ensures r.0.Thrown? ==> r.0 == Thrown(StoppedWhileWaiting) || r.0 == Thrown(LoginTimeout)
    ensures r.0 == Thrown(StoppedWhileWaiting) <==> !r.1.running
    decreases LoginMaxWait - k * LoginInterval
  {
    if k * LoginInterval >= LoginMaxWait || !f.running then
      (if !f.running then Thrown(StoppedWhileWaiting) else Thrown(LoginTimeout), f)
    else if IsLoggedIn(LoginPollAt(polls, k)) then (Done, f)
    else LoginFrom(polls, k + 1, Sleep(f))
  }

  function WaitForLogin(polls: seq<LoginPoll>, f: Flag): (r: (Outcome, Flag))
    ensures r.0.Thrown? ==> r.0 == Thrown(StoppedWhileWaiting) || r.0 == Thrown(LoginTimeout)
    ensures r.0 == Thrown(StoppedWhileWaiting) <==> !r.1.running
  {
    LoginFrom(polls, 0, f)
  }

  /** Poll `k` is the first successful one, and the flag is still set when it is read. */
  ghost predicate LoggedInAt(polls: seq<LoginPoll>, f: Flag, k: nat) {
    k < 300 && Sleeps(f, k).running && IsLoggedIn(LoginPollAt(polls, k)) &&
    forall j :: 0 <= j < k ==> !IsLoggedIn(LoginPollAt(polls, j))
  }

  /** A flag still set after `k` sleeps was set after every fewer number of sleeps. */
  lemma RunningEarlier(f: Flag, j: nat, k: nat)
    requires j <= k && Sleeps(f, k).running
    ensures Sleeps(f, j).running
  {
    SleepsClosed(f, j);
    SleepsClosed(f, k);
  }

  /** One unsuccessful poll with the flag set and time left: the loop sleeps and polls
      again. */
  lemma LoginFromStep(polls: seq<LoginPoll>, k: nat, f: Flag)
    requires k < 300 && f.running && !IsLoggedIn(LoginPollAt(polls, k))
    ensures LoginFrom(polls, k, f) == LoginFrom(polls, k + 1, Sleep(f))
  {
  }

  lemma {:induction false} LoginFromAt(polls: seq<LoginPoll>, f0: Flag, k: nat, d: nat)
    requires k <= d && LoggedInAt(polls, f0, d)
    ensures LoginFrom(polls, k, Sleeps(f0, k)) == (Done, Sleeps(f0, d))
    decreases d - k
  {
    if k < d {
      RunningEarlier(f0, k, d);
      assert !IsLoggedIn(LoginPollAt(polls, k));
      LoginFromStep(polls, k, Sleeps(f0, k));
      SleepsSucc(f0, k);
      LoginFromAt(polls, f0, k + 1, d);
    }
  }

  lemma {:induction false} LoginFromNone(polls: seq<LoginPoll>, f0: Flag, k: nat)
    requires k <= 300
    requires forall d: nat :: k <= d ==> !LoggedInAt(polls, f0, d)
    requires forall j :: 0 <= j < k ==> !IsLoggedIn(LoginPollAt(polls, j))
    ensures LoginFrom(polls, k, Sleeps(f0, k)).0.Thrown?
    decreases 300 - k
  {
    if k < 300 && Sleeps(f0, k).running {
      assert !LoggedInAt(polls, f0, k);
      SleepsSucc(f0, k);
      LoginFromNone(polls, f0, k + 1);
    }
  }

  /** `waitForLogin` returns exactly when some poll among the first 300 shows the
      application while the flag is still set, and it returns at the first such poll;
      otherwise it throws. */
  lemma WaitForLoginSpec(polls: seq<LoginPoll>, f: Flag)
    ensures forall d: nat :: LoggedInAt(polls, f, d) ==> WaitForLogin(polls, f) == (Done, Sleeps(f, d))
    ensures (forall d: nat :: !LoggedInAt(polls, f, d)) ==> WaitForLogin(polls, f).0.Thrown?
  {
    forall d: nat | LoggedInAt(polls, f, d)
      ensures WaitForLogin(polls, f) == (Done, Sleeps(f, d))
    {
      LoginFromAt(polls, f, 0, d);
    }
    if forall d: nat :: !LoggedInAt(polls, f, d) {
      LoginFromNone(polls, f, 0);
    }
  }

  /** A wait that starts with the flag cleared throws the "stopped" error at once. */
  lemma LoginStoppedAtStart(polls: seq<LoginPoll>, f: Flag)
    requires !f.running
    ensures WaitForLogin(polls, f) == (Thrown(StoppedWhileWaiting), f)
  {
  }

  /** With no stop pending and no poll ever showing the application, the wait times out
      after its 300 sleeps of one second. */
  lemma {:induction false} LoginTimesOut(polls: seq<LoginPoll>, f: Flag, k: nat)
    requires f.running && f.stopIn.None? && k <= 300
    requires forall j :: k <= j < 300 ==> !IsLoggedIn(LoginPollAt(polls, j))
    ensures LoginFrom(polls, k, f) == (Thrown(LoginTimeout), f)
    decreases 300 - k
  {
    if k < 300 {
      LoginTimesOut(polls, f, k + 1);
    }
  }
}
