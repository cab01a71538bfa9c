/** The `isRunning` flag seen from inside one of the solver's async loops. The flag is
    cleared by the `STOP_SOLVER` message handler, and a handler can only run while the
    loop is suspended in `await sleep(…)`. The model therefore carries the arrival of the
    stop message as an oracle: `stopIn == Some(n)` means that it arrives during the
    sleep that comes after `n` further sleeps have ended. */
module RunState {
  import opened Wrappers

  datatype Flag = Flag(running: bool, stopIn: Option<nat>)

  /** One `await sleep(…)`: the flag after the sleep, with the pending stop handled if it
      arrives during this sleep. */
  function Sleep(f: Flag): (g: Flag)
    ensures f.stopIn == Some(0) ==> g == Flag(false, None)
    ensures f.stopIn.None? ==> g == f
    ensures f.stopIn.Some? && f.stopIn.value > 0 ==> g == Flag(f.running, Some(f.stopIn.value - 1))
  {
    match f.stopIn
    case None => f
    case Some(n) => if n == 0 then Flag(false, None) else Flag(f.running, Some(n - 1))
  }

  /** The flag after `n` sleeps in a row. */
  function Sleeps(f: Flag, n: nat): Flag
    decreases n
  {
    if n == 0 then f else Sleeps(Sleep(f), n - 1)
  }

  /** The closed form of `n` sleeps: the stop has arrived exactly when it was due within
      them. */
  lemma {:induction false} SleepsClosed(f: Flag, n: nat)
    ensures f.stopIn.Some? && f.stopIn.value < n ==> Sleeps(f, n) == Flag(false, None)
    ensures f.stopIn.Some? && f.stopIn.value >= n ==>
      Sleeps(f, n) == Flag(f.running, Some(f.stopIn.value - n))
    ensures f.stopIn.None? ==> Sleeps(f, n) == f
    decreases n
  {
    if n > 0 {
      SleepsClosed(Sleep(f), n - 1);
    }
  }

  /** Sleeping `a` times and then `b` times is sleeping `a + b` times. */
  lemma {:induction false} SleepsAdd(f: Flag, a: nat, b: nat)
    ensures Sleeps(Sleeps(f, a), b) == Sleeps(f, a + b)
    decreases a
  {
    if a > 0 {
      SleepsAdd(Sleep(f), a - 1, b);
    }
  }

  lemma {:induction false} SleepsSucc(f: Flag, n: nat)
    ensures Sleeps(f, n + 1) == Sleep(Sleeps(f, n))
    decreases n
  {
    if n > 0 {
      SleepsSucc(Sleep(f), n - 1);
    }
  }

  /** Nothing inside a loop sets the flag again: once cleared it stays cleared. */
  lemma StoppedStaysStopped(f: Flag, n: nat)
    requires !f.running
    ensures !Sleeps(f, n).running
  {
    SleepsClosed(f, n);
  }

  /** Without a pending stop, sleeping leaves the flag as it is. */
  lemma NoStopNoChange(f: Flag, n: nat)
    requires f.stopIn.None?
    ensures Sleeps(f, n) == f
  {
    SleepsClosed(f, n);
  }
}
