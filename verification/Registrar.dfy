/** The registrar's reconnecting worker and how long it waits between attempts. */
module Registrar {

  const DEFAULT_WAIT_TIME: nat := 100
  const MAX_WAIT_TIME: nat := 10000

  /** What happens around one attempt to connect: whether the connection opens, and whether the
      registrar is stopped before the wait or during it. */
  datatype Attempt = Attempt(opens: bool, stopsInRun: bool, stopsInWait: bool)

  function Pow2(n: nat): nat {
    if n == 0 then 1 else 2 * Pow2(n - 1)
  }

  /** The wait after n attempts that did not open a connection. */
  function Backoff(n: nat): nat {
    if DEFAULT_WAIT_TIME * Pow2(n) < MAX_WAIT_TIME then DEFAULT_WAIT_TIME * Pow2(n) else MAX_WAIT_TIME
  }

  /** How many waits before attempt i have passed since the worker started or a connection last
      opened, an opening in attempt i itself included. */
  function SinceOpen(attempts: seq<Attempt>, i: nat): nat
    requires i < |attempts|
  {
    if attempts[i].opens || i == 0 then 0 else 1 + SinceOpen(attempts, i - 1)
  }

  function NextWait(wait: nat): nat {
    if wait < MAX_WAIT_TIME / 2 then wait * 2 else MAX_WAIT_TIME
  }

  lemma {:induction false} Pow2Grows(m: nat, n: nat)
    requires m <= n
    ensures 0 < Pow2(m) <= Pow2(n)
  {
    if m < n {
      Pow2Grows(m, n - 1);
    } else if m > 0 {
      Pow2Grows(m - 1, m - 1);
    }
  }

  /** The doubling loop follows the closed form through the cap. */
  lemma NextWaitIsBackoff(n: nat)
    ensures NextWait(Backoff(n)) == Backoff(n + 1)
  {
    if n >= 7 {
      Pow2Grows(7, n);
      Pow2Grows(7, n + 1);
    } else if n == 6 {
    } else if n == 5 {
    }
  }

  lemma BackoffStarts()
    ensures Backoff(0) == DEFAULT_WAIT_TIME == 100 && MAX_WAIT_TIME == 10000
    ensures Backoff(1) == 200 && Backoff(6) == 6400 && Backoff(7) == 10000
  {
    assert Pow2(3) == 8 && Pow2(5) == 32 && Pow2(6) == 64 && Pow2(7) == 128;
  }

  /** Waits never shrink between openings and stay between the two bounds. */
  lemma BackoffMonotoneAndBounded(m: nat, n: nat)
    requires m <= n
    ensures DEFAULT_WAIT_TIME <= Backoff(m) <= Backoff(n) <= MAX_WAIT_TIME
  {
    Pow2Grows(m, n);
    Pow2Grows(0, m);
  }

  /** The first attempt during which the registrar is stopped. */
  function StopAt(attempts: seq<Attempt>): nat
    ensures StopAt(attempts) <= |attempts|
  {
    if attempts == [] then 0
    else if attempts[0].stopsInRun || attempts[0].stopsInWait then 0
    else 1 + StopAt(attempts[1..])
  }

  lemma {:induction false} StopAtIsFirst(attempts: seq<Attempt>, i: nat)
    requires i < |attempts|
    requires forall j :: 0 <= j < i ==> !attempts[j].stopsInRun && !attempts[j].stopsInWait
    ensures i <= StopAt(attempts)
    ensures attempts[i].stopsInRun || attempts[i].stopsInWait ==> StopAt(attempts) == i
  {
    if i == 0 {
    } else {
      StopAtIsFirst(attempts[1..], i - 1);
    }
  }

  /** The wait before attempt i: from the start again after an opening, and doubled otherwise. */
  lemma WaitAt(attempts: seq<Attempt>, i: nat)
    requires i < |attempts|
    ensures Backoff(SinceOpen(attempts, i)) ==
            if attempts[i].opens || i == 0 then DEFAULT_WAIT_TIME
            else NextWait(Backoff(SinceOpen(attempts, i - 1)))
  {
    hide Backoff, NextWait;
    BackoffStarts();
    if !attempts[i].opens && i > 0 { NextWaitIsBackoff(SinceOpen(attempts, i - 1)); }
  }

  class WebSocketRegistrar {
    var waitTime: nat
    var finished: bool

    constructor ()
      ensures waitTime == DEFAULT_WAIT_TIME && !finished
    {
      waitTime, finished := DEFAULT_WAIT_TIME, false;
    }

    method ConnectionOpen()
      modifies this`waitTime
      ensures waitTime == DEFAULT_WAIT_TIME
    {
      waitTime := DEFAULT_WAIT_TIME;
    }

    method Stop()
      modifies this`finished
      ensures finished
    {
      finished := true;
    }

    /** Runs through the given attempts, or until it is stopped; `waits` are the times waited.
        Each wait is the backoff since the last opening. Once stopped, no attempt is begun, and
        a wait is finished only if the stop came during it. */
    method ConnectRegistrar(attempts: seq<Attempt>) returns (waits: seq<nat>, begun: nat)
      requires waitTime == DEFAULT_WAIT_TIME && !finished
      modifies this
      ensures begun == if StopAt(attempts) < |attempts| then StopAt(attempts) + 1 else |attempts|
      ensures |waits| == if begun > 0 && attempts[begun - 1].stopsInRun then begun - 1 else begun
      ensures forall i :: 0 <= i < |waits| ==> waits[i] == Backoff(SinceOpen(attempts, i))
      ensures finished <==> StopAt(attempts) < |attempts|
    {
      hide Backoff, Pow2, StopAt, SinceOpen;
      waits := [];
      begun := 0;
      while !finished && begun < |attempts|
        invariant begun <= |attempts| && |waits| == begun
        invariant forall i :: 0 <= i < begun ==> waits[i] == Backoff(SinceOpen(attempts, i))
        invariant waitTime == if begun == 0 then DEFAULT_WAIT_TIME else NextWait(waits[begun - 1])
        invariant forall i :: 0 <= i < begun ==> !attempts[i].stopsInRun
        invariant forall i :: 0 <= i < begun - 1 ==> !attempts[i].stopsInWait
        invariant finished <==> begun > 0 && attempts[begun - 1].stopsInWait
        decreases |attempts| - begun
      {
        var attempt := attempts[begun];
        StopAtIsFirst(attempts, begun);
        WaitAt(attempts, begun);
        begun := begun + 1;
        if attempt.opens { ConnectionOpen(); }
        if attempt.stopsInRun { Stop(); }
        if finished { break; }
        waits := waits + [waitTime];
        if attempt.stopsInWait { Stop(); }
        if waitTime < MAX_WAIT_TIME / 2 {
          waitTime := waitTime * 2;
        } else {
          waitTime := MAX_WAIT_TIME;
        }
      }
      if begun == |attempts| && !finished { NeverStopped(attempts); }
      if begun > 0 { StopAtIsFirst(attempts, begun - 1); }
    }
  }

  lemma {:induction false} NeverStopped(attempts: seq<Attempt>)
    requires forall j :: 0 <= j < |attempts| ==> !attempts[j].stopsInRun && !attempts[j].stopsInWait
    ensures StopAt(attempts) == |attempts|
  {
    if attempts == [] {
    } else {
      NeverStopped(attempts[1..]);
    }
  }
}
