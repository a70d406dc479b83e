/** How many workers `config` uses when the caller does not say (src/WorkerMain.ts:44-47). */
module Threads {
  import opened Common

  /** maxThread: the largest pool the automatic rule ever asks for. */
  const MaxThread: nat := 4

  /** Integer ceiling of a / b; Math.ceil of a non-negative quotient. */
  function CeilDiv(a: nat, b: nat): (q: nat)
    requires b > 0
    ensures a <= q * b < a + b
  {
    var q := (a + b - 1) / b;
    assert a + b - 1 == q * b + (a + b - 1) % b;
    q
  }

  /** Cancelling a positive factor from a strict product inequality. */
  lemma MulCancel(a: nat, b: nat, c: nat)
    requires a * c < b * c
    ensures a < b
  {
  }

  /**
   * The automatic thread count: blocks are shared out so that every worker gets
   * ceil(P / maxThread) of them, and just enough workers are used to cover all P.
   */
  function AutoThreads(p: nat): (t: nat)
    requires p >= 1
    ensures 1 <= t <= MaxThread
    ensures t <= p
    ensures p <= t * CeilDiv(p, MaxThread)
  {
    var perThread := CeilDiv(p, MaxThread);
    var t := CeilDiv(p, perThread);
    assert t * perThread < (MaxThread + 1) * perThread;
    MulCancel(t, MaxThread + 1, perThread);
    assert t * perThread < (p + 1) * perThread;
    MulCancel(t, p + 1, perThread);
    t
  }

  /** The `thread` argument of `config`, or the automatic count when it is absent. */
  function ThreadCount(p: nat, thread: Option<nat>): (t: nat)
    requires p >= 1
    requires thread.Some? ==> 1 <= thread.value <= p
    ensures 1 <= t <= p
    ensures thread.Some? ==> t == thread.value
    ensures thread.None? ==> t <= MaxThread && p <= t * CeilDiv(p, MaxThread)
  {
    if thread.None? then AutoThreads(p) else thread.value
  }
}
