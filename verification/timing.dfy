/** Frame counting in the game loop: the lock delay that lets a piece that
    has come to rest be adjusted before it locks, and the acceleration that
    doubles the step of a held sideways key every tenth round of input
    handling.
 */
module Timing {

  const LockDelayDuration := 10
  const AccelerationInterval := 10

  /** The loop's lock-delay state: frames the piece has failed to fall, and
      whether the one extra round of input handling is still available. */
  datatype LockDelay = LockDelay(counter: nat, allowAdjustment: bool)

  const Idle := LockDelay(0, true)

  predicate Bounded(d: LockDelay)
  {
    d.counter <= LockDelayDuration
  }

  /** What the loop does with the piece this frame: it fell one row; it
      could not fall and waits (with one extra round of input handling when
      `adjust`); or it locks. */
  datatype Action = Fall | Wait(adjust: bool) | Lock

  datatype Decision = Decision(next: LockDelay, action: Action)

  /** The loop's reaction to whether the piece fell this frame. A fall
      leaves the delay state alone, so frames waited earlier still count
      against the piece after it falls further. */
  function Schedule(d: LockDelay, fell: bool): (r: Decision)
    ensures r.action == Fall <==> fell
    ensures r.action == Lock <==> !fell && d.counter >= LockDelayDuration
    ensures r.action.Wait? ==>
      r.action.adjust == d.allowAdjustment && r.next == LockDelay(d.counter + 1, false)
    ensures r.action == Lock ==> r.next == Idle
    ensures fell ==> r.next == d
    ensures Bounded(d) ==> Bounded(r.next)
  {
    if fell then Decision(d, Fall)
    else if d.counter < LockDelayDuration then
      Decision(LockDelay(d.counter + 1, false), Wait(d.allowAdjustment))
    else
      Decision(Idle, Lock)
  }

  /** The actions of consecutive frames, given whether the piece fell in
      each. */
  function Actions(d: LockDelay, falls: seq<bool>): (acts: seq<Action>)
    ensures |acts| == |falls|
    decreases |falls|
  {
    if falls == [] then []
    else
      var r := Schedule(d, falls[0]);
      [r.action] + Actions(r.next, falls[1..])
  }

  /** The delay state after those frames. */
  function After(d: LockDelay, falls: seq<bool>): LockDelay
    decreases |falls|
  {
    if falls == [] then d else After(Schedule(d, falls[0]).next, falls[1..])
  }

  function Stalls(n: nat): (s: seq<bool>)
    ensures |s| == n && forall i :: 0 <= i < n ==> !s[i]
  {
    seq(n, _ => false)
  }

  function Adjustments(acts: seq<Action>): nat
  {
    if acts == [] then 0
    else (if acts[0] == Wait(true) then 1 else 0) + Adjustments(acts[1..])
  }

  /** A piece that cannot fall waits out the rest of the delay and then
      locks: from a bounded state, the frames up to the duration are all
      waits and the next one locks. */
  lemma {:induction false} StalledPieceLocks(d: LockDelay)
    requires Bounded(d)
    ensures var n := LockDelayDuration - d.counter;
      var acts := Actions(d, Stalls(n + 1));
      && (forall i :: 0 <= i < n ==> acts[i].Wait?)
      && acts[n] == Lock
      && After(d, Stalls(n + 1)) == Idle
    decreases LockDelayDuration - d.counter
  {
    var n := LockDelayDuration - d.counter;
    var acts := Actions(d, Stalls(n + 1));
    var r := Schedule(d, false);
    assert Stalls(n + 1)[1..] == Stalls(n);
    if n > 0 {
      StalledPieceLocks(r.next);
      assert acts == [r.action] + Actions(r.next, Stalls(n));
    }
  }

  /** Between two locks the extra round of input handling happens at most
      once, and not at all once it has been used. */
  lemma {:induction false} AtMostOneAdjustment(d: LockDelay, falls: seq<bool>)
    requires Lock !in Actions(d, falls)
    ensures Adjustments(Actions(d, falls)) <= if d.allowAdjustment then 1 else 0
    decreases |falls|
  {
    if falls != [] {
      var r := Schedule(d, falls[0]);
      var acts := Actions(d, falls);
      assert acts == [r.action] + Actions(r.next, falls[1..]);
      assert acts[1..] == Actions(r.next, falls[1..]);
      AtMostOneAdjustment(r.next, falls[1..]);
    }
  }

  /** The number of sideways steps a held key attempts in a round of input
      handling, given the acceleration counter after the round's increment:
      two on every tenth round, one otherwise. */
  function Attempts(counter: int): nat
  {
    if counter % AccelerationInterval == 0 then 2 else 1
  }

  /** The steps attempted over n rounds of holding a key, starting from
      acceleration counter c. */
  function HeldAttempts(c: nat, n: nat): nat
    decreases n
  {
    if n == 0 then 0 else Attempts(c + 1) + HeldAttempts(c + 1, n - 1)
  }

  /** Holding a key for n rounds attempts n steps plus one for every
      multiple of the interval the counter passes. */
  lemma {:induction false} HeldAttemptsClosedForm(c: nat, n: nat)
    ensures HeldAttempts(c, n) == n + (c + n) / AccelerationInterval - c / AccelerationInterval
    decreases n
  {
    if n > 0 {
      HeldAttemptsClosedForm(c + 1, n - 1);
      assert (c + 1) / AccelerationInterval - c / AccelerationInterval
        == if (c + 1) % AccelerationInterval == 0 then 1 else 0;
    }
  }
}
