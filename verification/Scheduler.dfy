/** The delay test of the LUFA scheduler (LUFA/Scheduler), on a sixteen-bit tick
    counter that wraps. */
module Scheduler {
  import opened Bytes

  const MAX_DELAYCTR_COUNT: word := 0xFFFF
  const TASK_MAX_DELAY: word := MAX_DELAYCTR_COUNT - 1

  /** The comparison of Scheduler_HasDelayElapsed. */
  predicate Elapsed(tick: word, start: word, delay: word) {
    if tick >= start then tick - start >= delay
    else (MAX_DELAYCTR_COUNT - start) + tick >= delay
  }

  class Timer {
    var tickCounter: word
    var delayCounter: word

    constructor ()
      ensures tickCounter == 0 && delayCounter == 0
    {
      tickCounter, delayCounter := 0, 0;
    }

    method Tick()
      modifies this`tickCounter
      ensures tickCounter == Add16(old(tickCounter), 1)
    {
      tickCounter := if tickCounter == 0xFFFF then 0 else tickCounter + 1;
    }

    method ResetDelay()
      modifies this`delayCounter
      ensures delayCounter == tickCounter
    {
      delayCounter := tickCounter;
    }

    method HasDelayElapsed(delay: word) returns (elapsed: bool)
      modifies this`delayCounter
      ensures elapsed == Elapsed(tickCounter, old(delayCounter), delay)
      ensures delayCounter == if elapsed then tickCounter else old(delayCounter)
      ensures elapsed ==> Sub16(tickCounter, old(delayCounter)) >= delay
    {
      var current, start := tickCounter, delayCounter;
      if current >= start {
        if current - start >= delay {
          delayCounter := current;
          return true;
        }
      } else {
        if (MAX_DELAYCTR_COUNT - start) + current >= delay {
          delayCounter := current;
          return true;
        }
      }
      return false;
    }

    /** A task that resets its delay, polls on every tick and runs when the delay has
        elapsed: the ticks between are the delay, or one more when the counter has
        wrapped in between. */
    method PollUntilElapsed(delay: word) returns (ticks: nat)
      requires delay <= TASK_MAX_DELAY
      modifies this
      ensures ticks == FiresAfter(old(tickCounter), delay) && delay <= ticks <= delay + 1
      ensures tickCounter == delayCounter == Add16(old(tickCounter), ticks)
    {
      ResetDelay();
      ticks := 0;
      FiresExactly(tickCounter, delay);
      var elapsed := HasDelayElapsed(delay);
      while !elapsed
        invariant elapsed ==> delayCounter == tickCounter
        invariant !elapsed ==> delayCounter == old(tickCounter)
        invariant ticks <= FiresAfter(old(tickCounter), delay) && tickCounter == Add16(old(tickCounter), ticks)
        invariant elapsed <==> ticks == FiresAfter(old(tickCounter), delay)
        decreases FiresAfter(old(tickCounter), delay) - ticks
      {
        Tick();
        ticks := ticks + 1;
        elapsed := HasDelayElapsed(delay);
      }
    }
  }

  /** How many ticks after its start a delay is first seen to have elapsed. */
  function FiresAfter(start: word, delay: word): nat {
    if start + delay < 0x1_0000 then delay else delay + 1
  }

  /** A delay is never reported early, and reported exactly from its firing point on. */
  lemma ElapsedExact(start: word, delay: word, ticks: word)
    ensures Elapsed(Add16(start, ticks), start, delay)
       <==> ticks >= if start + ticks < 0x1_0000 then delay else delay + 1
    ensures Elapsed(Add16(start, ticks), start, delay) ==> ticks >= delay
  {}

  /** For every delay up to TASK_MAX_DELAY and every start there is a firing point
      within one turn of the counter, and it is the first. */
  lemma FiresExactly(start: word, delay: word)
    requires delay <= TASK_MAX_DELAY
    ensures delay <= FiresAfter(start, delay) <= 0xFFFF
    ensures forall ticks: word :: ticks <= FiresAfter(start, delay) ==>
              (Elapsed(Add16(start, ticks), start, delay) <==> ticks == FiresAfter(start, delay))
  {
    forall ticks: word | ticks <= FiresAfter(start, delay)
      ensures Elapsed(Add16(start, ticks), start, delay) <==> ticks == FiresAfter(start, delay)
    {
      ElapsedExact(start, delay, ticks);
    }
  }

  /** The documented maximum is tight: a delay fires at some tick for every start
      exactly when it is at most TASK_MAX_DELAY; the one delay above it fires only
      for the start value 0. */
  lemma MaximumDelayIsTight(start: word, delay: word)
    ensures (exists tick: word :: Elapsed(tick, start, delay)) <==> delay <= TASK_MAX_DELAY || start == 0
  {
    if delay <= TASK_MAX_DELAY {
      FiresExactly(start, delay);
      assert Elapsed(Add16(start, FiresAfter(start, delay)), start, delay);
    } else if start == 0 {
      assert Elapsed(0xFFFF, start, delay);
    }
  }
}
