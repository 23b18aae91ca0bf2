/** The core timer of clock.c: the compare register and the millisecond count, advanced by
    a catch-up loop over 32-bit registers that wrap. */
module Clock {
  import opened Basics

  const TICKS_PER_MS: nat := 100_000

  /** An unsigned 32-bit value read as a signed one. */
  function Signed32(x: nat): int
    requires x < WORD
  {
    if x < HALF then x else x - WORD
  }

  /** `diff` of the handler: compare minus count in 32-bit arithmetic. */
  function Diff(compare: nat, count: nat): int
    requires compare < WORD && count < WORD
  {
    Signed32((compare - count) % WORD)
  }

  /** The wrapped difference of two counters is their true difference when that is below 2^31. */
  lemma DiffIsTrue(deadline: nat, now: nat)
    requires -HALF <= deadline - now < HALF
    ensures Diff(deadline % WORD, now % WORD) == deadline - now
  {
    var x := deadline % WORD - now % WORD;
    assert x == (deadline - now) + WORD * (now / WORD - deadline / WORD);
    assert x % WORD == (deadline - now) % WORD;
  }

  /** An interrupt past its deadline is taken as one exactly when its lateness, modulo the
      wrap of the counter, is at most 2^31 ticks. */
  lemma TakenIff(deadline: nat, now: nat)
    requires deadline <= now
    ensures Diff(deadline % WORD, now % WORD) <= 0 <==> (now - deadline) % WORD <= HALF
  {
    DiffLate(deadline, now);
  }

  /** When millisecond `ms` + 1 ends, in ticks. */
  function Deadline(ms: nat): nat { (ms + 1) * TICKS_PER_MS }

  /** The milliseconds begun after `t` ticks. */
  function Elapsed(t: nat): nat { (t + TICKS_PER_MS - 1) / TICKS_PER_MS }

  /** The time the handler takes a passed deadline to be seen at: whole wraps of the counter since
      the deadline do not show. */
  function Seen(ms: nat, t: nat): (u: nat)
    requires Deadline(ms) <= t
    ensures u <= t
  {
    Deadline(ms) + (t - Deadline(ms)) % WORD
  }

  /** The count after an interrupt past its deadline. */
  function AfterIrq(ms: nat, t: nat): nat
    requires Deadline(ms) <= t
  {
    if (t - Deadline(ms)) % WORD <= HALF then Elapsed(Seen(ms, t)) else ms
  }

  lemma ElapsedIs(t: nat, n: nat)
    requires (n - 1) * TICKS_PER_MS < t <= n * TICKS_PER_MS
    ensures Elapsed(t) == n
  {
  }

  lemma SeenSame(ms: nat, t: nat)
    requires Deadline(ms) <= t
    ensures Seen(ms, t) % WORD == t % WORD
  {
    var d := t - Deadline(ms);
    assert t == Seen(ms, t) + WORD * (d / WORD);
  }

  /** The 32-bit difference for a passed deadline. */
  lemma DiffLate(deadline: nat, now: nat)
    requires deadline <= now
    ensures var e := (now - deadline) % WORD; Diff(deadline % WORD, now % WORD) == if e <= HALF then 0 - e else WORD - e
  {
    var d := now - deadline;
    var e, x := d % WORD, deadline % WORD - now % WORD;
    assert x == WORD * (now / WORD - deadline / WORD - d / WORD) - e;
    if e == 0 { assert x % WORD == 0; } else { assert x % WORD == WORD - e; }
  }

  /** The count after the interrupt is right exactly up to a lateness of 2^31 ticks. */
  lemma RightIff(ms: nat, t: nat)
    requires Deadline(ms) <= t
    ensures AfterIrq(ms, t) == Elapsed(t) <==> t - Deadline(ms) <= HALF
    ensures var e := (t - Deadline(ms)) % WORD;
            Diff(Deadline(ms) % WORD, t % WORD) == if e <= HALF then 0 - e else WORD - e
  {
    var d := t - Deadline(ms);
    DiffLate(Deadline(ms), t);
    if d < WORD {
      assert d % WORD == d;
      if d > HALF { ElapsedGrows(Deadline(ms), t); ElapsedIs(Deadline(ms), ms + 1); }
    } else if d % WORD <= HALF {
      ElapsedGrows(Seen(ms, t) + TICKS_PER_MS, t);
      ElapsedStep(Seen(ms, t));
    } else {
      ElapsedGrows(Deadline(ms), t);
      ElapsedIs(Deadline(ms), ms + 1);
    }
  }

  lemma ElapsedGrows(t: nat, u: nat)
    requires t <= u
    ensures Elapsed(t) <= Elapsed(u)
  {
  }

  lemma ElapsedStep(t: nat)
    ensures Elapsed(t + TICKS_PER_MS) == Elapsed(t) + 1
  {
  }

  class Timer {
    var compare: nat
    var ms: nat
    ghost var now: nat

    /** The next deadline is the end of the millisecond counted so far, and the count is
        never a whole millisecond ahead. `now` counts ticks without wrapping. */
    ghost predicate Valid()
      reads this
    {
      compare == Deadline(ms) % WORD && (ms > 0 ==> (ms - 1) * TICKS_PER_MS < now)
    }

    /** clock_init */
    constructor ()
      ensures Valid() && ms == 0 && now == 0
    {
      compare := TICKS_PER_MS;
      ms := 0;
      now := 0;
    }

    /** The handler of hardware interrupt 7, entered when `t` ticks have elapsed. An interrupt before
        its deadline changes nothing. After the deadline the count is right on exit exactly when the
        interrupt is at most 2^31 ticks late; otherwise it is not taken, or whole wraps of the
        counter are lost. */
    method Irq7(count: nat, ghost t: nat)
      requires Valid() && now <= t && count == t % WORD
      modifies this
      ensures Valid() && now == t
      ensures t < Deadline(old(ms)) ==> ms == old(ms)
      ensures Deadline(old(ms)) <= t ==> ms == AfterIrq(old(ms), t)
      ensures Deadline(old(ms)) <= t ==> (ms == Elapsed(t) <==> t - Deadline(old(ms)) <= HALF)
    {
      now := t;
      ghost var d := Deadline(ms);
      if t < d { DiffIsTrue(d, t); } else { RightIff(ms, t); }
      var diff := Diff(compare, count);
      if diff > 0 {
        return;
      }
      CatchUp(count, diff, t);
    }

    /** The catch-up loop of the handler */
    method CatchUp(count: nat, diff0: int, ghost t: nat)
      requires Valid() && now == t && count == t % WORD && Deadline(ms) <= t
      requires diff0 == 0 - (t - Deadline(ms)) % WORD && (t - Deadline(ms)) % WORD <= HALF
      modifies this
      ensures Valid() && now == t && ms == Elapsed(Seen(old(ms), t))
    {
      var diff, next := diff0, compare;
      ghost var u := Seen(ms, t);
      SeenSame(ms, t);
      while diff < TICKS_PER_MS
        invariant next == Deadline(ms) % WORD && diff == Deadline(ms) - u && now == t && ms >= old(ms)
        invariant 0 - HALF <= diff < 2 * TICKS_PER_MS
        decreases TICKS_PER_MS - diff
      {
        WrapAdd(Deadline(ms), TICKS_PER_MS);
        next := (next + TICKS_PER_MS) % WORD;
        ms := ms + 1;
        DiffIsTrue(Deadline(ms), u);
        diff := Diff(next, count);
      }
      compare := next;
      ElapsedIs(u, ms);
    }
  }
}
