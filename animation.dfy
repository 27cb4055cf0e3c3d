/**
 * `animateWindow` as a discrete state machine. One call creates a closure
 * holding `currentX` and `isDestroyed` and a repeating timer; each firing of
 * the timer is one `Tick`. What the window looks like at that moment (still
 * there and not destroyed, or not) and whether `setPosition` throws are the
 * tick's environment. Positions are exact reals, so `stepSize` is exactly
 * (toX - fromX) / 20.
 */
module Animation {

  const Steps: nat := 20

  /** Which `setPosition` call of a tick throws, if any: the step write or
      the final snap to `toX`. */
  datatype Fault = NoFault | StepWriteFails | SnapWriteFails

  /** What a tick finds: whether `mainWindow` is set and not destroyed, and
      which write (if any) throws. */
  datatype Env = Env(windowUsable: bool, fault: Fault)

  /** The closure state of one animation. */
  datatype Anim = Anim(fromX: int, toX: int, currentX: real, isDestroyed: bool)

  /** `stepSize`: a twentieth of the distance, signed by the direction of travel. */
  function StepSize(fromX: int, toX: int): (step: real)
    ensures step * Steps as real == (toX - fromX) as real
    ensures step > 0.0 <==> fromX < toX
    ensures step < 0.0 <==> fromX > toX
  {
    (toX - fromX) as real / Steps as real
  }

  function Start(fromX: int, toX: int): Anim
  {
    Anim(fromX, toX, fromX as real, false)
  }

  /** The direction-aware termination test: the position is at or past
      `toX` in the direction of travel; a zero step never reaches. */
  predicate Reached(step: real, x: real, toX: int)
    ensures step == 0.0 ==> !Reached(step, x, toX)
    ensures step > 0.0 ==> (Reached(step, x, toX) <==> x >= toX as real)
    ensures step < 0.0 ==> (Reached(step, x, toX) <==> x <= toX as real)
  {
    (step > 0.0 && x >= toX as real) || (step < 0.0 && x <= toX as real)
  }

  /** Math.round: the nearest integer, halves rounded up. */
  function Round(x: real): (n: int)
    ensures n as real <= x + 0.5 < n as real + 1.0
  {
    (x + 0.5).Floor
  }

  lemma RoundMonotone(x: real, y: real)
    requires x <= y
    ensures Round(x) <= Round(y)
  {
  }

  lemma RoundOfInteger(n: int)
    ensures Round(n as real) == n
  {
  }

  /** `Finished(notify)`: the termination test fired and the interval was
      cleared; `notify` says whether `onComplete` is called. */
  datatype Outcome = Running | Finished(notify: bool) | Aborted | Errored

  /** The next closure state, the positions written by `setPosition` during
      the tick, in order, and how the tick ended. */
  datatype TickResult = TickResult(next: Anim, writes: seq<int>, outcome: Outcome)

  /** One firing of the interval callback. */
  function Tick(a: Anim, env: Env): (t: TickResult)
    ensures !env.windowUsable <==> t.outcome.Aborted?
    ensures t.outcome.Aborted? ==> t.writes == [] && t.next.isDestroyed
    ensures t.outcome.Finished? ==> t.outcome.notify == !a.isDestroyed
    ensures env.windowUsable ==> t.next == a.(currentX := a.currentX + StepSize(a.fromX, a.toX))
    ensures t.outcome.Running? <==>
              env.windowUsable && env.fault != StepWriteFails &&
              !Reached(StepSize(a.fromX, a.toX), a.currentX + StepSize(a.fromX, a.toX), a.toX)
    ensures t.outcome.Running? ==> t.writes == [Round(a.currentX + StepSize(a.fromX, a.toX))]
    ensures env.windowUsable && env.fault == StepWriteFails ==> t.outcome == Errored && t.writes == []
    ensures t.outcome == Finished(true) ==>
              t.writes == [Round(a.currentX + StepSize(a.fromX, a.toX)), a.toX]
  {
    if !env.windowUsable then TickResult(a.(isDestroyed := true), [], Aborted)
    else
      var step := StepSize(a.fromX, a.toX);
      var x := a.currentX + step;
      var a' := a.(currentX := x);
      if env.fault == StepWriteFails then TickResult(a', [], Errored)
      else if !Reached(step, x, a.toX) then TickResult(a', [Round(x)], Running)
      // the snap and the callback are both guarded by !isDestroyed
      else if a.isDestroyed then TickResult(a', [Round(x)], Finished(false))
      else if env.fault == SnapWriteFails then TickResult(a', [Round(x)], Errored)
      else TickResult(a', [Round(x), a.toX], Finished(true))
  }

  /** The effect of a sequence of timer firings. Once a tick clears the
      interval, later firings never happen. */
  datatype RunResult = RunResult(last: Anim, writes: seq<int>, completions: nat, cleared: bool, ticks: nat)

  function Run(a: Anim, envs: seq<Env>): RunResult
    decreases |envs|
  {
    if envs == [] then RunResult(a, [], 0, false, 0)
    else
      var t := Tick(a, envs[0]);
      if t.outcome.Running? then
        var r := Run(t.next, envs[1..]);
        r.(writes := t.writes + r.writes, ticks := r.ticks + 1)
      else
        RunResult(t.next, t.writes, if t.outcome == Finished(true) then 1 else 0, true, 1)
  }

  /** `onComplete` runs at most once, whatever the ticks find, and only on
      the tick that clears the interval. */
  lemma {:induction false} OnCompleteAtMostOnce(a: Anim, envs: seq<Env>)
    ensures Run(a, envs).completions <= 1
    ensures Run(a, envs).completions == 1 ==> Run(a, envs).cleared
    ensures Run(a, envs).ticks <= |envs|
    decreases |envs|
  {
    if envs != [] {
      var t := Tick(a, envs[0]);
      if t.outcome.Running? {
        OnCompleteAtMostOnce(t.next, envs[1..]);
      }
    }
  }

  /** Once a run has cleared its interval, later firings change nothing:
      the timer no longer calls the closure. */
  lemma {:induction false} ClearedIgnoresLaterFirings(a: Anim, envs: seq<Env>, more: seq<Env>)
    requires Run(a, envs).cleared
    ensures Run(a, envs + more) == Run(a, envs)
    decreases |envs|
  {
    assert envs != [];
    assert (envs + more)[0] == envs[0];
    var t := Tick(a, envs[0]);
    if t.outcome.Running? {
      assert (envs + more)[1..] == envs[1..] + more;
      ClearedIgnoresLaterFirings(t.next, envs[1..], more);
    }
  }

  // ---------------------------------------------------------------------
  // An undisturbed run

  function LiveEnv(): Env { Env(true, NoFault) }

  function Live(n: nat): (s: seq<Env>)
    ensures |s| == n && forall i | 0 <= i < n :: s[i] == LiveEnv()
  {
    seq(n, i => LiveEnv())
  }

  /** `currentX` after k steps. */
  function Pos(fromX: int, toX: int, k: nat): real
  {
    fromX as real + k as real * StepSize(fromX, toX)
  }

  function At(fromX: int, toX: int, k: nat): Anim
  {
    Anim(fromX, toX, Pos(fromX, toX, k), false)
  }

  /** The positions written by the first k ticks of an undisturbed run. */
  function PathWrites(fromX: int, toX: int, k: nat): (w: seq<int>)
    ensures |w| == k
  {
    if k == 0 then [] else PathWrites(fromX, toX, k - 1) + [Round(Pos(fromX, toX, k))]
  }

  lemma PosStep(fromX: int, toX: int, k: nat)
    ensures Pos(fromX, toX, k) + StepSize(fromX, toX) == Pos(fromX, toX, k + 1)
  {
  }

  /** With distinct endpoints the termination test first fires at step 20,
      where the position is exactly `toX`. */
  lemma ReachedExactlyAtLastStep(fromX: int, toX: int, k: nat)
    requires fromX != toX
    ensures Reached(StepSize(fromX, toX), Pos(fromX, toX, k), toX) <==> k >= Steps
    ensures Pos(fromX, toX, Steps) == toX as real
  {
    var step := StepSize(fromX, toX);
    var d := k as real - Steps as real;
    assert Pos(fromX, toX, k) - toX as real == step * d;
    if step > 0.0 {
      if d >= 0.0 { assert step * d >= 0.0; } else { assert step * d < 0.0; }
    } else {
      if d >= 0.0 { assert step * d <= 0.0; } else { assert step * d > 0.0; }
    }
  }

  lemma {:induction false} PathWritesPrefix(fromX: int, toX: int, k: nat, j: nat)
    requires j < k
    ensures PathWrites(fromX, toX, k)[j] == Round(Pos(fromX, toX, j + 1))
    decreases k
  {
    if j < k - 1 {
      PathWritesPrefix(fromX, toX, k - 1, j);
    }
  }

  /** One undisturbed tick from step k: before step 20 it writes the new
      rounded position and keeps running; at step 20 it also snaps to `toX`
      and finishes with notification. */
  lemma LiveTick(fromX: int, toX: int, k: nat)
    requires fromX != toX && k < Steps
    ensures Tick(At(fromX, toX, k), LiveEnv()) ==
            if k + 1 < Steps then TickResult(At(fromX, toX, k + 1), [Round(Pos(fromX, toX, k + 1))], Running)
            else TickResult(At(fromX, toX, k + 1), [Round(Pos(fromX, toX, k + 1)), toX], Finished(true))
  {
    PosStep(fromX, toX, k);
    ReachedExactlyAtLastStep(fromX, toX, k + 1);
  }

  /** Peeling the first write off a slice of the path. */
  lemma PathWritesSlice(fromX: int, toX: int, k: nat, len: nat)
    requires k < len
    ensures PathWrites(fromX, toX, len)[k..] == [Round(Pos(fromX, toX, k + 1))] + PathWrites(fromX, toX, len)[k + 1..]
  {
    PathWritesPrefix(fromX, toX, len, k);
  }

  /** Running an undisturbed animation from step k for n more ticks that
      stop short of step 20: it is still running and has written the path. */
  lemma {:induction false} LiveRunShort(fromX: int, toX: int, k: nat, n: nat)
    requires fromX != toX && k + n < Steps
    ensures Run(At(fromX, toX, k), Live(n)) ==
            RunResult(At(fromX, toX, k + n), PathWrites(fromX, toX, k + n)[k..], 0, false, n)
    decreases n
  {
    if n == 0 {
      assert Live(0) == [];
    } else {
      LiveTick(fromX, toX, k);
      assert Live(n)[0] == LiveEnv();
      assert Live(n)[1..] == Live(n - 1);
      LiveRunShort(fromX, toX, k + 1, n - 1);
      PathWritesSlice(fromX, toX, k, k + n);
    }
  }

  /** Running an undisturbed animation from step k for n ticks that reach
      step 20: it finishes there, once, with the final write `toX`. */
  lemma {:induction false} LiveRunLong(fromX: int, toX: int, k: nat, n: nat)
    requires fromX != toX && k < Steps <= k + n
    ensures Run(At(fromX, toX, k), Live(n)) ==
            RunResult(At(fromX, toX, Steps), PathWrites(fromX, toX, Steps)[k..] + [toX], 1, true, Steps - k)
    decreases n
  {
    LiveTick(fromX, toX, k);
    assert Live(n)[0] == LiveEnv();
    if k + 1 < Steps {
      assert Live(n)[1..] == Live(n - 1);
      LiveRunLong(fromX, toX, k + 1, n - 1);
      PathWritesSlice(fromX, toX, k, Steps);
    } else {
      assert PathWrites(fromX, toX, k + 1)[k..] == [Round(Pos(fromX, toX, k + 1))];
    }
  }

  /** An undisturbed animation between distinct endpoints clears its
      interval after exactly 20 ticks, calls `onComplete` once, and leaves
      the window exactly at `toX`; fewer ticks leave it running, with
      `onComplete` not yet called. */
  lemma CompletesAfterTwentyTicks(fromX: int, toX: int, n: nat)
    requires fromX != toX
    ensures n < Steps ==>
      Run(Start(fromX, toX), Live(n)) == RunResult(At(fromX, toX, n), PathWrites(fromX, toX, n), 0, false, n)
    ensures n >= Steps ==>
      Run(Start(fromX, toX), Live(n)) ==
      RunResult(At(fromX, toX, Steps), PathWrites(fromX, toX, Steps) + [toX], 1, true, Steps)
    ensures n >= Steps ==> Run(Start(fromX, toX), Live(n)).last.currentX == toX as real
  {
    assert Start(fromX, toX) == At(fromX, toX, 0);
    if n < Steps {
      LiveRunShort(fromX, toX, 0, n);
    } else {
      LiveRunLong(fromX, toX, 0, n);
    }
    assert PathWrites(fromX, toX, n)[0..] == PathWrites(fromX, toX, n);
    assert PathWrites(fromX, toX, Steps)[0..] == PathWrites(fromX, toX, Steps);
    ReachedExactlyAtLastStep(fromX, toX, Steps);
  }

  /** The written positions move monotonically toward `toX` and never pass it. */
  lemma PathIsMonotone(fromX: int, toX: int, i: nat, j: nat)
    requires i <= j <= Steps
    ensures fromX < toX ==> Round(Pos(fromX, toX, i)) <= Round(Pos(fromX, toX, j)) <= toX
    ensures fromX > toX ==> Round(Pos(fromX, toX, i)) >= Round(Pos(fromX, toX, j)) >= toX
  {
    if fromX != toX {
      var pi, pj, step := Pos(fromX, toX, i), Pos(fromX, toX, j), StepSize(fromX, toX);
      ReachedExactlyAtLastStep(fromX, toX, Steps);
      PosDifference(fromX, toX, i, j);
      PosDifference(fromX, toX, j, Steps);
      RoundOfInteger(toX);
      OrderedPositions(pi, pj, toX as real, (j - i) as real, (Steps - j) as real, step);
      if fromX < toX {
        RoundMonotone(pi, pj);
        RoundMonotone(pj, toX as real);
      } else {
        RoundMonotone(pj, pi);
        RoundMonotone(toX as real, pj);
      }
    }
  }

  /** Three positions whose gaps are non-negative multiples of one step are
      ordered in the direction of the step. */
  lemma OrderedPositions(p: real, q: real, z: real, d: real, e: real, step: real)
    requires d >= 0.0 && e >= 0.0 && q - p == d * step && z - q == e * step
    ensures step >= 0.0 ==> p <= q <= z
    ensures step <= 0.0 ==> p >= q >= z
  {
    ScaleSign(d, step);
    ScaleSign(e, step);
  }

  lemma PosDifference(fromX: int, toX: int, i: nat, j: nat)
    requires i <= j
    ensures Pos(fromX, toX, j) - Pos(fromX, toX, i) == (j - i) as real * StepSize(fromX, toX)
  {
  }

  lemma ScaleSign(d: real, step: real)
    requires d >= 0.0
    ensures step >= 0.0 ==> d * step >= 0.0
    ensures step <= 0.0 ==> d * step <= 0.0
  {
  }

  /** With `fromX == toX` the step is 0, the termination test never fires and
      the interval keeps running, writing `fromX` on every tick. */
  lemma {:induction false} EqualEndpointsNeverFinish(x: int, c: real, n: nat)
    requires c == x as real
    ensures Run(Anim(x, x, c, false), Live(n)).completions == 0
    ensures !Run(Anim(x, x, c, false), Live(n)).cleared
    ensures Run(Anim(x, x, c, false), Live(n)).ticks == n
    ensures forall i | 0 <= i < |Run(Anim(x, x, c, false), Live(n)).writes| ::
              Run(Anim(x, x, c, false), Live(n)).writes[i] == x
    decreases n
  {
    if n > 0 {
      assert Live(n)[0] == LiveEnv();
      assert Live(n)[1..] == Live(n - 1);
      RoundOfInteger(x);
      EqualEndpointsNeverFinish(x, c, n - 1);
    } else {
      assert Live(0) == [];
    }
  }

  /** If the window is found gone, or the step write throws, at tick k+1 of
      an animation (k < 20), the interval is cleared there, nothing more is
      written and `onComplete` is never called, whatever would have come after. */
  lemma InterruptedRunNeverCompletes(fromX: int, toX: int, k: nat, e: Env, rest: seq<Env>)
    requires fromX != toX && k < Steps
    requires !e.windowUsable || e.fault == StepWriteFails
    ensures var r := Run(Start(fromX, toX), Live(k) + [e] + rest);
            r.completions == 0 && r.cleared && r.ticks == k + 1 && r.writes == PathWrites(fromX, toX, k)
  {
    InterruptedFrom(fromX, toX, 0, k, e, rest);
    assert Start(fromX, toX) == At(fromX, toX, 0);
    assert PathWrites(fromX, toX, k)[0..] == PathWrites(fromX, toX, k);
  }

  lemma {:induction false} InterruptedFrom(fromX: int, toX: int, j: nat, k: nat, e: Env, rest: seq<Env>)
    requires fromX != toX && j <= k < Steps
    requires !e.windowUsable || e.fault == StepWriteFails
    ensures var r := Run(At(fromX, toX, j), Live(k - j) + [e] + rest);
            r.completions == 0 && r.cleared && r.ticks == k - j + 1 && r.writes == PathWrites(fromX, toX, k)[j..]
    decreases k - j
  {
    var envs := Live(k - j) + [e] + rest;
    if j == k {
      assert envs[0] == e;
      assert PathWrites(fromX, toX, k)[j..] == [];
    } else {
      assert envs[0] == LiveEnv();
      assert envs[1..] == Live(k - (j + 1)) + [e] + rest;
      LiveTick(fromX, toX, j);
      InterruptedFrom(fromX, toX, j + 1, k, e, rest);
      PathWritesSlice(fromX, toX, j, k);
    }
  }
}
