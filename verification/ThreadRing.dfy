/**
 The scheduler as a transition system: the ring of threads seen from the current one, and the steps that
 thread creation, thread exit and the timer make (kernel/scheduler.c, kernel/thread.c).
 */
module ThreadRing {
  /** kernel/process.h:6-9 */
  datatype TaskState = Sleep | Ready | Running | Finished

  /** ring[0] is the current thread and ring[i + 1] the next of ring[i]; dead holds the destroyed threads. */
  datatype Sched<T> = Sched(ring: seq<T>, state: map<T, TaskState>, kernel: T, count: int, dead: set<T>)

  datatype Step<T> = Create(t: T) | Exit | Tick

  /** What one step does. */
  ghost function Apply<T>(s: Sched<T>, e: Step<T>): Sched<T>
    requires s.ring != [] && s.state.Keys == set t | t in s.ring
  {
    var c := s.ring[0];
    match e
    case Create(t) => s.(ring := s.ring + [t], state := s.state[t := Ready], count := s.count + 1, dead := s.dead - {t})
    case Exit => s.(state := s.state[c := Finished])
    case Tick =>
      if |s.ring| == 1 then s
      else if s.state[c] != Finished then
        s.(ring := s.ring[1..] + [c], state := s.state[c := Ready][s.ring[1] := Running])
      else if c == s.kernel then
        // unschedule_thread refuses the kernel thread, but it is destroyed all the same
        s.(ring := s.ring[1..] + [c], state := s.state[s.ring[1] := Running], count := s.count - 1,
           dead := s.dead + {c})
      else
        s.(ring := s.ring[1..], state := (s.state - {c})[s.ring[1] := Running], count := s.count - 1,
           dead := s.dead + {c})
  }

  ghost predicate Distinct<T>(r: seq<T>) { forall i, j :: 0 <= i < j < |r| ==> r[i] != r[j] }

  /** What every reachable state satisfies. */
  ghost predicate Good<T>(s: Sched<T>) {
    && s.ring != [] && Distinct(s.ring) && s.kernel in s.ring && s.count == |s.ring|
    && s.state.Keys == (set t | t in s.ring)
    && (forall t {:trigger t in s.dead} :: t in s.dead ==> t !in s.ring)
    && (forall i {:trigger s.ring[i]} :: 1 <= i < |s.ring| ==> s.state[s.ring[i]] == Ready)
    && s.state[s.ring[0]] != Sleep
  }

  ghost predicate Healthy<T>(s: Sched<T>) { Good(s) && s.state[s.kernel] != Finished }

  /** A new thread is not in the ring, and the kernel thread does not exit. */
  ghost predicate Admissible<T>(s: Sched<T>, e: Step<T>)
    requires s.ring != []
  {
    match e
    case Create(t) => t !in s.ring
    case Exit => s.ring[0] != s.kernel
    case Tick => true
  }

  lemma CreateGood<T>(s: Sched<T>, t: T)
    requires Good(s) && t !in s.ring
    ensures Good(Apply(s, Create(t)))
  {
    var s' := Apply(s, Create(t));
    assert forall x :: x in s'.ring <==> x in s.ring || x == t;
  }

  /** Taking the first thread out, or moving it to the end, keeps the threads distinct. */
  lemma Rotated<T>(r: seq<T>)
    requires Distinct(r) && r != []
    ensures Distinct(r[1..]) && Distinct(r[1..] + [r[0]]) && r[0] !in r[1..]
    ensures forall x :: x in r <==> x in r[1..] || x == r[0]
    ensures forall x :: x in r[1..] + [r[0]] <==> x in r
  {
    assert r == [r[0]] + r[1..];
  }

  lemma TickTurns<T>(s: Sched<T>)
    requires Good(s) && |s.ring| > 1 && s.state[s.ring[0]] != Finished
    ensures Good(Apply(s, Tick))
  {
    Rotated(s.ring);
    var s', r := Apply(s, Tick), s.ring[1..] + [s.ring[0]];
    forall i | 1 <= i < |r| ensures s'.state[r[i]] == Ready {
      assert r[i] == if i + 1 < |r| then s.ring[i + 1] else s.ring[0];
    }
  }

  lemma TickDrops<T>(s: Sched<T>)
    requires Good(s) && |s.ring| > 1 && s.state[s.ring[0]] == Finished && s.ring[0] != s.kernel
    ensures Good(Apply(s, Tick))
  {
    Rotated(s.ring);
    var s', r := Apply(s, Tick), s.ring[1..];
    forall i | 1 <= i < |r| ensures s'.state[r[i]] == Ready { assert r[i] == s.ring[i + 1] && r[i] != r[0]; }
  }

  /** The timer keeps the ring sound exactly when it does not find the kernel thread finished. */
  lemma TickGood<T>(s: Sched<T>)
    requires Good(s)
    ensures Good(Apply(s, Tick)) <==> |s.ring| == 1 || s.ring[0] != s.kernel || s.state[s.kernel] != Finished
  {
    if |s.ring| > 1 {
      var s', c := Apply(s, Tick), s.ring[0];
      if s.state[c] != Finished {
        TickTurns(s);
      } else if c != s.kernel {
        TickDrops(s);
      } else {
        assert c in s'.dead && s'.ring[|s'.ring| - 1] == c;
      }
    }
  }

  /**
   What a tick does in a ring of two or more, thread by thread: the next thread becomes current and RUNNING; the
   one that leaves goes to the end of the ring as READY, or, if it has finished, out of the ring and among the
   destroyed; nobody else changes.
   */
  lemma TickSwitches<T>(s: Sched<T>)
    requires Good(s) && |s.ring| > 1 && (s.state[s.ring[0]] == Finished ==> s.ring[0] != s.kernel)
    ensures var s', c := Apply(s, Tick), s.ring[0];
            && Good(s') && s'.ring[0] == s.ring[1] && s'.state[s.ring[1]] == Running
            && (forall i :: 1 <= i < |s.ring| ==> s'.ring[i - 1] == s.ring[i])
            && (forall i :: 2 <= i < |s.ring| ==> s'.state[s.ring[i]] == s.state[s.ring[i]])
            && (if s.state[c] == Finished then |s'.ring| == |s.ring| - 1 && c !in s'.ring && s'.dead == s.dead + {c}
                else |s'.ring| == |s.ring| && s'.ring[|s.ring| - 1] == c && s'.state[c] == Ready && s'.dead == s.dead)
  {
    TickGood(s);
    Rotated(s.ring);
  }

  /** An exit marks the current thread, and changes nothing else. */
  lemma ExitMarks<T>(s: Sched<T>)
    requires Good(s)
    ensures var s' := Apply(s, Exit);
            && Good(s') && s'.ring == s.ring && s'.dead == s.dead && s'.state[s.ring[0]] == Finished
            && forall i :: 1 <= i < |s.ring| ==> s'.state[s.ring[i]] == s.state[s.ring[i]]
  {
  }

  /** A thread that exits is gone at the next tick, and nobody else is. */
  lemma ExitGoes<T>(s: Sched<T>)
    requires Good(s) && s.ring[0] != s.kernel
    ensures var s' := Apply(Apply(s, Exit), Tick);
            && Good(s') && s'.ring == s.ring[1..] && s'.dead == s.dead + {s.ring[0]} && s.ring[0] !in s'.ring
            && s'.count == s.count - 1 && s'.state[s'.ring[0]] == Running
  {
    assert |s.ring| > 1;
    ExitMarks(s);
    var s1 := Apply(s, Exit);
    TickSwitches(s1);
    var s' := Apply(s1, Tick);
    assert forall i :: 0 <= i < |s'.ring| ==> s'.ring[i] == s.ring[i + 1];
  }

  /** The current thread is running, or has just finished. */
  ghost predicate Lively<T>(s: Sched<T>)
    requires Good(s)
  {
    s.state[s.ring[0]] in {Running, Finished}
  }

  lemma StepLively<T>(s: Sched<T>, e: Step<T>)
    requires Healthy(s) && Admissible(s, e) && (Lively(s) || (e.Tick? && |s.ring| > 1))
    ensures Healthy(Apply(s, e)) && Lively(Apply(s, e))
  {
    StepGood(s, e);
    if e.Tick? && |s.ring| > 1 { TickSwitches(s); }
  }

  lemma StepGood<T>(s: Sched<T>, e: Step<T>)
    requires Healthy(s) && Admissible(s, e)
    ensures Healthy(Apply(s, e))
  {
    match e
    case Create(t) => CreateGood(s, t);
    case Exit =>
    case Tick => TickGood(s);
  }

  // ---------------------------------------------------------------- runs

  ghost predicate Allowed<T>(s: Sched<T>, run: seq<Step<T>>)
    requires Healthy(s)
    decreases |run|
  {
    run == [] || (Admissible(s, run[0]) && (StepGood(s, run[0]); Allowed(Apply(s, run[0]), run[1..])))
  }

  /** The state after a run; like every state on the way, it is healthy. */
  ghost function After<T>(s: Sched<T>, run: seq<Step<T>>): (s': Sched<T>)
    requires Healthy(s) && Allowed(s, run)
    ensures Healthy(s')
    decreases |run|
  {
    if run == [] then s else StepGood(s, run[0]); After(Apply(s, run[0]), run[1..])
  }

  function Ticks<T(!new)>(run: seq<Step<T>>): nat {
    if run == [] then 0 else (if run[0].Tick? then 1 else 0) + Ticks(run[1..])
  }

  /** The threads that became current, tick by tick. */
  ghost function Turns<T>(s: Sched<T>, run: seq<Step<T>>): seq<T>
    requires Healthy(s) && Allowed(s, run)
    decreases |run|
  {
    if run == [] then [] else
      StepGood(s, run[0]);
      var s' := Apply(s, run[0]);
      (if run[0].Tick? then [s'.ring[0]] else []) + Turns(s', run[1..])
  }

  /** Some tick of the run finds two or more threads. */
  ghost predicate Switches<T>(s: Sched<T>, run: seq<Step<T>>)
    requires Healthy(s) && Allowed(s, run)
    decreases |run|
  {
    run != [] &&
    ((run[0].Tick? && |s.ring| > 1) || (StepGood(s, run[0]); Switches(Apply(s, run[0]), run[1..])))
  }

  /** Once a tick has switched, the current thread is RUNNING or FINISHED over every run. */
  lemma {:induction false} RunLively<T>(s: Sched<T>, run: seq<Step<T>>)
    requires Healthy(s) && Allowed(s, run) && (Lively(s) || Switches(s, run))
    ensures Lively(After(s, run))
    decreases |run|
  {
    if run != [] {
      StepGood(s, run[0]);
      if Lively(s) || (run[0].Tick? && |s.ring| > 1) { StepLively(s, run[0]); }
      RunLively(Apply(s, run[0]), run[1..]);
    }
  }

  /** Where the thread at place d goes in one step: a tick brings it one place forward, nothing else moves it. */
  lemma StepMoves<T>(s: Sched<T>, e: Step<T>, d: nat)
    requires Healthy(s) && Admissible(s, e) && d < |s.ring| && (e.Tick? ==> d > 0)
    ensures var s' := Apply(s, e);
            var d' := if e.Tick? then d - 1 else d;
            d' < |s'.ring| && s'.ring[d'] == s.ring[d]
  {
  }

  /** In every run a waiting thread has moved forward by exactly the number of ticks. */
  lemma {:induction false} Waiting<T(!new)>(s: Sched<T>, run: seq<Step<T>>, d: nat)
    requires Healthy(s) && Allowed(s, run) && d < |s.ring| && Ticks(run) <= d
    ensures var s' := After(s, run); d - Ticks(run) < |s'.ring| && s'.ring[d - Ticks(run)] == s.ring[d]
    decreases |run|
  {
    if run != [] {
      var e := run[0];
      StepGood(s, e);
      StepMoves(s, e, d);
      Waiting(Apply(s, e), run[1..], if e.Tick? then d - 1 else d);
    }
  }

  /** First in, first out: a thread created in a ring of k threads becomes current at the k-th tick, and not before. */
  lemma TurnComes<T(!new)>(s: Sched<T>, t: T, run: seq<Step<T>>)
    requires Healthy(s) && Allowed(s, [Create(t)] + run)
    ensures var s' := After(s, [Create(t)] + run);
            && (Ticks(run) < |s.ring| ==> s'.ring[0] != t)
            && (Ticks(run) == |s.ring| ==> s'.ring[0] == t)
  {
    var whole := [Create(t)] + run;
    assert whole[0] == Create(t) && whole[1..] == run;
    StepGood(s, whole[0]);
    var s1, k := Apply(s, whole[0]), |s.ring|;
    if Ticks(run) <= k {
      Waiting(s1, run, k);
    }
  }

  /** What a step leaves of the ring: a tick shifts it by one place, and nothing else changes its order. */
  lemma StepShifts<T>(s: Sched<T>, e: Step<T>)
    requires Healthy(s) && Admissible(s, e) && (e.Tick? ==> |s.ring| > 1)
    ensures var r, r' := s.ring, Apply(s, e).ring;
            if e.Tick? then |r'| >= |r| - 1 && r'[..|r| - 1] == r[1..] else |r'| >= |r| && r'[..|r|] == r
  {
  }

  lemma Shifted<T>(r: seq<T>, r': seq<T>, k: nat)
    requires |r'| >= |r| - 1 >= 1 && r'[..|r| - 1] == r[1..] && k + 1 < |r|
    ensures [r'[0]] + r'[1..k + 1] == r[1..k + 2]
  {
    assert [r'[0]] + r'[1..k + 1] == r'[..|r| - 1][..k + 1];
  }

  lemma Kept<T>(r: seq<T>, r': seq<T>, k: nat)
    requires |r'| >= |r| && r'[..|r|] == r && k < |r|
    ensures r'[1..k + 1] == r[1..k + 1]
  {
    forall i | 1 <= i < k + 1 ensures r'[i] == r[i] { assert r'[..|r|][i] == r[i]; }
  }

  lemma TickTurn<T>(s: Sched<T>, k: nat)
    requires Healthy(s) && k + 1 < |s.ring|
    ensures var r := Apply(s, Tick).ring; k < |r| && [r[0]] + r[1..k + 1] == s.ring[1..k + 2]
  {
    StepShifts(s, Tick);
    Shifted(s.ring, Apply(s, Tick).ring, k);
  }

  /** The ring is served in its order: while k ticks pass, k < |ring|, the threads at places 1 to k run once each. */
  lemma {:induction false} Rounds<T(!new)>(s: Sched<T>, run: seq<Step<T>>)
    requires Healthy(s) && Allowed(s, run) && Ticks(run) < |s.ring|
    ensures Turns(s, run) == s.ring[1..Ticks(run) + 1]
    decreases |run|
  {
    if run != [] {
      var e, rest := run[0], run[1..];
      StepGood(s, e);
      var s' := Apply(s, e);
      assert Ticks(rest) < |s'.ring| by { StepShifts(s, e); }
      Rounds(s', rest);
      if e.Tick? {
        TickTurn(s, Ticks(rest));
      } else {
        Kept(s.ring, s'.ring, Ticks(rest)) by { StepShifts(s, e); }
      }
    }
  }

  /** The kernel thread must not exit: with one other thread, the next tick leaves a destroyed thread in the ring. */
  lemma KernelExitExample()
    ensures var s := Sched([1, 2], map[1 := Running, 2 := Ready], 1, 2, {});
            var s' := Apply(Apply(s, Exit), Tick);
            Healthy(s) && 1 in s'.dead && 1 in s'.ring && s'.count != |s'.ring|
  {
    var s := Sched([1, 2], map[1 := Running, 2 := Ready], 1, 2, {});
    var s1 := Apply(s, Exit);
    var s' := Apply(s1, Tick);
    assert s'.ring == [2, 1];
  }
}
