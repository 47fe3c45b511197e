/**
 kernel/scheduler.c and the counting part of kernel/thread.c: threads in a circular doubly linked list.
 Regions with interrupts disabled are atomic steps; stacks, cycle counts and page directories are left out.
 */
module Scheduler {
  import opened ThreadRing

  class Thread {
    var id: int
    var state: TaskState
    var next: Thread?
    var prev: Thread?

    /** The record as memset leaves it, but for its id. */
    constructor (i: int)
      ensures id == i && state == Sleep && next == null && prev == null
    {
      id, state, next, prev := i, Sleep, null, null;
    }
  }

  function Succ(n: int, i: int): int { if i + 1 < n then i + 1 else 0 }
  function Pred(n: int, i: int): int { if i > 0 then i - 1 else n - 1 }

  ghost predicate Joined(r: seq<Thread>, i: int)
    requires 0 <= i < |r|
    reads r
  {
    r[i].next == r[Succ(|r|, i)] && r[i].prev == r[Pred(|r|, i)]
  }

  /** next and prev lead around r, forwards and backwards. */
  ghost predicate Circular(r: seq<Thread>)
    reads r
  {
    Distinct(r) && forall i {:trigger Joined(r, i)} :: 0 <= i < |r| ==> Joined(r, i)
  }

  class Kernel {
    var kernelThread: Thread?
    var currentThread: Thread?
    var numThreads: int
    var lastId: int

    ghost var ring: seq<Thread>
    ghost var dead: set<Thread>

    ghost predicate Linked()
      reads `kernelThread, `currentThread, `ring, ring
    {
      && Circular(ring)
      && (if ring == [] then kernelThread == null && currentThread == null
          else kernelThread in ring && currentThread == ring[0])
    }

    /** The state of the transition system. */
    ghost function View(): Sched<Thread>
      requires kernelThread != null
      reads `kernelThread, `ring, `numThreads, `dead, ring
    {
      Sched(ring, map t | t in ring :: t.state, kernelThread, numThreads, dead)
    }

    ghost predicate Valid()
      reads `kernelThread, `currentThread, `ring, `numThreads, `dead, ring
    {
      Linked() && (if ring == [] then numThreads == 0 && dead == {} else Good(View()))
    }

    constructor ()
      ensures Valid() && ring == []
    {
      kernelThread, currentThread, numThreads, lastId, ring, dead := null, null, 0, 0, [], {};
    }

    /** scheduler.c:15-37 */
    method ScheduleThread(thread: Thread?)
      requires Linked() && (thread != null ==> thread !in ring)
      modifies `kernelThread, `currentThread, `ring, ring, thread
      ensures Linked() && (thread == null ==> ring == old(ring))
      ensures thread != null ==> ring == old(ring) + [thread] && thread.state == Ready && thread.id == old(thread.id)
      ensures forall t :: t in old(ring) ==> t.state == old(t.state)
      ensures kernelThread == if old(ring) == [] then thread else old(kernelThread)
    {
      if thread == null {
        return;
      }
      thread.state := Ready;
      thread.next, thread.prev := null, null;
      if kernelThread == null {
        kernelThread := thread;
        currentThread := thread;
        currentThread.next, currentThread.prev := thread, thread;
        ring := [thread];
        assert Joined(ring, 0);
      } else {
        LinkIn(thread);
      }
    }

    /** scheduler.c:30-33 */
    method LinkIn(thread: Thread)
      requires Linked() && ring != [] && thread !in ring
      modifies `ring, ring, thread
      ensures Linked() && ring == old(ring) + [thread] && thread.state == old(thread.state)
      ensures thread.id == old(thread.id)
      ensures forall t :: t in old(ring) ==> t.state == old(t.state)
    {
      ghost var n := |ring|;
      assert Joined(ring, 0) && Joined(ring, n - 1);
      thread.prev := currentThread.prev;
      thread.next := currentThread;
      currentThread.prev.next := thread;
      currentThread.prev := thread;
      ring := ring + [thread];
      forall i | 0 <= i < |ring| ensures Joined(ring, i) {
        if i < n { assert old(Joined(ring, i)); }
      }
    }

    /** scheduler.c:39-55 for the thread at place i of the ring. */
    method UnscheduleThread(thread: Thread?, ghost i: int)
      requires thread != null ==> Circular(ring) && 0 <= i < |ring| && ring[i] == thread
      modifies `ring, ring
      ensures thread == null || thread == kernelThread ==> ring == old(ring)
      ensures thread != null && thread != kernelThread ==> ring == old(ring)[..i] + old(ring)[i + 1..]
      ensures thread != null ==> Circular(ring)
      ensures forall t :: t in old(ring) ==> t.state == old(t.state)
    {
      if thread == null || thread == kernelThread {
        return;
      }
      ghost var n := |ring|;
      assert Joined(ring, i) && Joined(ring, Succ(n, i)) && Joined(ring, Pred(n, i));
      if thread.prev != null {
        thread.prev.next := thread.next;
      }
      if thread.next != null {
        thread.next.prev := thread.prev;
      }
      ghost var r, q := ring, ring[..i] + ring[i + 1..];
      ring := q;
      SkippedDistinct(r, i, q);
      forall j | 0 <= j < |q| ensures Joined(q, j) {
        SkippedAt(r, i, q, j);
        assert old(Joined(r, if j < i then j else j + 1));
      }
    }

    /** scheduler.c:64-74: the first thread behind the current one that does not sleep. */
    method NextReadyThread() returns (thread: Thread?, ghost k: int)
      requires Linked() && (ring != [] ==> exists t :: t in ring && t.state != Sleep)
      ensures ring == [] ==> thread == null
      ensures ring != [] ==>
                && 1 <= k <= |ring| && thread == (if k < |ring| then ring[k] else ring[0]) && thread.state != Sleep
                && forall j :: 1 <= j < k ==> ring[j].state == Sleep
    {
      k := 1;
      if currentThread == null {
        return null, k;
      }
      ghost var n := |ring|;
      assert Joined(ring, 0);
      thread := currentThread.next;
      while thread != null && thread.state == Sleep
        invariant 1 <= k <= n && thread == (if k < n then ring[k] else ring[0])
        invariant forall j :: 1 <= j < k ==> ring[j].state == Sleep
        decreases n - k
      {
        ghost var m := if k < n then k else 0;
        assert Joined(ring, m);
        thread := thread.next;
        k := k + 1;
      }
    }

    /** thread.c:17-21 */
    method RequestThreadId() returns (id: int)
      modifies `lastId
      ensures id == lastId == old(lastId) + 1
    {
      lastId := lastId + 1;
      id := lastId;
    }

    /** thread.c:28-47; memory says whether kmalloc succeeds. */
    method CreateKernelThread(memory: bool)
      requires Valid() && ring == []
      modifies this
      ensures Valid() && (!memory ==> ring == [])
      ensures memory ==>
                && |ring| == 1 && fresh(ring[0]) && kernelThread == currentThread == ring[0] && Healthy(View())
                && numThreads == 1
    {
      if !memory {
        return;
      }
      var id := RequestThreadId();
      var thread := new Thread(id);
      numThreads := numThreads + 1;
      ScheduleThread(thread);
    }

    /** thread.c:51-139 without the stack frames; memory says whether kmalloc succeeds. */
    method CreateThread(memory: bool) returns (id: int)
      requires Valid() && ring != []
      modifies this, ring
      ensures Valid() && kernelThread == old(kernelThread)
      ensures !memory ==> id == 0 && View() == old(View())
      ensures memory ==>
                && |ring| == |old(ring)| + 1 && fresh(ring[|ring| - 1]) && id == lastId == ring[|ring| - 1].id
                && View() == Apply(old(View()), Create(ring[|ring| - 1]))
                && ring == old(ring) + [ring[|ring| - 1]] && ring[|ring| - 1].state == Ready
                && numThreads == old(numThreads) + 1 && lastId == old(lastId) + 1
    {
      if !memory {
        return 0;
      }
      ghost var s0 := View();
      id := RequestThreadId();
      var thread := new Thread(id);
      assert View() == s0;
      Register(thread);
      CreateGood(s0, thread);
    }

    /** thread.c:131-134 */
    method Register(thread: Thread)
      requires Linked() && ring != [] && thread !in ring && thread !in dead
      modifies `kernelThread, `currentThread, `ring, `numThreads, ring, thread
      ensures Linked() && ring == old(ring) + [thread] && thread.id == old(thread.id)
      ensures View() == Apply(old(View()), Create(thread))
    {
      ghost var s0 := View();
      numThreads := numThreads + 1;
      ScheduleThread(thread);
      assert View().state == s0.state[thread := Ready];
    }

    /** thread.c:141-165 */
    method DestroyThread(thread: Thread?)
      modifies `numThreads, `dead
      ensures thread == null ==> numThreads == old(numThreads) && dead == old(dead)
      ensures thread != null ==> numThreads == old(numThreads) - 1 && dead == old(dead) + {thread}
    {
      if thread == null {
        return;
      }
      numThreads := numThreads - 1;
      dead := dead + {thread};
    }

    /** thread.c:167-175 up to the switch; the tick that follows is a step of its own. */
    method ThreadExit()
      requires Valid() && ring != []
      modifies ring[0]
      ensures Valid() && View() == Apply(old(View()), Exit)
      ensures currentThread == ring[0] && ring[0].state == Finished
      ensures forall i :: 1 <= i < |ring| ==> ring[i].state == old(ring[i].state)
    {
      ghost var s0 := View();
      currentThread.state := Finished;
      forall i | 0 <= i < |ring| ensures Joined(ring, i) { assert old(Joined(ring, i)); }
    }

    /** scheduler.c:111-115; r is the ring seen from the next thread. */
    method SwitchTo(next: Thread, ghost r: seq<Thread>)
      requires Circular(r) && r != [] && next == r[0] && kernelThread != null && kernelThread in r
      modifies `ring, `currentThread, next`state
      ensures Linked() && ring == r && next.state == Running
      ensures forall t {:trigger t.state} :: t in r && t != next ==> t.state == old(t.state)
    {
      next.state := Running;
      StillCircular(r);
      currentThread := next;
      ring := r;
    }

    /** scheduler.c:103-104: the finished thread leaves the ring, unless it is the kernel thread, and is destroyed. */
    method TakeOff(ghost c: Thread) returns (ghost r: seq<Thread>)
      requires Linked() && |ring| > 1 && c == ring[0]
      modifies `ring, `numThreads, `dead, ring
      ensures Circular(r) && r == if c == kernelThread then old(ring)[1..] + [c] else old(ring)[1..]
      ensures numThreads == old(numThreads) - 1 && dead == old(dead) + {c}
      ensures forall t :: t in r ==> t in old(ring) && t.state == old(t.state)
    {
      Rotated(ring);
      UnscheduleThread(currentThread, 0);
      DestroyThread(currentThread);
      r := ring;
      if c == kernelThread {
        Turned(ring);
        r := ring[1..] + [c];
      }
    }

    /** scheduler.c:102-115 when the current thread has finished. */
    method LeaveFinished(next: Thread)
      requires Linked() && |ring| > 1 && next == ring[1] && ring[0].state == Finished
      modifies `ring, `numThreads, `dead, `currentThread, ring
      ensures Linked() && ring != [] && View() == Apply(old(View()), Tick)
    {
      ghost var s0, c := View(), ring[0];
      ghost var r := TakeOff(c);
      SwitchTo(next, r);
      forall t | t in r ensures t.state == if t == next then Running else s0.state[t] { }
      SameStates(s0.ring, r, s0.state, View().state, c, next);
      FinishedTick(s0, View(), next);
    }

    /** scheduler.c:105-115 when it goes on later. */
    method LeaveReady(next: Thread)
      requires Valid() && |ring| > 1 && next == ring[1] && ring[0].state != Finished
      modifies `ring, `currentThread, ring
      ensures Linked() && ring != [] && View() == Apply(old(View()), Tick)
    {
      currentThread.state := Ready;
      StillCircular(ring);
      Turned(ring);
      SwitchTo(next, ring[1..] + [ring[0]]);
    }

    /** scheduler.c:76-133 */
    method ScheduleTick()
      requires Valid() && ring != []
      modifies `ring, `numThreads, `dead, `currentThread, ring
      ensures Linked() && ring != [] && View() == Apply(old(View()), Tick)
      ensures Valid() <==> Good(Apply(old(View()), Tick))
      ensures |old(ring)| == 1 ==> ring == old(ring) && ring[0].state == old(ring[0].state) && dead == old(dead)
      ensures |old(ring)| > 1 ==> currentThread == old(ring)[1] && currentThread.state == Running
      ensures |old(ring)| > 1 && old(ring[0].state) != Finished ==>
                && ring == old(ring)[1..] + [old(ring)[0]] && old(ring)[0].state == Ready
                && dead == old(dead) && numThreads == old(numThreads)
      ensures |old(ring)| > 1 && old(ring[0].state) == Finished && old(ring)[0] != kernelThread ==>
                && ring == old(ring)[1..] && dead == old(dead) + {old(ring)[0]} && numThreads == old(numThreads) - 1
      ensures forall i :: 2 <= i < |old(ring)| ==> old(ring)[i].state == old(ring[i].state)
    {
      ghost var s0 := View();
      var next;
      ghost var k;
      assert ring[0] in ring && ring[0].state != Sleep;
      next, k := NextReadyThread();
      if next != null && next != currentThread {
        if currentThread.state == Finished {
          LeaveFinished(next);
        } else {
          LeaveReady(next);
        }
      }
      TickOnThreads(s0, View());
    }
  }

  /** The ring seen from the next thread. */
  lemma Turned(r: seq<Thread>)
    requires Circular(r) && r != []
    ensures Circular(r[1..] + [r[0]])
  {
    var t := r[1..] + [r[0]];
    forall i | 0 <= i < |t| ensures Joined(t, i) { assert Joined(r, if i + 1 < |r| then i + 1 else 0); }
  }

  /** The tick of the transition system, read off field by field. */
  lemma TickOnThreads(s: Sched<Thread>, s': Sched<Thread>)
    requires Good(s) && s' == Apply(s, Tick)
    ensures |s.ring| == 1 ==> s' == s
    ensures |s.ring| > 1 ==>
              s'.ring != [] && s'.ring[0] == s.ring[1] && s.ring[1] in s'.state && s'.state[s.ring[1]] == Running
    ensures |s.ring| > 1 && s.state[s.ring[0]] != Finished ==>
              && s'.ring == s.ring[1..] + [s.ring[0]] && s'.state[s.ring[0]] == Ready
              && s'.dead == s.dead && s'.count == s.count
    ensures |s.ring| > 1 && s.state[s.ring[0]] == Finished && s.ring[0] != s.kernel ==>
              s'.ring == s.ring[1..] && s'.dead == s.dead + {s.ring[0]} && s'.count == s.count - 1
    ensures forall i {:trigger s.ring[i]} :: 2 <= i < |s.ring| ==>
              s.ring[i] in s'.ring && s.ring[i] in s'.state && s'.state[s.ring[i]] == s.state[s.ring[i]]
  {
    Rotated(s.ring);
  }

  lemma FinishedTick(s: Sched<Thread>, s': Sched<Thread>, next: Thread)
    requires |s.ring| > 1 && s.state.Keys == (set t | t in s.ring) && s.state[s.ring[0]] == Finished
    requires next == s.ring[1]
    requires s'.kernel == s.kernel && s'.count == s.count - 1 && s'.dead == s.dead + {s.ring[0]}
    requires s'.ring == if s.ring[0] == s.kernel then s.ring[1..] + [s.ring[0]] else s.ring[1..]
    requires s'.state == (if s.ring[0] == s.kernel then s.state else s.state - {s.ring[0]})[next := Running]
    ensures s' == Apply(s, Tick)
  {
  }

  lemma SameStates(r0: seq<Thread>, r: seq<Thread>, m0: map<Thread, TaskState>, m: map<Thread, TaskState>, c: Thread,
                   next: Thread)
    requires r0 != [] && c == r0[0] && Distinct(r0) && next in r && m0.Keys == (set t | t in r0)
    requires m.Keys == set t | t in r
    requires r == r0[1..] || r == r0[1..] + [c]
    requires forall t {:trigger m[t]} :: t in r ==> m[t] == if t == next then Running else m0[t]
    ensures m == (if r == r0[1..] then m0 - {c} else m0)[next := Running]
  {
    Rotated(r0);
  }

  lemma SkippedDistinct(r: seq<Thread>, i: int, q: seq<Thread>)
    requires 0 <= i < |r| && Distinct(r) && q == r[..i] + r[i + 1..]
    ensures Distinct(q)
  {
  }

  /** A thread's neighbours once place i is skipped. */
  lemma SkippedAt(r: seq<Thread>, i: int, q: seq<Thread>, j: int)
    requires 0 <= i < |r| && Distinct(r) && q == r[..i] + r[i + 1..] && 0 <= j < |q|
    ensures var n, k := |r|, if j < i then j else j + 1;
            && q[j] == r[k]
            && q[Succ(n - 1, j)] == (if r[k] == r[Pred(n, i)] then r[Succ(n, i)] else r[Succ(n, k)])
            && q[Pred(n - 1, j)] == (if r[k] == r[Succ(n, i)] then r[Pred(n, i)] else r[Pred(n, k)])
  {
  }

  /** State changes do not touch the links. */
  twostate lemma StillCircular(r: seq<Thread>)
    requires old(Circular(r)) && forall t :: t in r ==> t.next == old(t.next) && t.prev == old(t.prev)
    ensures Circular(r)
  {
    forall i | 0 <= i < |r| ensures Joined(r, i) { assert old(Joined(r, i)); }
  }
}
