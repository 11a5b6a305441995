/**
 What becomes of a process after release_process (src/process_mgr.cc) has given its memory back:
 it is gone for good exactly when nothing on the run queue, or on its way there, refers to it.
 */
module Reclaim {
  import opened Machine
  import opened Scheduler

  /** No CPU will run z, switch to it or be leaving it, whatever happens. */
  ghost predicate NeverAgain(s: State, z: Proc) {
    forall es :: Legal(s, es) ==> !OnCpu(Run(s, es), z)
  }

  /** Freed, off the queue and off every CPU. */
  ghost predicate Gone(s: State, z: Proc) {
    z in s.freed && z in s.life && z.Task? && !Queued(s, z) && !OnCpu(s, z)
  }

  /** That is for good, whatever else goes wrong: also after harmful reuse of other memory. */
  lemma GoneStep(s: State, e: Event, z: Proc)
    requires Gone(s, z) && Enabled(s, e)
    ensures Gone(Step(s, e), z)
  {
    var s' := Step(s, e);
    GoneQueue(s, e, z);
    forall c | 0 <= c < |s'.cpus| ensures !Names(s'.cpus[c], z) {
      GoneCpu(s, e, c, z);
    }
  }

  lemma GoneQueue(s: State, e: Event, z: Proc)
    requires Gone(s, z) && Enabled(s, e)
    ensures var t := Step(s, e); z in t.freed && z in t.life && !Queued(t, z)
  {
    if e.Commit? { GoneCommit(s, e.c, z); }
  }

  lemma GoneCommit(s: State, c: nat, z: Proc)
    requires Gone(s, z) && Enabled(s, Commit(c))
    ensures var t := Step(s, Commit(c)); z in t.freed && z in t.life && !Queued(t, z)
  {
    assert !Names(s.cpus[c], z);
  }

  lemma GoneCpu(s: State, e: Event, c: nat, z: Proc)
    requires Gone(s, z) && Enabled(s, e) && At(Step(s, e), c)
    ensures !Names(Step(s, e).cpus[c], z)
  {
    assert !Names(s.cpus[c], z);
  }

  lemma {:induction false} GoneRun(s: State, es: seq<Event>, z: Proc)
    requires Gone(s, z) && Legal(s, es)
    ensures !OnCpu(Run(s, es), z)
    decreases |es|
  {
    if es != [] {
      GoneStep(s, es[0], z);
      GoneRun(Step(s, es[0]), es[1..], z);
    }
  }

  /** Some continuation puts the freed process z on a CPU. */
  ghost predicate Leads(s: State, z: Proc) {
    exists es :: Legal(s, es) && z in Run(s, es).freed && OnCpu(Run(s, es), z)
  }

  lemma Back(s: State, e: Event, t: State, z: Proc)
    requires Enabled(s, e) && Step(s, e) == t && Leads(t, z)
    ensures Leads(s, z)
  {
    var es :| Legal(t, es) && z in Run(t, es).freed && OnCpu(Run(t, es), z);
    assert ([e] + es)[1..] == es;
    assert Legal(s, [e] + es) && Run(s, [e] + es) == Run(t, es);
  }

  /** An entry that is not ready is passed. */
  lemma PassedOver(s: State, c: nat, cur: Proc, i: nat, z: Proc)
    requires At(s, c) && s.cpus[c] == Scanning(cur, i) && i < |s.queue| && !Ready(s.life, s.hasCpu, s.queue[i])
    requires Leads(To(s, c, Scanning(cur, i + 1)), z)
    ensures Leads(s, z)
  {
    var t := To(s, c, Scanning(cur, i + 1));
    if Is(s, s.queue[i], Runnable) {
      var m := To(s, c, Checking(cur, i));
      Twice(s, c, Checking(cur, i), Scanning(cur, i + 1));
      Back(m, Test(c), t, z);
      Back(s, Look(c), m, z);
    } else {
      Back(s, Look(c), t, z);
    }
  }

  /** The scan reaches the first ready entry from i on, and takes it. */
  lemma {:induction false} ScanTo(s: State, c: nat, i: nat, j: nat, z: Proc)
    requires At(s, c) && s.cpus[c].Scanning? && s.cpus[c].i == i <= j < |s.queue|
    requires j == FirstReady(s.queue, s.life, s.hasCpu, i) && s.queue[j] != s.cpus[c].cur
    requires Leads(Taken(s, c, j), z)
    ensures Leads(s, z)
    decreases j - i
  {
    var cur := s.cpus[c].cur;
    if i == j {
      var m := To(s, c, Checking(cur, i));
      Twice(s.(queue := s.queue[..j] + s.queue[j + 1..], owner := s.owner[s.queue[j] := c]), c,
            Checking(cur, i), Chosen(cur, s.queue[j]));
      Back(m, Test(c), Taken(s, c, j), z);
      Back(s, Look(c), m, z);
    } else {
      var t := To(s, c, Scanning(cur, i + 1));
      Twice(s.(queue := s.queue[..j] + s.queue[j + 1..], owner := s.owner[s.queue[j] := c]), c,
            Scanning(cur, i + 1), Chosen(cur, s.queue[j]));
      ScanTo(t, c, i + 1, j, z);
      PassedOver(s, c, cur, i, z);
    }
  }

  /** A freed process at place k, made to look ready, is chosen if nothing before it is ready. */
  lemma ReuseChosen(s: State, c: nat, k: nat, z: Proc)
    requires At(s, c) && s.cpus[c].Running? && s.lock == Nobody && s.cpus[c].cur != z && z in s.freed
    requires k < |s.queue| && s.queue[k] == z && NoDup(s.queue)
    requires k <= FirstReady(s.queue, s.life, s.hasCpu, 0)
    ensures Leads(s, z)
  {
    var r := Step(s, Reuse(z, Runnable, false));
    var e := Step(r, Enter(c));
    ReadyAfter(s, r, 0, k);
    var t := Taken(e, c, k);
    assert t.cpus[c] == Chosen(s.cpus[c].cur, z) && Names(t.cpus[c], z);
    assert Legal(t, []) && Run(t, []) == t && OnCpu(t, z);
    ScanTo(e, c, 0, k, z);
    Back(r, Enter(c), e, z);
    Back(s, Reuse(z, Runnable, false), r, z);
  }

  lemma {:induction false} ReadyAfter(s: State, r: State, i: nat, k: nat)
    requires i <= k < |s.queue| && NoDup(s.queue) && r.queue == s.queue
    requires k <= FirstReady(s.queue, s.life, s.hasCpu, i) && Ready(r.life, r.hasCpu, r.queue[k])
    requires forall p :: p != s.queue[k] ==> (Ready(s.life, s.hasCpu, p) <==> Ready(r.life, r.hasCpu, p))
    ensures FirstReady(r.queue, r.life, r.hasCpu, i) == k
    decreases k - i
  {
    if i < k { ReadyAfter(s, r, i + 1, k); }
  }

  lemma {:induction false} ScanInv(s: State, c: nat, i: nat, j: nat)
    requires Inv(s) && At(s, c) && s.cpus[c].Scanning? && s.cpus[c].i == i <= j < |s.queue|
    requires j == FirstReady(s.queue, s.life, s.hasCpu, i)
    ensures Inv(Taken(s, c, j)) && s.queue[j] != s.cpus[c].cur
    decreases j - i
  {
    var cur := s.cpus[c].cur;
    if i == j {
      TakeInv(s, c, cur, i);
    } else {
      PassInv(s, c, cur, i);
      ScanInv(To(s, c, Scanning(cur, i + 1)), c, i + 1, j);
      Twice(s.(queue := s.queue[..j] + s.queue[j + 1..], owner := s.owner[s.queue[j] := c]), c,
            Scanning(cur, i + 1), Chosen(cur, s.queue[j]));
    }
  }

  /** CPU c enters schedule, takes the first ready entry j and leaves the locked section. */
  function Picked(s: State, c: nat, j: nat): State
    requires Enabled(s, Enter(c)) && j < |s.queue|
  {
    Step(Taken(Step(s, Enter(c)), c, j), Commit(c))
  }

  lemma PickedInv(s: State, c: nat, j: nat)
    requires Inv(s) && Enabled(s, Enter(c)) && j == FirstReady(s.queue, s.life, s.hasCpu, 0) < |s.queue|
    ensures Inv(Picked(s, c, j)) && s.queue[j].Task? && s.queue[j] != s.cpus[c].cur
  {
    var s1 := Step(s, Enter(c));
    StepInv(s, Enter(c));
    ScanInv(s1, c, 0, j);
    StepInv(Taken(s1, c, j), Commit(c));
  }

  lemma PickedQueue(s: State, c: nat, j: nat, k: nat)
    requires Enabled(s, Enter(c)) && j < k < |s.queue|
    ensures var t := Picked(s, c, j);
            && At(t, c) && t.cpus[c] == Switching(s.cpus[c].cur, s.queue[j]) && t.lock == Nobody
            && t.freed == s.freed && t.life == s.life && k - 1 < |t.queue| && t.queue[k - 1] == s.queue[k]
  {
  }

  lemma PickedBack(s: State, c: nat, j: nat, z: Proc)
    requires Enabled(s, Enter(c)) && j == FirstReady(s.queue, s.life, s.hasCpu, 0) < |s.queue|
    requires s.queue[j] != s.cpus[c].cur && Leads(Picked(s, c, j), z)
    ensures Leads(s, z)
  {
    var s1 := Step(s, Enter(c));
    var s2 := Taken(s1, c, j);
    Back(s2, Commit(c), Picked(s, c, j), z);
    ScanTo(s1, c, 0, j, z);
    Back(s, Enter(c), s1, z);
  }

  /** CPU c switches to the ready entry j and puts that process to sleep: one entry fewer before z. */
  lemma Turn(s: State, c: nat, j: nat, k: nat, z: Proc) returns (t: State)
    requires Inv(s) && At(s, c) && s.cpus[c].Running? && s.lock == Nobody && z in s.freed
    requires j == FirstReady(s.queue, s.life, s.hasCpu, 0) < k < |s.queue| && s.queue[k] == z
    ensures Inv(t) && At(t, c) && t.cpus[c].Running? && t.lock == Nobody && z in t.freed
    ensures k - 1 < |t.queue| && t.queue[k - 1] == z
    ensures Leads(t, z) ==> Leads(s, z)
  {
    PickedInv(s, c, j);
    PickedQueue(s, c, j, k);
    t := Settled(Picked(s, c, j), c, z);
    if Leads(t, z) { PickedBack(s, c, j, z); }
  }

  /** The rest of the turn. */
  lemma Settled(s: State, c: nat, z: Proc) returns (t: State)
    requires Inv(s) && At(s, c) && s.cpus[c].Switching? && s.lock == Nobody
    requires s.cpus[c].next.Task? && !Is(s, s.cpus[c].next, Zombie)
    ensures Inv(t) && At(t, c) && t.cpus[c].Running? && t.lock == Nobody && t.queue == s.queue && t.freed == s.freed
    ensures Leads(t, z) ==> Leads(s, z)
  {
    var s1 := Step(s, Switch(c));
    StepInv(s, Switch(c));
    var s2 := Step(s1, Finish(c));
    StepInv(s1, Finish(c));
    t := Step(s2, Sleep(c));
    StepInv(s2, Sleep(c));
    if Leads(t, z) {
      Back(s2, Sleep(c), t, z);
      Back(s1, Finish(c), s2, z);
      Back(s, Switch(c), s1, z);
    }
  }

  /** A CPU outside schedule can be brought to choose a freed process from the queue. */
  lemma {:induction false} Chase(s: State, c: nat, k: nat, z: Proc)
    requires Inv(s) && At(s, c) && s.cpus[c].Running? && s.lock == Nobody && z in s.freed
    requires k < |s.queue| && s.queue[k] == z
    ensures Leads(s, z)
    decreases k
  {
    var j := FirstReady(s.queue, s.life, s.hasCpu, 0);
    assert Spent(s, z) && CpuOk(s, c);
    if j < k {
      var t := Turn(s, c, j, k, z);
      Chase(t, c, k - 1, z);
    } else {
      ReuseChosen(s, c, k, z);
    }
  }

  /** How many steps a CPU may still take before it is outside schedule. */
  function Rest(s: State, c: nat): int
    requires At(s, c)
  {
    match s.cpus[c]
    case Running(_) => 0
    case Tail(_, _) => 1
    case Switching(_, _) => 2
    case Chosen(_, _) => 3
    case Scanning(_, i) => 4 + 2 * (|s.queue| - i)
    case Checking(_, i) => 3 + 2 * (|s.queue| - i)
  }

  /** The next step of a CPU inside schedule. */
  function Onward(s: State, c: nat): Event
    requires At(s, c) && !s.cpus[c].Running?
  {
    match s.cpus[c]
    case Tail(_, _) => Finish(c)
    case Switching(_, _) => Switch(c)
    case Chosen(_, _) => Commit(c)
    case Scanning(_, _) => Look(c)
    case Checking(_, _) => Test(c)
  }

  lemma OnwardStep(s: State, c: nat)
    requires Inv(s) && At(s, c) && !s.cpus[c].Running? && (s.lock == Nobody || s.lock == Cpu(c))
    ensures var e := Onward(s, c);
            && Enabled(s, e) && var t := Step(s, e);
            && At(t, c) && 0 <= Rest(t, c) < Rest(s, c) && (t.lock == Nobody || t.lock == Cpu(c)) && t.freed == s.freed
  {
    assert CpuOk(s, c);
    if s.cpus[c].Checking? && s.queue[s.cpus[c].i] !in s.hasCpu {
      Selected(s, c, s.queue[s.cpus[c].i]);
    }
  }

  /** Whatever the CPU that has the lock is doing, it gets out of schedule, and then the freed process is chosen. */
  lemma {:induction false} Haunted(s: State, c: nat, z: Proc)
    requires Inv(s) && At(s, c) && (s.lock == Nobody || s.lock == Cpu(c)) && z in s.freed && Queued(s, z)
    ensures Leads(s, z)
    decreases if s.cpus[c].Running? then 0 else Rest(s, c)
  {
    assert CpuOk(s, c) && Spent(s, z);
    if !s.cpus[c].Running? {
      var e := Onward(s, c);
      OnwardStep(s, c);
      StepInv(s, e);
      ZombieStep(s, e, z);
      Haunted(Step(s, e), c, z);
      Back(s, e, Step(s, e), z);
    } else if z in s.queue {
      var k :| 0 <= k < |s.queue| && s.queue[k] == z;
      Chase(s, c, k, z);
    } else {
      var t := Step(s, Enqueue(z));
      StepInv(s, Enqueue(z));
      Chase(t, c, 0, z);
      Back(s, Enqueue(z), t, z);
    }
  }

  /**
   When release_process gives a process's memory back, no CPU runs it, switches to it or is still
   leaving it. That stays so in every continuation, whatever the memory is used for, if and only
   if the run queue and the wakers no longer refer to the process.
   */
  lemma ReleasedForGood(s: State, z: Proc)
    requires Inv(s) && Enabled(s, Release(z)) && s.cpus != []
    ensures !OnCpu(s, z)
    ensures NeverAgain(Step(s, Release(z)), z) <==> !Queued(s, z)
  {
    var t := Step(s, Release(z));
    StepInv(s, Release(z));
    assert Spent(t, z);
    OffCpu(t, z);
    assert s.cpus == t.cpus;
    assert OnCpu(s, z) ==> OnCpu(t, z);
    if Queued(s, z) {
      Haunted(t, if t.lock.Cpu? then t.lock.c else 0, z);
    } else {
      forall es | Legal(t, es) ensures !OnCpu(Run(t, es), z) {
        GoneRun(t, es, z);
      }
    }
  }

  /** The same, decided when the process exits: nothing that happens until it is released changes the answer. */
  lemma ExitDecides(s: State, z: Proc, es: seq<Event>)
    requires Inv(s) && Is(s, z, Zombie) && s.cpus != []
    requires Legal(s, es) && Clean(s, es) && Enabled(Run(s, es), Release(z))
    ensures NeverAgain(Step(Run(s, es), Release(z)), z) <==> !Queued(s, z)
  {
    RunInv(s, es);
    ZombieQueue(s, z, es);
    RunCpus(s, es);
    ReleasedForGood(Run(s, es), z);
  }

  lemma {:induction false} RunCpus(s: State, es: seq<Event>)
    requires Legal(s, es)
    ensures |Run(s, es).cpus| == |s.cpus|
    decreases |es|
  {
    if es != [] { RunCpus(Step(s, es[0]), es[1..]); }
  }

  /** Every process is off the run queue, and no waker is about to queue it, when it is released. */
  predicate Tidy(s: State, es: seq<Event>)
    requires Legal(s, es)
    decreases |es|
  {
    es == [] || ((es[0].Release? ==> !Queued(s, es[0].p)) && Tidy(Step(s, es[0]), es[1..]))
  }

  /** That is enough for the run to be clean, so that all of SchedulerSafe holds of it. */
  lemma {:induction false} TidyIsClean(s: State, es: seq<Event>)
    requires Inv(s) && (forall p :: p in s.freed ==> !Queued(s, p)) && Legal(s, es) && Tidy(s, es)
    ensures Clean(s, es)
    decreases |es|
  {
    if es != [] {
      TidyStep(s, es[0]);
      TidyIsClean(Step(s, es[0]), es[1..]);
    }
  }

  lemma TidyStep(s: State, e: Event)
    requires Inv(s) && (forall p :: p in s.freed ==> !Queued(s, p)) && Enabled(s, e) && (e.Release? ==> !Queued(s, e.p))
    ensures Harmless(s, e) && Inv(Step(s, e)) && forall p :: p in Step(s, e).freed ==> !Queued(Step(s, e), p)
  {
    StepInv(s, e);
    var t := Step(s, e);
    forall p | p in t.freed ensures !Queued(t, p) {
      if p in s.freed { ZombieStep(s, e, p); }
    }
  }

  /** One CPU and one task: the task's place in the queue and among the wakers, and who holds the lock. */
  function Small(ph: Phase, life: Life, hasCpu: set<Proc>, queue: seq<Proc>, lock: Holder, pending: multiset<Proc>): State {
    State([ph], map[Task(1) := life], hasCpu, queue, lock, pending, if Names(ph, Task(1)) then map[Task(1) := 0] else map[], {}, false)
  }

  lemma ZombieLeft()
    ensures Leads(Small(Switching(Task(1), Idle(0)), Zombie, {Task(1), Idle(0)}, [Task(1)], Nobody, multiset{}), Task(1))
  {
    var t, i := Task(1), Idle(0);
    var s2 := Small(Running(i), Zombie, {i}, [t], Nobody, multiset{});
    ReuseChosen(s2.(freed := {t}), 0, 0, t);
    Back(s2, Release(t), s2.(freed := {t}), Task(1));
    var s1 := Small(Tail(i, t), Zombie, {t, i}, [t], Nobody, multiset{});
    Back(s1, Finish(0), s2, Task(1));
    Back(Small(Switching(t, i), Zombie, {t, i}, [t], Nobody, multiset{}), Switch(0), s1, Task(1));
  }

  lemma ZombieLeaves()
    ensures Leads(Small(Running(Task(1)), Zombie, {Task(1)}, [Task(1)], Nobody, multiset{}), Task(1))
  {
    var t, i := Task(1), Idle(0);
    ZombieLeft();
    var s3 := Small(Chosen(t, i), Zombie, {t}, [t], Cpu(0), multiset{});
    Back(s3, Commit(0), Small(Switching(t, i), Zombie, {t, i}, [t], Nobody, multiset{}), Task(1));
    var s2 := Small(Scanning(t, 1), Zombie, {t}, [t], Cpu(0), multiset{});
    Back(s2, Look(0), s3, Task(1));
    var s1 := Small(Scanning(t, 0), Zombie, {t}, [t], Cpu(0), multiset{});
    Back(s1, Look(0), s2, Task(1));
    Back(Small(Running(t), Zombie, {t}, [t], Nobody, multiset{}), Enter(0), s1, Task(1));
  }

  lemma TaskExits()
    ensures Leads(Small(Running(Task(1)), Runnable, {Task(1)}, [Task(1)], Nobody, multiset{}), Task(1))
  {
    var t := Task(1);
    ZombieLeaves();
    Back(Small(Running(t), Runnable, {t}, [t], Nobody, multiset{}), Exit(0), Small(Running(t), Zombie, {t}, [t], Nobody, multiset{}), Task(1));
  }

  lemma TaskQueued()
    ensures Leads(Small(Running(Task(1)), Runnable, {Task(1)}, [], Nobody, multiset{Task(1)}), Task(1))
  {
    var t := Task(1);
    TaskExits();
    Back(Small(Running(t), Runnable, {t}, [], Nobody, multiset{t}), Enqueue(t),
         Small(Running(t), Runnable, {t}, [t], Nobody, multiset{}), t);
  }

  lemma TaskWoken()
    ensures Leads(Small(Running(Task(1)), Runnable, {Task(1)}, [], Nobody, multiset{}), Task(1))
  {
    var t := Task(1);
    TaskQueued();
    assert map[t := Runnable][t := Runnable] == map[t := Runnable];
    Back(Small(Running(t), Runnable, {t}, [], Nobody, multiset{}), Wake(t),
         Small(Running(t), Runnable, {t}, [], Nobody, multiset{t}), t);
  }

  lemma TaskSwitches()
    ensures Leads(Small(Switching(Idle(0), Task(1)), Runnable, {Task(1)}, [], Nobody, multiset{}), Task(1))
  {
    var t, i := Task(1), Idle(0);
    TaskWoken();
    var s3 := Small(Tail(t, i), Runnable, {t}, [], Nobody, multiset{});
    Back(s3, Finish(0), Small(Running(t), Runnable, {t}, [], Nobody, multiset{}), t);
    Back(Small(Switching(i, t), Runnable, {t}, [], Nobody, multiset{}), Switch(0), s3, t);
  }

  lemma TaskStarts()
    ensures Leads(Small(Checking(Idle(0), 0), Runnable, {}, [Task(1)], Cpu(0), multiset{}), Task(1))
  {
    var t, i := Task(1), Idle(0);
    TaskSwitches();
    var s2 := Small(Chosen(i, t), Runnable, {}, [], Cpu(0), multiset{});
    Back(s2, Commit(0), Small(Switching(i, t), Runnable, {t}, [], Nobody, multiset{}), t);
    Back(Small(Checking(i, 0), Runnable, {}, [t], Cpu(0), multiset{}), Test(0), s2, t);
  }

  lemma TaskFound()
    ensures Leads(Small(Running(Idle(0)), Runnable, {}, [Task(1)], Nobody, multiset{}), Task(1))
  {
    var t, i := Task(1), Idle(0);
    TaskStarts();
    var s4 := Small(Scanning(i, 0), Runnable, {}, [t], Cpu(0), multiset{});
    Back(s4, Look(0), Small(Checking(i, 0), Runnable, {}, [t], Cpu(0), multiset{}), t);
    Back(Small(Running(i), Runnable, {}, [t], Nobody, multiset{}), Enter(0), s4, t);
  }

  /** A task is woken while it runs, exits, is reaped while it is still queued, and is chosen again. */
  lemma FreedAndChosen()
    ensures Leads(Boot(1), Task(1))
  {
    var t, i := Task(1), Idle(0);
    TaskFound();
    var s3 := Small(Running(i), Runnable, {}, [t], Nobody, multiset{});
    var s2 := Small(Running(i), Runnable, {}, [], Nobody, multiset{t});
    Back(s2, Enqueue(t), s3, Task(1));
    Back(Boot(1), Fork(0, t), s2, Task(1));
  }
}
