/**
 The multi-CPU scheduler (src/cpu.cc, src/process_mgr.cc) as interleaved steps.

 schedule is cut wherever another CPU can see or change something: taking the run-queue lock, each
 look at a queue entry's state and at its m_has_cpu flag, giving up or choosing, the end of the
 locked section, the stack switch, and schedule_tail on the new stack. Wake-ups set the state
 first and queue the process later. Once release_process has given a process's memory back, that
 memory may come to hold anything. Steps of different CPUs and wakers interleave freely.
 */
module Scheduler {
  import opened Machine

  /** Every CPU has its idle process; all others are tasks. */
  datatype Proc = Idle(cpu: nat) | Task(id: nat)

  datatype Life = Runnable | Sleeping | Zombie

  /** Where a CPU is. The lock of the run queue is held from Scanning to Chosen. */
  datatype Phase =
    | Running(cur: Proc)
    | Scanning(cur: Proc, i: nat)
    | Checking(cur: Proc, i: nat)
    | Chosen(cur: Proc, next: Proc)
    | Switching(cur: Proc, next: Proc)
    | Tail(cur: Proc, prev: Proc)

  datatype Holder = Nobody | Cpu(c: nat)

  /**
   `pending` are the wakers that have set the state and not yet queued the process. `owner` (which
   CPU a task belongs to, from the moment it is chosen until schedule_tail lets go of it) and
   `freed` (the processes whose memory release_process gave back) only observe.
   */
  datatype State = State(cpus: seq<Phase>, life: map<Proc, Life>, hasCpu: set<Proc>, queue: seq<Proc>, lock: Holder,
                         pending: multiset<Proc>, owner: map<Proc, nat>, freed: set<Proc>, panicked: bool)

  datatype Event =
    | Enter(c: nat) | Look(c: nat) | Test(c: nat) | Commit(c: nat) | Switch(c: nat) | Finish(c: nat)
    | Sleep(c: nat) | Resume(c: nat) | Exit(c: nat) | Fork(c: nat, p: Proc)
    | Wake(p: Proc) | Enqueue(p: Proc) | Release(p: Proc) | Reuse(p: Proc, l: Life, flag: bool)

  /** All CPUs run their idle processes. */
  function Boot(n: nat): State {
    State(seq(n, c requires 0 <= c => Running(Idle(c))), map[], {}, [], Nobody, multiset{}, map[], {}, false)
  }

  predicate At(s: State, c: nat) {
    c < |s.cpus|
  }

  predicate Is(s: State, p: Proc, l: Life) {
    p in s.life && s.life[p] == l
  }

  predicate Enabled(s: State, e: Event) {
    match e
    case Enter(c) => At(s, c) && s.cpus[c].Running? && s.lock == Nobody
    case Look(c) => At(s, c) && s.cpus[c].Scanning?
    case Test(c) => At(s, c) && s.cpus[c].Checking?
    case Commit(c) => At(s, c) && s.cpus[c].Chosen?
    case Switch(c) => At(s, c) && s.cpus[c].Switching?
    case Finish(c) => At(s, c) && s.cpus[c].Tail?
    case Sleep(c) => At(s, c) && s.cpus[c].Running? && s.cpus[c].cur.Task? && !Is(s, s.cpus[c].cur, Zombie)
    case Resume(c) => At(s, c) && s.cpus[c].Running? && s.cpus[c].cur.Task? && !Is(s, s.cpus[c].cur, Zombie)
    case Exit(c) => At(s, c) && s.cpus[c].Running? && s.cpus[c].cur.Task?
    case Fork(c, p) => At(s, c) && s.cpus[c].Running? && p.Task? && p !in s.life
    case Wake(p) => p in s.life && s.life[p] != Zombie && p !in s.freed
    case Enqueue(p) => p in s.pending && s.lock == Nobody
    case Release(p) => Is(s, p, Zombie) && p !in s.hasCpu && p !in s.freed
    case Reuse(p, _, _) => p in s.freed
  }

  function To(s: State, c: nat, ph: Phase): State
    requires At(s, c)
  {
    s.(cpus := s.cpus[c := ph])
  }

  /** One look of the scan: past a sleeping entry, or on to its flag; at the end, the idle process. */
  function LookStep(s: State, c: nat): State
    requires At(s, c) && s.cpus[c].Scanning?
  {
    var Scanning(cur, i) := s.cpus[c];
    if i < |s.queue| then
      To(s, c, if Is(s, s.queue[i], Runnable) then Checking(cur, i) else Scanning(cur, i + 1))
    else if cur == Idle(c) then To(s.(lock := Nobody), c, Running(cur))
    else To(s, c, Chosen(cur, Idle(c)))
  }

  /** The entry is taken off the queue when no CPU has it. */
  function TestStep(s: State, c: nat): State
    requires At(s, c) && s.cpus[c].Checking?
  {
    var Checking(cur, i) := s.cpus[c];
    if i >= |s.queue| || s.queue[i] in s.hasCpu then To(s, c, Scanning(cur, i + 1))
    else if s.queue[i] == cur then s.(panicked := true)
    else
      var p := s.queue[i];
      To(s.(queue := s.queue[..i] + s.queue[i + 1..], owner := s.owner[p := c]), c, Chosen(cur, p))
  }

  function CommitStep(s: State, c: nat): State
    requires At(s, c) && s.cpus[c].Chosen?
  {
    var Chosen(cur, next) := s.cpus[c];
    var queue := if cur.Task? && Is(s, cur, Runnable) && cur !in s.queue then s.queue + [cur] else s.queue;
    To(s.(queue := queue, hasCpu := s.hasCpu + {next}, lock := Nobody), c, Switching(cur, next))
  }

  function Step(s: State, e: Event): State
    requires Enabled(s, e)
  {
    match e
    case Enter(c) => To(s.(lock := Cpu(c)), c, Scanning(s.cpus[c].cur, 0))
    case Look(c) => LookStep(s, c)
    case Test(c) => TestStep(s, c)
    case Commit(c) => CommitStep(s, c)
    case Switch(c) => To(s, c, Tail(s.cpus[c].next, s.cpus[c].cur))
    case Finish(c) =>
      To(s.(hasCpu := s.hasCpu - {s.cpus[c].prev}, owner := s.owner - {s.cpus[c].prev}), c, Running(s.cpus[c].cur))
    case Sleep(c) => s.(life := s.life[s.cpus[c].cur := Sleeping])
    case Resume(c) => s.(life := s.life[s.cpus[c].cur := Runnable])
    case Exit(c) => s.(life := s.life[s.cpus[c].cur := Zombie])
    case Fork(c, p) => s.(life := s.life[p := Runnable], pending := s.pending + multiset{p})
    case Wake(p) => s.(life := s.life[p := Runnable], pending := s.pending + multiset{p})
    case Enqueue(p) =>
      s.(queue := if p in s.queue then s.queue else [p] + s.queue, pending := s.pending - multiset{p})
    case Release(p) => s.(freed := s.freed + {p})
    case Reuse(p, l, flag) => s.(life := s.life[p := l], hasCpu := if flag then s.hasCpu + {p} else s.hasCpu - {p})
  }

  // ---------------------------------------------------------------- the invariant

  /** p belongs to CPU c, and its flag says so. */
  predicate Mine(s: State, c: nat, p: Proc) {
    match p
    case Idle(d) => d == c
    case Task(_) => p in s.owner && s.owner[p] == c && p in s.hasCpu && p in s.life
  }

  /** A process that is being left behind can be found again if it is runnable. */
  predicate Left(s: State, p: Proc) {
    p.Task? && Is(s, p, Runnable) ==> p in s.queue || p in s.pending
  }

  /** p executes outside schedule. */
  predicate Executing(s: State, p: Proc) {
    p in s.owner && At(s, s.owner[p]) && s.cpus[s.owner[p]] == Running(p)
  }

  ghost predicate CpuOk(s: State, c: nat)
    requires At(s, c)
  {
    Mine(s, c, s.cpus[c].cur) &&
    match s.cpus[c]
    case Running(_) => s.lock != Cpu(c)
    case Scanning(_, i) => s.lock == Cpu(c) && i <= |s.queue|
    case Checking(_, i) =>
      && s.lock == Cpu(c) && i < |s.queue|
      && (Is(s, s.queue[i], Runnable) || Executing(s, s.queue[i]))
    case Chosen(cur, next) =>
      && s.lock == Cpu(c) && next != cur && (next.Idle? ==> next.cpu == c)
      && (next.Task? ==>
            next in s.owner && s.owner[next] == c && next !in s.hasCpu && next !in s.queue && Is(s, next, Runnable))
    case Switching(cur, next) => s.lock != Cpu(c) && Mine(s, c, next) && next != cur && Left(s, cur)
    case Tail(cur, prev) => s.lock != Cpu(c) && Mine(s, c, prev) && prev != cur && Left(s, prev)
  }

  /** The phase of a CPU names p. */
  predicate Names(ph: Phase, p: Proc) {
    ph.cur == p || (ph.Chosen? && ph.next == p) || (ph.Switching? && ph.next == p) || (ph.Tail? && ph.prev == p)
  }

  predicate Owned(s: State, p: Proc) {
    p in s.owner && At(s, s.owner[p]) && Names(s.cpus[s.owner[p]], p) && p in s.life && p.Task?
  }

  /** A runnable process is on the queue, on a CPU, or about to be queued by its waker. */
  predicate Found(s: State, p: Proc) {
    Is(s, p, Runnable) ==> p in s.queue || p in s.owner || p in s.pending
  }

  predicate Queued(s: State, p: Proc) {
    p in s.queue || p in s.pending
  }

  /** A process whose memory was given back is on no CPU; it is still a zombie, or nothing will look at it again. */
  predicate Spent(s: State, p: Proc) {
    p in s.life && p !in s.owner && (Queued(s, p) ==> s.life[p] == Zombie && p !in s.hasCpu)
  }

  ghost predicate QueueOk(s: State) {
    NoDup(s.queue) && (forall p :: p in s.queue ==> p.Task? && p in s.life) && (forall p :: p in s.pending ==> p in s.life)
  }

  ghost predicate TasksOk(s: State) {
    && (forall p :: p in s.life ==> p.Task? && (p in s.freed || Found(s, p)))
    && (forall p :: p in s.owner ==> Owned(s, p))
    && (forall p :: p in s.hasCpu && p.Task? ==> p in s.owner || p in s.freed)
    && (forall p :: p in s.freed ==> Spent(s, p))
  }

  ghost predicate CpusOk(s: State) {
    forall c :: 0 <= c < |s.cpus| ==> CpuOk(s, c)
  }

  ghost predicate Inv(s: State) {
    CpusOk(s) && TasksOk(s) && QueueOk(s) && (s.lock.Cpu? ==> At(s, s.lock.c)) && !s.panicked
  }

  /** The memory of a process is not used again as long as the run queue, or a waker, still refers to it. */
  predicate Harmless(s: State, e: Event) {
    e.Reuse? ==> !Queued(s, e.p)
  }

  // ---------------------------------------------------------------- every step keeps it

  lemma BootInv(n: nat)
    ensures Inv(Boot(n))
  {
  }

  /** Only a process that has just been chosen belongs to a CPU before its flag is set. */
  lemma FlagOrChosen(s: State, p: Proc)
    requires Inv(s)
    ensures p in s.owner ==> p in s.hasCpu || (s.lock == Cpu(s.owner[p]) && Is(s, p, Runnable) && s.cpus[s.owner[p]].Chosen?)
  {
    if p in s.owner {
      assert Owned(s, p) && CpuOk(s, s.owner[p]);
    }
  }

  /**
   An entry whose state and flag pass both looks is runnable, belongs to no CPU, and is not the
   process that scans: the panic is out of reach, and so is a zombie.
   */
  lemma Selected(s: State, c: nat, p: Proc)
    requires Inv(s) && At(s, c) && s.cpus[c].Checking? && s.cpus[c].i < |s.queue|
    requires p == s.queue[s.cpus[c].i] && p !in s.hasCpu
    ensures p.Task? && Is(s, p, Runnable) && p !in s.owner && p != s.cpus[c].cur && p !in s.freed
  {
    assert CpuOk(s, c);
    FlagOrChosen(s, p);
  }

  lemma Removed(q: seq<Proc>, i: nat)
    requires NoDup(q) && i < |q|
    ensures var r := q[..i] + q[i + 1..]; NoDup(r) && q[i] !in r && forall p :: p in r <==> p in q && p != q[i]
  {
    var r := q[..i] + q[i + 1..];
    forall p | p in q && p != q[i] ensures p in r {
      var j :| 0 <= j < |q| && q[j] == p;
      assert r[if j < i then j else j - 1] == p;
    }
  }

  lemma EnterCpus(s: State, c: nat, d: nat)
    requires Inv(s) && Enabled(s, Enter(c)) && At(s, d)
    ensures CpuOk(Step(s, Enter(c)), d)
  {
    assert CpuOk(s, c) && CpuOk(s, d);
  }

  lemma EnterTasks(s: State, c: nat)
    requires Inv(s) && Enabled(s, Enter(c))
    ensures TasksOk(Step(s, Enter(c))) && QueueOk(Step(s, Enter(c)))
  {
    assert CpuOk(s, c);
  }

  lemma LookCpus(s: State, c: nat, d: nat)
    requires Inv(s) && Enabled(s, Look(c)) && At(s, d)
    ensures CpuOk(Step(s, Look(c)), d)
  {
    assert CpuOk(s, c) && CpuOk(s, d);
  }

  lemma LookTasks(s: State, c: nat)
    requires Inv(s) && Enabled(s, Look(c))
    ensures TasksOk(Step(s, Look(c))) && QueueOk(Step(s, Look(c)))
  {
    assert CpuOk(s, c);
  }

  lemma TestOwn(s: State, c: nat)
    requires Inv(s) && Enabled(s, Test(c))
    ensures CpuOk(Step(s, Test(c)), c)
  {
    assert CpuOk(s, c);
    var i := s.cpus[c].i;
    if s.queue[i] !in s.hasCpu {
      Selected(s, c, s.queue[i]);
      Removed(s.queue, i);
    }
  }

  lemma TestOther(s: State, c: nat, d: nat)
    requires Inv(s) && Enabled(s, Test(c)) && At(s, d) && d != c
    ensures CpuOk(Step(s, Test(c)), d)
  {
    assert CpuOk(s, c) && CpuOk(s, d);
    var i := s.cpus[c].i;
    if s.queue[i] !in s.hasCpu {
      Selected(s, c, s.queue[i]);
      Removed(s.queue, i);
    }
  }

  lemma TestTasks(s: State, c: nat)
    requires Inv(s) && Enabled(s, Test(c))
    ensures TasksOk(Step(s, Test(c))) && QueueOk(Step(s, Test(c)))
  {
    assert CpuOk(s, c);
    var i := s.cpus[c].i;
    if s.queue[i] !in s.hasCpu {
      Selected(s, c, s.queue[i]);
      Removed(s.queue, i);
    }
  }

  lemma CommitCpus(s: State, c: nat, d: nat)
    requires Inv(s) && Enabled(s, Commit(c)) && At(s, d)
    ensures CpuOk(Step(s, Commit(c)), d)
  {
    assert CpuOk(s, c) && CpuOk(s, d);
  }

  lemma CommitTasks(s: State, c: nat)
    requires Inv(s) && Enabled(s, Commit(c))
    ensures TasksOk(Step(s, Commit(c)))
  {
    assert CpuOk(s, c);
  }

  lemma CommitQueue(s: State, c: nat)
    requires Inv(s) && Enabled(s, Commit(c))
    ensures QueueOk(Step(s, Commit(c)))
  {
    assert CpuOk(s, c);
  }

  lemma SwitchCpus(s: State, c: nat, d: nat)
    requires Inv(s) && Enabled(s, Switch(c)) && At(s, d)
    ensures CpuOk(Step(s, Switch(c)), d)
  {
    assert CpuOk(s, c) && CpuOk(s, d);
  }

  lemma SwitchTasks(s: State, c: nat)
    requires Inv(s) && Enabled(s, Switch(c))
    ensures TasksOk(Step(s, Switch(c))) && QueueOk(Step(s, Switch(c)))
  {
    assert CpuOk(s, c);
  }

  lemma FinishOwn(s: State, c: nat)
    requires Inv(s) && Enabled(s, Finish(c))
    ensures CpuOk(Step(s, Finish(c)), c)
  {
    assert CpuOk(s, c);
  }

  lemma FinishOther(s: State, c: nat, d: nat)
    requires Inv(s) && Enabled(s, Finish(c)) && At(s, d) && d != c
    ensures CpuOk(Step(s, Finish(c)), d)
  {
    assert CpuOk(s, c) && CpuOk(s, d);
  }

  lemma FinishTasks(s: State, c: nat)
    requires Inv(s) && Enabled(s, Finish(c))
    ensures TasksOk(Step(s, Finish(c))) && QueueOk(Step(s, Finish(c)))
  {
    assert CpuOk(s, c);
  }

  predicate Own(e: Event) {
    e.Sleep? || e.Resume? || e.Exit?
  }

  lemma OwnCpus(s: State, e: Event, d: nat)
    requires Inv(s) && Enabled(s, e) && Own(e) && At(s, d)
    ensures CpuOk(Step(s, e), d)
  {
    assert CpuOk(s, e.c) && CpuOk(s, d);
  }

  lemma OwnTasks(s: State, e: Event)
    requires Inv(s) && Enabled(s, e) && Own(e)
    ensures TasksOk(Step(s, e)) && QueueOk(Step(s, e))
  {
    assert CpuOk(s, e.c);
  }

  predicate Outside(e: Event) {
    e.Fork? || e.Wake? || e.Enqueue? || e.Release?
  }

  lemma ReuseCpus(s: State, e: Event, d: nat)
    requires Inv(s) && Enabled(s, e) && e.Reuse? && Harmless(s, e) && At(s, d)
    ensures CpuOk(Step(s, e), d)
  {
    assert CpuOk(s, d) && Spent(s, e.p);
  }

  lemma ReuseTasks(s: State, e: Event)
    requires Inv(s) && Enabled(s, e) && e.Reuse? && Harmless(s, e)
    ensures TasksOk(Step(s, e)) && QueueOk(Step(s, e))
  {
    assert Spent(s, e.p);
  }

  lemma EnqueueTasks(s: State, p: Proc)
    requires Inv(s) && Enabled(s, Enqueue(p))
    ensures TasksOk(Step(s, Enqueue(p))) && QueueOk(Step(s, Enqueue(p)))
  {
  }

  lemma EnqueueCpus(s: State, p: Proc, d: nat)
    requires Inv(s) && Enabled(s, Enqueue(p)) && At(s, d)
    ensures CpuOk(Step(s, Enqueue(p)), d)
  {
    assert CpuOk(s, d);
  }

  lemma OutsideCpus(s: State, e: Event, d: nat)
    requires Inv(s) && Enabled(s, e) && Outside(e) && At(s, d)
    ensures CpuOk(Step(s, e), d)
  {
    assert CpuOk(s, d);
    if e.Enqueue? { EnqueueCpus(s, e.p, d); }
  }

  lemma OutsideTasks(s: State, e: Event)
    requires Inv(s) && Enabled(s, e) && Outside(e)
    ensures TasksOk(Step(s, e)) && QueueOk(Step(s, e))
  {
    if e.Enqueue? { EnqueueTasks(s, e.p); } else { FlagOrChosen(s, e.p); }
  }

  lemma StepCpus(s: State, e: Event, d: nat)
    requires Inv(s) && Enabled(s, e) && Harmless(s, e) && At(s, d)
    ensures CpuOk(Step(s, e), d)
  {
    match e
    case Enter(c) => EnterCpus(s, c, d);
    case Look(c) => LookCpus(s, c, d);
    case Test(c) => if d == c { TestOwn(s, c); } else { TestOther(s, c, d); }
    case Commit(c) => CommitCpus(s, c, d);
    case Switch(c) => SwitchCpus(s, c, d);
    case Finish(c) => if d == c { FinishOwn(s, c); } else { FinishOther(s, c, d); }
    case Sleep(_) | Resume(_) | Exit(_) => OwnCpus(s, e, d);
    case Fork(_, _) | Wake(_) | Enqueue(_) | Release(_) => OutsideCpus(s, e, d);
    case Reuse(_, _, _) => ReuseCpus(s, e, d);
  }

  lemma StepTasks(s: State, e: Event)
    requires Inv(s) && Enabled(s, e) && Harmless(s, e)
    ensures TasksOk(Step(s, e)) && QueueOk(Step(s, e))
  {
    match e
    case Enter(c) => EnterTasks(s, c);
    case Look(c) => LookTasks(s, c);
    case Test(c) => TestTasks(s, c);
    case Commit(c) => CommitTasks(s, c); CommitQueue(s, c);
    case Switch(c) => SwitchTasks(s, c);
    case Finish(c) => FinishTasks(s, c);
    case Sleep(_) | Resume(_) | Exit(_) => OwnTasks(s, e);
    case Fork(_, _) | Wake(_) | Enqueue(_) | Release(_) => OutsideTasks(s, e);
    case Reuse(_, _, _) => ReuseTasks(s, e);
  }

  /** No step panics, and every step keeps the invariant, unless memory is reused that the queue still refers to. */
  lemma StepInv(s: State, e: Event)
    requires Inv(s) && Enabled(s, e) && Harmless(s, e)
    ensures Inv(Step(s, e))
  {
    var s' := Step(s, e);
    forall d | 0 <= d < |s'.cpus| ensures CpuOk(s', d) { StepCpus(s, e, d); }
    StepTasks(s, e);
    if e.Test? {
      var i := s.cpus[e.c].i;
      assert CpuOk(s, e.c);
      if s.queue[i] !in s.hasCpu { Selected(s, e.c, s.queue[i]); }
    }
  }

  // ---------------------------------------------------------------- runs

  predicate Legal(s: State, es: seq<Event>)
    decreases |es|
  {
    es == [] || (Enabled(s, es[0]) && Legal(Step(s, es[0]), es[1..]))
  }

  function Run(s: State, es: seq<Event>): State
    requires Legal(s, es)
    decreases |es|
  {
    if es == [] then s else Run(Step(s, es[0]), es[1..])
  }

  predicate Clean(s: State, es: seq<Event>)
    requires Legal(s, es)
    decreases |es|
  {
    es == [] || (Harmless(s, es[0]) && Clean(Step(s, es[0]), es[1..]))
  }

  lemma {:induction false} RunInv(s: State, es: seq<Event>)
    requires Inv(s) && Legal(s, es) && Clean(s, es)
    ensures Inv(Run(s, es))
    decreases |es|
  {
    if es != [] {
      StepInv(s, es[0]);
      RunInv(Step(s, es[0]), es[1..]);
    }
  }

  /** No process is on two CPUs, neither running, chosen nor being left. */
  lemma OneCpu(s: State, c: nat, d: nat, p: Proc)
    requires Inv(s) && At(s, c) && At(s, d) && Names(s.cpus[c], p) && Names(s.cpus[d], p)
    ensures c == d
  {
    assert CpuOk(s, c) && CpuOk(s, d);
  }

  /** p is on a CPU. */
  ghost predicate OnCpu(s: State, p: Proc) {
    exists c :: 0 <= c < |s.cpus| && Names(s.cpus[c], p)
  }

  /**
   On any number of CPUs, after every interleaving in which no memory is reused while the queue
   still refers to it: no process is on two CPUs, none is queued twice, no freed process is on a
   CPU, every runnable process is queued, on a CPU or about to be queued by its waker, and the
   scan has never come upon the process that scans.
   */
  lemma SchedulerSafe(n: nat, es: seq<Event>)
    requires Legal(Boot(n), es) && Clean(Boot(n), es)
    ensures var s := Run(Boot(n), es);
            && Inv(s) && !s.panicked && NoDup(s.queue)
            && (forall c: nat, d: nat, p :: At(s, c) && At(s, d) && Names(s.cpus[c], p) && Names(s.cpus[d], p) ==> c == d)
            && (forall p :: Is(s, p, Runnable) && p !in s.freed ==> p in s.queue || OnCpu(s, p) || p in s.pending)
            && (forall p :: p in s.freed ==> !OnCpu(s, p))
  {
    BootInv(n);
    RunInv(Boot(n), es);
    var s := Run(Boot(n), es);
    forall c: nat, d: nat, p | At(s, c) && At(s, d) && Names(s.cpus[c], p) && Names(s.cpus[d], p) ensures c == d {
      OneCpu(s, c, d, p);
    }
    forall p | Is(s, p, Runnable) && p !in s.freed ensures p in s.queue || OnCpu(s, p) || p in s.pending {
      assert Found(s, p);
      if p in s.owner { assert Owned(s, p); }
    }
    forall p | p in s.freed ensures !OnCpu(s, p) {
      OffCpu(s, p);
    }
  }

  /** A task that belongs to no CPU is on none. */
  lemma OffCpu(s: State, p: Proc)
    requires Inv(s) && p in s.life && p !in s.owner
    ensures !OnCpu(s, p)
  {
    forall c | 0 <= c < |s.cpus| ensures !Names(s.cpus[c], p) {
      assert CpuOk(s, c);
    }
  }

  // ---------------------------------------------------------------- zombies and the queue

  /** A zombie, or what is left of one that no one refers to. */
  predicate Dead(s: State, z: Proc) {
    Is(s, z, Zombie) || (z in s.freed && !Queued(s, z))
  }

  predicate StaysDead(s: State, t: State, z: Proc) {
    Dead(t, z) && (Queued(t, z) <==> Queued(s, z))
  }

  lemma ZombieTest(s: State, c: nat, z: Proc)
    requires Inv(s) && Enabled(s, Test(c)) && Dead(s, z)
    ensures StaysDead(s, Step(s, Test(c)), z)
  {
    assert CpuOk(s, c);
    var i := s.cpus[c].i;
    if s.queue[i] !in s.hasCpu {
      Selected(s, c, s.queue[i]);
      Removed(s.queue, i);
    }
  }

  lemma ZombieOwn(s: State, e: Event, z: Proc)
    requires Inv(s) && Enabled(s, e) && (Own(e) || e.Commit?) && Dead(s, z)
    ensures StaysDead(s, Step(s, e), z)
  {
    assert CpuOk(s, e.c);
  }

  lemma ZombieOutside(s: State, e: Event, z: Proc)
    requires Inv(s) && Enabled(s, e) && Harmless(s, e) && (Outside(e) || e.Reuse?) && Dead(s, z)
    ensures StaysDead(s, Step(s, e), z)
  {
    if z in s.freed { assert Spent(s, z); }
  }

  lemma ZombieStep(s: State, e: Event, z: Proc)
    requires Inv(s) && Enabled(s, e) && Harmless(s, e) && Dead(s, z)
    ensures StaysDead(s, Step(s, e), z)
  {
    if e.Test? {
      ZombieTest(s, e.c, z);
    } else if Own(e) || e.Commit? {
      ZombieOwn(s, e, z);
    } else if Outside(e) || e.Reuse? {
      ZombieOutside(s, e, z);
    }
  }

  /**
   A zombie stays on the run queue, or on its way there, for ever, and one that is off stays off:
   after release_process the queue is free of the process exactly if it was so when it exited.
   */
  lemma {:induction false} ZombieQueue(s: State, z: Proc, es: seq<Event>)
    requires Inv(s) && Dead(s, z) && Legal(s, es) && Clean(s, es)
    ensures Queued(Run(s, es), z) <==> Queued(s, z)
    decreases |es|
  {
    if es != [] {
      ZombieStep(s, es[0], z);
      StepInv(s, es[0]);
      ZombieQueue(Step(s, es[0]), z, es[1..]);
    }
  }

  predicate Ready(life: map<Proc, Life>, hasCpu: set<Proc>, p: Proc) {
    p in life && life[p] == Runnable && p !in hasCpu
  }

  /** The first entry from i on that is runnable and has no CPU. */
  function FirstReady(queue: seq<Proc>, life: map<Proc, Life>, hasCpu: set<Proc>, i: nat): (k: nat)
    requires i <= |queue|
    ensures i <= k <= |queue| && (k < |queue| ==> Ready(life, hasCpu, queue[k]))
    decreases |queue| - i
  {
    if i == |queue| || Ready(life, hasCpu, queue[i]) then i else FirstReady(queue, life, hasCpu, i + 1)
  }

  /** Nothing ready is passed over. */
  lemma {:induction false} NoneBefore(queue: seq<Proc>, life: map<Proc, Life>, hasCpu: set<Proc>, i: nat, j: nat)
    requires i <= j < |queue| && Ready(life, hasCpu, queue[j])
    ensures FirstReady(queue, life, hasCpu, i) <= j
    decreases j - i
  {
    if i < j && !Ready(life, hasCpu, queue[i]) { NoneBefore(queue, life, hasCpu, i + 1, j); }
  }

  function Choice(queue: seq<Proc>, life: map<Proc, Life>, hasCpu: set<Proc>, c: nat): Proc {
    var k := FirstReady(queue, life, hasCpu, 0);
    if k < |queue| then queue[k] else Idle(c)
  }

  function Without(queue: seq<Proc>, k: nat): seq<Proc> {
    if k < |queue| then queue[..k] + queue[k + 1..] else queue
  }

  /** The process a CPU leaves goes to the end of the queue if it can run and is not there. */
  function Requeue(queue: seq<Proc>, life: map<Proc, Life>, prev: Proc): seq<Proc> {
    if prev.Task? && prev in life && life[prev] == Runnable && prev !in queue then queue + [prev] else queue
  }

  // ---------------------------------------------------------------- the looks at one entry

  /** Two steps of one CPU that leave it elsewhere amount to one. */
  lemma Twice(s: State, c: nat, x: Phase, y: Phase)
    requires At(s, c)
    ensures To(To(s, c, x), c, y) == To(s, c, y)
  {
    assert s.cpus[c := x][c := y] == s.cpus[c := y];
  }

  /** What the scan of CPU c leaves when it takes entry j. */
  function Taken(s: State, c: nat, j: nat): State
    requires At(s, c) && j < |s.queue|
  {
    To(s.(queue := s.queue[..j] + s.queue[j + 1..], owner := s.owner[s.queue[j] := c]), c, Chosen(s.cpus[c].cur, s.queue[j]))
  }

  /** Both looks at an entry that is not ready, and the scan goes on. */
  lemma PassInv(s: State, c: nat, cur: Proc, i: nat)
    requires Inv(s) && At(s, c) && s.cpus[c] == Scanning(cur, i) && i < |s.queue| && !Ready(s.life, s.hasCpu, s.queue[i])
    ensures Inv(To(s, c, Scanning(cur, i + 1)))
  {
    var m := Step(s, Look(c));
    StepInv(s, Look(c));
    if m.cpus[c].Checking? {
      StepInv(m, Test(c));
      Twice(s, c, Checking(cur, i), Scanning(cur, i + 1));
    }
  }

  /** Both looks at a ready entry: it is not the process that scans, and it is taken. */
  lemma TakeInv(s: State, c: nat, cur: Proc, i: nat)
    requires Inv(s) && At(s, c) && s.cpus[c] == Scanning(cur, i) && i < |s.queue| && Ready(s.life, s.hasCpu, s.queue[i])
    ensures Inv(Taken(s, c, i)) && s.queue[i] != cur
  {
    var m := To(s, c, Checking(cur, i));
    StepInv(s, Look(c));
    Selected(m, c, s.queue[i]);
    StepInv(m, Test(c));
    Twice(s.(queue := s.queue[..i] + s.queue[i + 1..], owner := s.owner[s.queue[i] := c]), c,
          Checking(cur, i), Chosen(cur, s.queue[i]));
  }

  /** What a running process does to itself, and nothing else. */
  lemma OwnLife(s: State, e: Event)
    requires Enabled(s, e) && Own(e)
    ensures var t, p := Step(s, e), s.cpus[e.c].cur;
            && t == s.(life := t.life) && t.life.Keys == s.life.Keys + {p}
            && Is(t, p, if e.Sleep? then Sleeping else if e.Resume? then Runnable else Zombie)
            && forall q :: q in s.life && q != p ==> t.life[q] == s.life[q]
  {
  }
}
