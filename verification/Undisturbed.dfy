/**
 schedule and the wake-up of a process (src/cpu.cc, src/process_mgr.cc) as code that nobody
 interferes with. Each method is a run of the interleaved machine, so it keeps the invariant; what
 it does in one go is said outright, and that no ready process waits for ever follows.
 */
module Undisturbed {
  import opened Machine
  import opened Scheduler

  /** The events take s to t. */
  predicate Does(s: State, es: seq<Event>, t: State) {
    Legal(s, es) && Run(s, es) == t
  }

  lemma DoesOne(s: State, e: Event)
    requires Enabled(s, e)
    ensures Does(s, [e], Step(s, e))
  {
    assert [e][1..] == [];
    assert Legal(Step(s, e), []);
  }

  lemma {:induction false} DoesThen(s: State, es: seq<Event>, t: State, fs: seq<Event>, u: State)
    requires Does(s, es, t) && Does(t, fs, u)
    ensures Does(s, es + fs, u)
    decreases |es|
  {
    if es == [] {
      assert es + fs == fs;
    } else {
      assert (es + fs)[0] == es[0] && (es + fs)[1..] == es[1..] + fs;
      DoesThen(Step(s, es[0]), es[1..], t, fs, u);
    }
  }

  lemma DoesTwo(s: State, e: Event, f: Event, u: State)
    requires Enabled(s, e) && Enabled(Step(s, e), f) && Step(Step(s, e), f) == u
    ensures Does(s, [e, f], u)
  {
    DoesOne(s, e);
    DoesOne(Step(s, e), f);
    assert [e] + [f] == [e, f];
    DoesThen(s, [e], Step(s, e), [f], u);
  }

  /** All of them are steps of CPU c in schedule. */
  predicate By(es: seq<Event>, c: nat) {
    forall i :: 0 <= i < |es| ==> es[i] in {Enter(c), Look(c), Test(c), Commit(c), Switch(c), Finish(c)}
  }

  /** t is what some run of steps of CPU c in schedule makes of s. */
  ghost predicate Reaches(s: State, c: nat, t: State) {
    exists es :: Does(s, es, t) && By(es, c)
  }

  lemma ReachesOne(s: State, c: nat, e: Event)
    requires Enabled(s, e) && By([e], c)
    ensures Reaches(s, c, Step(s, e))
  {
    DoesOne(s, e);
  }

  lemma ReachesThen(s: State, c: nat, t: State, u: State)
    requires Reaches(s, c, t) && Reaches(t, c, u)
    ensures Reaches(s, c, u)
  {
    var es :| Does(s, es, t) && By(es, c);
    var fs :| Does(t, fs, u) && By(fs, c);
    DoesThen(s, es, t, fs, u);
  }

  lemma ReachesSelf(s: State, c: nat)
    ensures Reaches(s, c, s)
  {
    assert Does(s, [], s) && By([], c);
  }

  lemma PassDoes(s: State, c: nat, cur: Proc, i: nat)
    requires At(s, c) && s.cpus[c] == Scanning(cur, i) && i < |s.queue| && !Ready(s.life, s.hasCpu, s.queue[i])
    ensures Reaches(s, c, To(s, c, Scanning(cur, i + 1)))
  {
    if Is(s, s.queue[i], Runnable) {
      Twice(s, c, Checking(cur, i), Scanning(cur, i + 1));
      DoesTwo(s, Look(c), Test(c), To(s, c, Scanning(cur, i + 1)));
      assert By([Look(c), Test(c)], c);
    } else {
      ReachesOne(s, c, Look(c));
    }
  }

  lemma TakeDoes(s: State, c: nat, cur: Proc, i: nat)
    requires At(s, c) && s.cpus[c] == Scanning(cur, i) && i < |s.queue| && Ready(s.life, s.hasCpu, s.queue[i]) && s.queue[i] != cur
    ensures Reaches(s, c, Taken(s, c, i))
  {
    Twice(s.(queue := s.queue[..i] + s.queue[i + 1..], owner := s.owner[s.queue[i] := c]), c,
          Checking(cur, i), Chosen(cur, s.queue[i]));
    DoesTwo(s, Look(c), Test(c), Taken(s, c, i));
    assert By([Look(c), Test(c)], c);
  }

  /** The end of the locked section, field by field. */
  lemma CommitForm(s: State, c: nat)
    requires Inv(s) && Enabled(s, Commit(c))
    ensures var Chosen(prev, next) := s.cpus[c];
            var t := To(s.(queue := Requeue(s.queue, s.life, prev), hasCpu := s.hasCpu + {next}, lock := Nobody), c, Switching(prev, next));
            t == Step(s, Commit(c)) && Inv(t) && Reaches(s, c, t) && (prev.Task? ==> prev in s.life)
  {
    StepInv(s, Commit(c));
    ReachesOne(s, c, Commit(c));
    assert CpuOk(s, c);
  }

  lemma Overwritten<T>(q: seq<T>, c: nat, x: T, y: T)
    requires c < |q|
    ensures q[c := x][c := y] == q[c := y]
  {
  }

  lemma SwitchDoes(s: State, c: nat, prev: Proc, next: Proc)
    requires At(s, c) && s.cpus[c] == Switching(prev, next)
    ensures Reaches(s, c, To(s.(hasCpu := s.hasCpu - {prev}, owner := s.owner - {prev}), c, Running(next)))
  {
    var u := To(s.(hasCpu := s.hasCpu - {prev}, owner := s.owner - {prev}), c, Running(next));
    Twice(s.(hasCpu := s.hasCpu - {prev}, owner := s.owner - {prev}), c, Tail(next, prev), Running(next));
    DoesTwo(s, Switch(c), Finish(c), u);
    assert By([Switch(c), Finish(c)], c);
  }

  /** Waking and queueing without interruption. */
  lemma WakeInv(s: State, p: Proc)
    requires Inv(s) && Enabled(s, Wake(p)) && s.lock == Nobody
    ensures var u := s.(life := s.life[p := Runnable], queue := if p in s.queue then s.queue else [p] + s.queue);
            Inv(u) && Does(s, [Wake(p), Enqueue(p)], u)
  {
    var t := Step(s, Wake(p));
    StepInv(s, Wake(p));
    StepInv(t, Enqueue(p));
    assert s.pending + multiset{p} - multiset{p} == s.pending;
    DoesTwo(s, Wake(p), Enqueue(p), s.(life := s.life[p := Runnable], queue := if p in s.queue then s.queue else [p] + s.queue));
  }

  /** A process that runs has its flag, so an entry without one is not the process that scans. */
  lemma NotCurrent(s: State, c: nat, p: Proc)
    requires Inv(s) && At(s, c) && p.Task? && p !in s.hasCpu
    ensures s.cpus[c].cur != p
  {
    assert CpuOk(s, c);
  }

  /**
   Process data and run queue, with the place of each CPU; each method is one uninterrupted call,
   and amounts to a run of the interleaved machine.
   */
  class Kernel {
    var cpus: seq<Phase>
    var life: map<Proc, Life>
    var hasCpu: set<Proc>
    var queue: seq<Proc>
    var lock: Holder
    ghost var pending: multiset<Proc>
    ghost var owner: map<Proc, nat>
    ghost var freed: set<Proc>

    ghost function Abs(): State
      reads this
    {
      State(cpus, life, hasCpu, queue, lock, pending, owner, freed, false)
    }

    constructor (n: nat)
      ensures Abs() == Boot(n) && Inv(Abs())
    {
      cpus, life, hasCpu, queue, lock := seq(n, c requires 0 <= c => Running(Idle(c))), map[], {}, [], Nobody;
      pending, owner, freed := multiset{}, map[], {};
      new;
      assert cpus == Boot(n).cpus;
      BootInv(n);
    }

    /** schedule up to the choice: the first ready entry, taken off the queue, or the idle process. */
    method PickNext(c: nat, prev: Proc) returns (next: Proc)
      requires Inv(Abs()) && c < |cpus| && cpus[c] == Running(prev) && lock == Nobody
      modifies this`cpus, this`queue, this`lock, this`owner
      ensures Inv(Abs()) && Reaches(old(Abs()), c, Abs())
      ensures queue == Without(old(queue), FirstReady(old(queue), life, hasCpu, 0))
      ensures next == Choice(old(queue), life, hasCpu, c) && (next == prev ==> queue == old(queue) && lock == Nobody)
      ensures cpus == old(cpus)[c := if next == prev then Running(prev) else Chosen(prev, next)]
    {
      TakeLock(c, prev);
      label locked:
      next := Choose(c, prev);
      ReachesThen(old(Abs()), c, old@locked(Abs()), Abs());
      Overwritten(old(cpus), c, Scanning(prev, 0), if next == prev then Running(prev) else Chosen(prev, next));
    }

    /** The choice under the lock, which is given back when there is nothing to switch to. */
    method Choose(c: nat, prev: Proc) returns (next: Proc)
      requires Inv(Abs()) && c < |cpus| && cpus[c] == Scanning(prev, 0)
      modifies this`cpus, this`queue, this`lock, this`owner
      ensures Inv(Abs()) && Reaches(old(Abs()), c, Abs())
      ensures queue == Without(old(queue), FirstReady(old(queue), life, hasCpu, 0))
      ensures next == Choice(old(queue), life, hasCpu, c) && (next == prev ==> queue == old(queue) && lock == Nobody)
      ensures cpus == old(cpus)[c := if next == prev then Running(prev) else Chosen(prev, next)]
    {
      var found;
      found, next := Scan(c, prev);
      if !found {
        label passed:
        Overwritten(old(cpus), c, Scanning(prev, |queue|), if prev == Idle(c) then Running(prev) else Chosen(prev, Idle(c)));
        GiveUp(c, prev);
        next := Idle(c);
        ReachesThen(old(Abs()), c, old@passed(Abs()), Abs());
      }
    }

    /** The scan: stops at the first ready entry. */
    method Scan(c: nat, prev: Proc) returns (found: bool, next: Proc)
      requires Inv(Abs()) && c < |cpus| && cpus[c] == Scanning(prev, 0)
      modifies this`cpus, this`queue, this`owner
      ensures Inv(Abs()) && Reaches(old(Abs()), c, Abs())
      ensures var k := FirstReady(old(queue), life, hasCpu, 0);
              && queue == Without(old(queue), k) && (found <==> k < |old(queue)|)
              && (found ==> next == old(queue)[k] != prev)
              && cpus == old(cpus)[c := if found then Chosen(prev, next) else Scanning(prev, |queue|)]
    {
      var it := 0;
      next := prev;
      ReachesSelf(Abs(), c);
      while it < |queue|
        invariant 0 <= it <= |queue| && queue == old(queue) && Inv(Abs())
        invariant cpus == old(cpus)[c := Scanning(prev, it)] && Reaches(old(Abs()), c, Abs())
        invariant FirstReady(queue, life, hasCpu, 0) == FirstReady(queue, life, hasCpu, it)
      {
        next := queue[it];
        label looking:
        found := TryEntry(c, it, prev);
        ReachesThen(old(Abs()), c, old@looking(Abs()), Abs());
        Overwritten(old(cpus), c, Scanning(prev, it), if found then Chosen(prev, next) else Scanning(prev, it + 1));
        if found {
          return;
        }
        it := it + 1;
      }
      found := false;
    }

    method TakeLock(c: nat, prev: Proc)
      requires Inv(Abs()) && c < |cpus| && cpus[c] == Running(prev) && lock == Nobody
      modifies this`cpus, this`lock
      ensures Inv(Abs()) && Abs() == Step(old(Abs()), Enter(c)) && cpus == old(cpus)[c := Scanning(prev, 0)]
      ensures Reaches(old(Abs()), c, Abs())
    {
      ReachesOne(Abs(), c, Enter(c));
      StepInv(Abs(), Enter(c));
      lock, cpus := Cpu(c), cpus[c := Scanning(prev, 0)];
    }

    /** At the end of the queue: the idle process, or no switch when it runs already. */
    method GiveUp(c: nat, prev: Proc)
      requires Inv(Abs()) && c < |cpus| && cpus[c] == Scanning(prev, |queue|)
      modifies this`cpus, this`lock
      ensures Inv(Abs()) && Abs() == Step(old(Abs()), Look(c)) && (prev == Idle(c) ==> lock == Nobody)
      ensures cpus == old(cpus)[c := if prev == Idle(c) then Running(prev) else Chosen(prev, Idle(c))]
      ensures Reaches(old(Abs()), c, Abs())
    {
      ReachesOne(Abs(), c, Look(c));
      StepInv(Abs(), Look(c));
      if prev == Idle(c) {
        lock, cpus := Nobody, cpus[c := Running(prev)];
      } else {
        cpus := cpus[c := Chosen(prev, Idle(c))];
      }
    }

    /** The body of the scan. */
    method TryEntry(c: nat, it: nat, prev: Proc) returns (found: bool)
      requires Inv(Abs()) && c < |cpus| && cpus[c] == Scanning(prev, it) && it < |queue|
      modifies this`cpus, this`queue, this`owner
      ensures Inv(Abs()) && Reaches(old(Abs()), c, Abs())
      ensures found <==> Ready(life, hasCpu, old(queue)[it])
      ensures found ==> prev != old(queue)[it] && queue == Without(old(queue), it)
      ensures found ==> cpus == old(cpus)[c := Chosen(prev, old(queue)[it])]
      ensures !found ==> queue == old(queue) && cpus == old(cpus)[c := Scanning(prev, it + 1)]
    {
      var p := queue[it];
      assert p in life;
      if Ready(life, hasCpu, p) {
        TakeInv(Abs(), c, prev, it);
        TakeDoes(Abs(), c, prev, it);
      } else {
        PassInv(Abs(), c, prev, it);
        PassDoes(Abs(), c, prev, it);
      }
      if life[p] != Runnable {
        cpus := cpus[c := Scanning(prev, it + 1)];
        return false;
      }
      if p in hasCpu {
        cpus := cpus[c := Scanning(prev, it + 1)];
        return false;
      }
      queue, owner := queue[..it] + queue[it + 1..], owner[p := c];
      cpus := cpus[c := Chosen(prev, p)];
      return true;
    }

    /** The end of the locked section: a process that is left runnable and is not queued goes behind all that are. */
    method LeaveLock(c: nat, prev: Proc, next: Proc)
      requires Inv(Abs()) && c < |cpus| && cpus[c] == Chosen(prev, next)
      modifies this`cpus, this`hasCpu, this`queue, this`lock
      ensures Inv(Abs()) && Abs() == Step(old(Abs()), Commit(c)) && Reaches(old(Abs()), c, Abs())
      ensures lock == Nobody && cpus == old(cpus)[c := Switching(prev, next)] && hasCpu == old(hasCpu) + {next}
      ensures queue == Requeue(old(queue), life, prev)
      ensures prev.Task? && prev in life && life[prev] == Runnable && prev !in old(queue) ==> queue == old(queue) + [prev]
      ensures !(prev.Task? && prev in life && life[prev] == Runnable && prev !in old(queue)) ==> queue == old(queue)
    {
      CommitForm(Abs(), c);
      ghost var after := Step(Abs(), Commit(c));
      if prev.Task? && life[prev] == Runnable {
        if prev !in queue {
          queue := queue + [prev];
        }
      }
      hasCpu, lock, cpus := hasCpu + {next}, Nobody, cpus[c := Switching(prev, next)];
      assert Abs() == after;
    }

    /** The stack switch, and schedule_tail on the new stack. */
    method SwitchStacks(c: nat, prev: Proc, next: Proc)
      requires Inv(Abs()) && c < |cpus| && cpus[c] == Switching(prev, next)
      modifies this`cpus, this`hasCpu, this`owner
      ensures Inv(Abs()) && Reaches(old(Abs()), c, Abs())
      ensures cpus == old(cpus)[c := Running(next)] && hasCpu == old(hasCpu) - {prev}
    {
      SwitchDoes(Abs(), c, prev, next);
      StepInv(Abs(), Switch(c));
      cpus := cpus[c := Tail(next, prev)];
      StepInv(Abs(), Finish(c));
      hasCpu, owner, cpus := hasCpu - {prev}, owner - {prev}, cpus[c := Running(next)];
    }

    /**
     schedule, when nobody interferes: the CPU ends up running the first ready entry of the
     queue, or its idle process; the process it left is queued again if it can still run.
     */
    method Schedule(c: nat)
      requires Inv(Abs()) && Enabled(Abs(), Enter(c))
      modifies this`cpus, this`hasCpu, this`queue, this`lock, this`owner
      ensures Inv(Abs()) && lock == Nobody && Reaches(old(Abs()), c, Abs())
      ensures var prev, next := old(cpus[c]).cur, Choice(old(queue), life, old(hasCpu), c);
              && cpus == old(cpus)[c := Running(next)]
              && hasCpu == (if next == prev then old(hasCpu) else old(hasCpu) + {next} - {prev})
              && queue == if next == prev then old(queue)
                          else Requeue(Without(old(queue), FirstReady(old(queue), life, old(hasCpu), 0)), life, prev)
    {
      var prev := cpus[c].cur;
      var next := PickNext(c, prev);
      if next == prev {
        return;
      }
      label chosen:
      SwitchTo(c, prev, next);
      ReachesThen(old(Abs()), c, old@chosen(Abs()), Abs());
      Overwritten(old(cpus), c, Chosen(prev, next), Running(next));
    }

    /** schedule after the choice. */
    method SwitchTo(c: nat, prev: Proc, next: Proc)
      requires Inv(Abs()) && c < |cpus| && cpus[c] == Chosen(prev, next)
      modifies this`cpus, this`hasCpu, this`queue, this`lock, this`owner
      ensures Inv(Abs()) && lock == Nobody && Reaches(old(Abs()), c, Abs())
      ensures cpus == old(cpus)[c := Running(next)] && hasCpu == old(hasCpu) + {next} - {prev}
      ensures queue == Requeue(old(queue), life, prev)
    {
      LeaveLock(c, prev, next);
      label left:
      SwitchStacks(c, prev, next);
      ReachesThen(old(Abs()), c, old@left(Abs()), Abs());
      Overwritten(old(cpus), c, Switching(prev, next), Running(next));
    }

    /**
     No ready process is passed over for ever: one that stands at place k of the queue runs after
     at most k + 1 undisturbed calls of schedule on one CPU.
     */
    method RunsInTurn(c: nat, p: Proc, k: nat) returns (calls: nat)
      requires Inv(Abs()) && Enabled(Abs(), Enter(c))
      requires k < |queue| && queue[k] == p && p in life && life[p] == Runnable && p !in hasCpu
      modifies this`cpus, this`hasCpu, this`queue, this`lock, this`owner
      ensures Inv(Abs()) && calls <= k + 1 && c < |cpus| && cpus[c] == Running(p)
    {
      calls := 0;
      NotCurrent(Abs(), c, p);
      while cpus[c] != Running(p)
        invariant Inv(Abs()) && c < |cpus| && cpus[c].Running? && lock == Nobody && life == old(life)
        invariant cpus[c] == Running(p) ==> calls <= k + 1
        invariant cpus[c] != Running(p) ==> calls <= k && k - calls < |queue| && queue[k - calls] == p && p !in hasCpu
        decreases if cpus[c] == Running(p) then 0 else 1 + k - calls
      {
        ghost var at := k - calls;
        NextInLine(Abs(), c, p, at);
        Schedule(c);
        calls := calls + 1;
      }
    }

    /** wake_up_process with add_process_to_rq: runnable, and queued in front unless it is queued. */
    method WakeUp(p: Proc)
      requires Inv(Abs()) && Enabled(Abs(), Wake(p)) && lock == Nobody
      modifies this`life, this`queue
      ensures Inv(Abs()) && Does(old(Abs()), [Wake(p), Enqueue(p)], Abs()) && life == old(life)[p := Runnable]
      ensures queue == if p in old(queue) then old(queue) else [p] + old(queue)
    {
      WakeInv(Abs(), p);
      life := life[p := Runnable];
      if p !in queue {
        queue := [p] + queue;
      }
    }
  }

  /** One call of schedule brings a ready process onto the CPU or one place nearer. */
  lemma NextInLine(s: State, c: nat, p: Proc, at: nat)
    requires Inv(s) && At(s, c) && at < |s.queue| && s.queue[at] == p && Is(s, p, Runnable) && p !in s.hasCpu
    ensures var j := FirstReady(s.queue, s.life, s.hasCpu, 0);
            var prev := s.cpus[c].cur;
            && j <= at && Choice(s.queue, s.life, s.hasCpu, c) == s.queue[j] != prev && (s.queue[j] == p <==> j == at)
            && (j < at ==> var q := Requeue(Without(s.queue, j), s.life, prev); at - 1 < |q| && q[at - 1] == p)
  {
    var j := FirstReady(s.queue, s.life, s.hasCpu, 0);
    NoneBefore(s.queue, s.life, s.hasCpu, 0, at);
    assert s.queue[j] in s.queue;
    NotCurrent(s, c, s.queue[j]);
  }
}
