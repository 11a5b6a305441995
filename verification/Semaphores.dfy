/**
 The hand-off semaphore (src/sem.cc) as interleaved critical sections.

 Every section that runs under the semaphore's lock is one step: the entry of down, up, and the
 re-check that a process makes whenever it comes back from schedule. A waiter may be woken for any
 reason at any time (Stir), so what lets it through is its flag and never the wake-up. The laws at
 the end hold after every legal sequence of steps, for any number of processes.
 */
module Semaphores {
  import opened Machine

  type Tid = nat

  /**
   count, the wait list, the waiters whose flag is set but which have not looked yet, the waiters
   asleep; and two logs: to whom tokens went, in order, and whose down has returned.
   */
  datatype Sem = Sem(count: nat, waiters: seq<Tid>, up: set<Tid>, asleep: set<Tid>,
                     granted: seq<Tid>, through: multiset<Tid>)

  datatype Event = Down(t: Tid) | Up | Recheck(t: Tid) | Stir(t: Tid)

  function Fresh(count: nat): Sem {
    Sem(count, [], {}, {}, [], multiset{})
  }

  /** t has called down and not returned. */
  predicate Inside(s: Sem, t: Tid) {
    t in s.waiters || t in s.up
  }

  predicate Enabled(s: Sem, e: Event) {
    match e
    case Down(t) => !Inside(s, t)
    case Up => true
    case Recheck(t) => Inside(s, t) && t !in s.asleep
    case Stir(t) => t in s.asleep
  }

  function DownStep(s: Sem, t: Tid): Sem {
    if s.count > 0 then s.(count := s.count - 1, granted := s.granted + [t], through := s.through + multiset{t})
    else s.(waiters := s.waiters + [t], asleep := s.asleep + {t})
  }

  function UpStep(s: Sem): Sem {
    if s.waiters == [] then s.(count := s.count + 1)
    else
      var w := s.waiters[0];
      s.(waiters := s.waiters[1..], up := s.up + {w}, asleep := s.asleep - {w}, granted := s.granted + [w])
  }

  function RecheckStep(s: Sem, t: Tid): Sem {
    if t in s.up then s.(up := s.up - {t}, through := s.through + multiset{t})
    else s.(asleep := s.asleep + {t})
  }

  function Step(s: Sem, e: Event): Sem {
    match e
    case Down(t) => DownStep(s, t)
    case Up => UpStep(s)
    case Recheck(t) => RecheckStep(s, t)
    case Stir(t) => s.(asleep := s.asleep - {t})
  }

  // ---------------------------------------------------------------- what every step keeps

  /**
   Nobody waits twice or holds a flag while waiting; only waiters sleep; a positive count means no
   waiters; the tokens granted are those of the calls that returned and of the set flags.
   */
  ghost predicate Ok(s: Sem) {
    && NoDup(s.waiters) && (forall t :: t in s.waiters ==> t !in s.up)
    && (forall t :: t in s.asleep ==> t in s.waiters)
    && (s.count > 0 ==> s.waiters == [])
    && multiset(s.granted) == s.through + multiset(s.up)
  }

  lemma UpOk(s: Sem)
    requires Ok(s) && s.waiters != []
    ensures Ok(UpStep(s))
  {
    var w, s' := s.waiters[0], UpStep(s);
    assert s.waiters == [w] + s.waiters[1..];
    assert multiset(s'.up) == multiset(s.up) + multiset{w};
  }

  lemma RecheckOk(s: Sem, t: Tid)
    requires Ok(s) && Inside(s, t)
    ensures Ok(RecheckStep(s, t))
  {
    if t in s.up { assert multiset(s.up) == multiset(s.up - {t}) + multiset{t}; }
  }

  lemma StepOk(s: Sem, e: Event)
    requires Ok(s) && Enabled(s, e)
    ensures Ok(Step(s, e))
  {
    match e
    case Up => if s.waiters != [] { UpOk(s); }
    case Recheck(t) => RecheckOk(s, t);
    case _ =>
  }

  /** The order of grants and waiters grows at its end, by the callers of down. */
  lemma StepOrder(s: Sem, e: Event)
    requires Ok(s)
    ensures var s' := Step(s, e);
            && s'.granted + s'.waiters == s.granted + s.waiters + (if e.Down? then [e.t] else [])
            && |s'.granted| + s'.count == |s.granted| + s.count + if e.Up? then 1 else 0
  {
    var line := s.granted + s.waiters;
    match e
    case Down(t) => assert Step(s, e).granted + Step(s, e).waiters == line + [t];
    case Up =>
      if s.waiters != [] { assert s.granted + [s.waiters[0]] + s.waiters[1..] == line; }
      assert line + [] == line;
    case _ => assert line + [] == line;
  }

  /** Tokens not yet used: the count, and those of waiters that have not looked. */
  function Tokens(s: Sem): nat {
    s.count + |s.up|
  }

  /** Who is inside down after a step: a blocked caller joins, a waiter that passes leaves. */
  lemma StepInside(s: Sem, e: Event, t: Tid)
    requires Ok(s)
    ensures Inside(Step(s, e), t) <==>
              match e
              case Down(u) => Inside(s, t) || (t == u && s.count == 0)
              case Recheck(u) => Inside(s, t) && !(t == u && t in s.up)
              case _ => Inside(s, t)
  {
    if e == Up && s.waiters != [] { assert s.waiters == [s.waiters[0]] + s.waiters[1..]; }
  }

  /** Tokens out: one for a caller that passes; tokens in: one for each up. */
  lemma StepTokens(s: Sem, e: Event)
    requires Ok(s)
    ensures Tokens(Step(s, e)) == Tokens(s) +
              match e
              case Down(t) => if s.count > 0 then -1 else 0
              case Recheck(t) => if t in s.up then -1 else 0
              case Up => 1
              case Stir(t) => 0
  {
    if e == Up && s.waiters != [] { assert s.waiters[0] in s.waiters; }
  }

  // ---------------------------------------------------------------- runs

  predicate Legal(s: Sem, es: seq<Event>) {
    es == [] || (Legal(s, es[..|es| - 1]) && Enabled(Run(s, es[..|es| - 1]), es[|es| - 1]))
  }

  function Run(s: Sem, es: seq<Event>): Sem {
    if es == [] then s else Step(Run(s, es[..|es| - 1]), es[|es| - 1])
  }

  /** The calls of up, and the callers of down in the order they came. */
  function Ups(es: seq<Event>): nat {
    if es == [] then 0 else Ups(es[..|es| - 1]) + if es[|es| - 1].Up? then 1 else 0
  }

  function Callers(es: seq<Event>): seq<Tid> {
    if es == [] then [] else Callers(es[..|es| - 1]) + if es[|es| - 1].Down? then [es[|es| - 1].t] else []
  }

  /**
   After every run from a fresh semaphore: the initial count and the ups equal the tokens granted
   and the count left; a positive count means that nobody waits; tokens have gone to the callers in
   the order they called, and those still without one wait in that order.
   */
  lemma {:induction false} SemaphoreLaws(init: nat, es: seq<Event>)
    requires Legal(Fresh(init), es)
    ensures var s := Run(Fresh(init), es);
            && Ok(s) && init + Ups(es) == |s.granted| + s.count
            && s.granted + s.waiters == Callers(es)
  {
    if es != [] {
      var p, e := es[..|es| - 1], es[|es| - 1];
      SemaphoreLaws(init, p);
      var s := Run(Fresh(init), p);
      StepOk(s, e);
      StepOrder(s, e);
    }
  }

  /** A re-check lets its process through exactly when a token of its own is outstanding. */
  lemma RecheckExact(init: nat, es: seq<Event>, t: Tid)
    requires Legal(Fresh(init), es) && Enabled(Run(Fresh(init), es), Recheck(t))
    ensures var s := Run(Fresh(init), es);
            Step(s, Recheck(t)).through == (if multiset(s.granted)[t] > s.through[t] then s.through + multiset{t} else s.through)
  {
    SemaphoreLaws(init, es);
  }

  /** No lost wake-up: a process that holds a token and has not yet passed is not asleep. */
  lemma GrantedAwake(init: nat, es: seq<Event>, t: Tid)
    requires Legal(Fresh(init), es)
    ensures var s := Run(Fresh(init), es);
            multiset(s.granted)[t] > s.through[t] ==> t !in s.asleep && Enabled(s, Recheck(t))
  {
    SemaphoreLaws(init, es);
  }

  // ---------------------------------------------------------------- the object

  class Semaphore {
    var count: nat
    var waitList: seq<Tid>
    var up: set<Tid>
    var asleep: set<Tid>
    ghost var granted: seq<Tid>
    ghost var through: multiset<Tid>

    ghost function State(): Sem
      reads this
    {
      Sem(count, waitList, up, asleep, granted, through)
    }

    constructor (count: nat)
      ensures State() == Fresh(count)
    {
      this.count, waitList, up, asleep := count, [], {}, {};
      granted, through := [], multiset{};
    }

    /** The locked entry of down; false when the caller joined the wait list and went to sleep. */
    method DownEntry(t: Tid) returns (passed: bool)
      requires !Inside(State(), t)
      modifies this
      ensures State() == DownStep(old(State()), t) && passed == (t in State().through - old(State()).through)
      ensures !passed ==> waitList == old(waitList) + [t] && t in asleep
    {
      passed := count > 0;
      if passed {
        count := count - 1;
        granted, through := granted + [t], through + multiset{t};
      } else {
        waitList, asleep := waitList + [t], asleep + {t};
      }
    }

    method UpEntry()
      modifies this
      ensures State() == UpStep(old(State()))
    {
      if waitList == [] {
        count := count + 1;
      } else {
        var w := waitList[0];
        waitList := waitList[1..];
        up, asleep := up + {w}, asleep - {w};
        granted := granted + [w];
      }
    }

    /** Back from schedule, under the lock again: leave when the flag is set, else sleep again. */
    method DownRecheck(t: Tid) returns (passed: bool)
      requires Enabled(State(), Recheck(t))
      modifies this
      ensures State() == RecheckStep(old(State()), t) && passed == (t in State().through - old(State()).through)
      ensures !passed ==> t in asleep
    {
      passed := t in up;
      if passed {
        up, through := up - {t}, through + multiset{t};
      } else {
        asleep := asleep + {t};
      }
    }
  }
}
