/**
 The pipe (src/pipe.cc): a 512-byte ring between two semaphores, with both ends open and any
 number of readers and writers.

 put_char and get_char are cut at their locks. A writer enters space.down, perhaps looks again
 after sleeping, stores its byte under the pipe's lock, and calls item.up; a reader goes through
 item.down, the take, and space.up. Any process may take its next step at any time.
 */
module Pipes {
  import opened Machine
  import opened Semaphores

  const SIZE := 512

  /**
   The pipe object and where its callers are: `byte` is what each writer brought, `ready` and
   `stored` are the writers past space.down and past the store, `hungry` and `taken` the readers
   past item.down and past the take. The logs hold all bytes stored and all bytes taken.
   */
  datatype State = State(buffer: seq<char>, readIndex: nat, writeIndex: nat, space: Sem, item: Sem,
                       byte: map<Tid, char>, ready: set<Tid>, stored: set<Tid>, hungry: set<Tid>, taken: set<Tid>,
                       written: seq<char>, read: seq<char>)

  datatype Move =
    | PutDown(t: Tid, c: char) | PutLook(t: Tid) | Store(t: Tid) | PutUp(t: Tid)
    | GetDown(t: Tid) | GetLook(t: Tid) | Take(t: Tid) | GetUp(t: Tid)
    | StirPut(t: Tid) | StirGet(t: Tid)

  function Empty(buffer: seq<char>): State {
    State(buffer, 0, 0, Fresh(SIZE), Fresh(0), map[], {}, {}, {}, {}, [], [])
  }

  predicate Idle(p: State, t: Tid) {
    && !Inside(p.space, t) && t !in p.ready && t !in p.stored
    && !Inside(p.item, t) && t !in p.hungry && t !in p.taken
  }

  predicate CanMove(p: State, m: Move) {
    match m
    case PutDown(t, c) => Idle(p, t)
    case PutLook(t) => Enabled(p.space, Recheck(t))
    case Store(t) => t in p.ready
    case PutUp(t) => t in p.stored
    case GetDown(t) => Idle(p, t)
    case GetLook(t) => Enabled(p.item, Recheck(t))
    case Take(t) => t in p.hungry
    case GetUp(t) => t in p.taken
    case StirPut(t) => Enabled(p.space, Stir(t))
    case StirGet(t) => Enabled(p.item, Stir(t))
  }

  function StoreStep(p: State, t: Tid): State {
    if t !in p.byte || p.writeIndex >= |p.buffer| then p
    else p.(buffer := p.buffer[p.writeIndex := p.byte[t]], writeIndex := (p.writeIndex + 1) % SIZE,
       ready := p.ready - {t}, stored := p.stored + {t}, written := p.written + [p.byte[t]])
  }

  function TakeStep(p: State, t: Tid): State {
    if p.readIndex >= |p.buffer| then p
    else p.(readIndex := (p.readIndex + 1) % SIZE, hungry := p.hungry - {t}, taken := p.taken + {t},
       read := p.read + [p.buffer[p.readIndex]])
  }

  function Next(p: State, m: Move): State {
    match m
    case PutDown(t, c) =>
      p.(space := DownStep(p.space, t), byte := p.byte[t := c], ready := p.ready + if p.space.count > 0 then {t} else {})
    case PutLook(t) =>
      p.(space := RecheckStep(p.space, t), ready := p.ready + if t in p.space.up then {t} else {})
    case Store(t) => StoreStep(p, t)
    case PutUp(t) => p.(item := UpStep(p.item), stored := p.stored - {t})
    case GetDown(t) =>
      p.(item := DownStep(p.item, t), hungry := p.hungry + if p.item.count > 0 then {t} else {})
    case GetLook(t) =>
      p.(item := RecheckStep(p.item, t), hungry := p.hungry + if t in p.item.up then {t} else {})
    case Take(t) => TakeStep(p, t)
    case GetUp(t) => p.(space := UpStep(p.space), taken := p.taken - {t})
    case StirPut(t) => p.(space := Step(p.space, Stir(t)))
    case StirGet(t) => p.(item := Step(p.item, Stir(t)))
  }

  // ---------------------------------------------------------------- the invariant

  /** A process is at one place only, and a writer has its byte with it. */
  ghost predicate Placed(p: State) {
    && (forall t :: Inside(p.space, t) ==> t in p.byte && t !in p.ready && t !in p.stored)
    && (forall t :: t in p.ready ==> t in p.byte && t !in p.stored)
    && (forall t :: Inside(p.item, t) ==> t !in p.hungry && t !in p.taken)
    && (forall t :: t in p.hungry ==> t !in p.taken)
  }

  /** Bytes stored and not yet taken. */
  function Unread(p: State): int {
    |p.written| - |p.read|
  }

  /** Space tokens, item tokens and operations in flight. */
  function Total(p: State): nat {
    Tokens(p.space) + |p.ready| + |p.stored| + Tokens(p.item) + |p.hungry| + |p.taken|
  }

  /** Where the i-th byte of the stream lies. */
  function Cell(i: nat): (r: nat)
    ensures r < SIZE
  {
    i % SIZE
  }

  lemma CellNext(i: nat)
    ensures Cell(i + 1) == (Cell(i) + 1) % SIZE
  {
  }

  /** The unread bytes lie in the ring, in order, between the two indices. */
  ghost predicate Ring(p: State) {
    && |p.buffer| == SIZE && p.readIndex == Cell(|p.read|) && p.writeIndex == Cell(|p.written|) && p.read <= p.written
    && (forall i :: |p.read| <= i < |p.written| ==> p.buffer[Cell(i)] == p.written[i])
  }

  ghost predicate CountsOk(p: State) {
    Total(p) == SIZE && Unread(p) == |p.stored| + Tokens(p.item) + |p.hungry|
  }

  ghost predicate Sound(p: State) {
    Ok(p.space) && Ok(p.item) && Placed(p) && Ring(p) && CountsOk(p)
  }

  /** A writer about to store finds room, a reader about to take finds a byte. */
  lemma Bounded(p: State)
    requires Sound(p)
    ensures 0 <= Unread(p) <= SIZE
    ensures p.ready != {} ==> Unread(p) < SIZE
    ensures p.hungry != {} ==> Unread(p) > 0 && p.buffer[p.readIndex] == p.written[|p.read|]
  {
  }

  lemma Apart(a: nat, b: nat)
    requires a < b < a + SIZE
    ensures Cell(a) != Cell(b)
  {
  }

  lemma StoreRing(p: State, t: Tid)
    requires Ring(p) && Unread(p) < SIZE && t in p.byte
    ensures Ring(StoreStep(p, t))
  {
    CellNext(|p.written|);
    forall i | |p.read| <= i < |p.written| ensures Cell(i) != p.writeIndex {
      Apart(i, |p.written|);
    }
  }

  lemma TakeRing(p: State, t: Tid)
    requires Ring(p) && Unread(p) > 0
    ensures Ring(TakeStep(p, t))
  {
    CellNext(|p.read|);
    assert p.buffer[Cell(|p.read|)] == p.written[|p.read|];
  }

  lemma StoreKeeps(p: State, t: Tid)
    requires Placed(p) && CountsOk(p) && t in p.ready && p.writeIndex < |p.buffer|
    ensures Placed(StoreStep(p, t)) && CountsOk(StoreStep(p, t))
  {
  }

  lemma StoreSound(p: State, t: Tid)
    requires Sound(p) && t in p.ready
    ensures Sound(StoreStep(p, t))
  {
    Bounded(p);
    StoreRing(p, t);
    StoreKeeps(p, t);
  }

  lemma TakeKeeps(p: State, t: Tid)
    requires Placed(p) && CountsOk(p) && t in p.hungry && p.readIndex < |p.buffer|
    ensures Placed(TakeStep(p, t)) && CountsOk(TakeStep(p, t))
  {
  }

  lemma TakeSound(p: State, t: Tid)
    requires Sound(p) && t in p.hungry
    ensures Sound(TakeStep(p, t))
  {
    Bounded(p);
    TakeRing(p, t);
    TakeKeeps(p, t);
  }

  /** The step of a move on one of the two semaphores. */
  function OnSpace(m: Move): Event
    requires m.PutDown? || m.PutLook? || m.GetUp? || m.StirPut?
  {
    match m
    case PutDown(t, _) => Down(t)
    case PutLook(t) => Recheck(t)
    case GetUp(_) => Up
    case StirPut(t) => Stir(t)
  }

  function OnItem(m: Move): Event
    requires m.GetDown? || m.GetLook? || m.PutUp? || m.StirGet?
  {
    match m
    case GetDown(t) => Down(t)
    case GetLook(t) => Recheck(t)
    case PutUp(_) => Up
    case StirGet(t) => Stir(t)
  }

  lemma SpacePlaced(p: State, m: Move)
    requires Ok(p.space) && Placed(p) && CanMove(p, m) && (m.PutDown? || m.PutLook? || m.GetUp? || m.StirPut?)
    ensures Placed(Next(p, m))
  {
    var q := Next(p, m);
    forall t ensures Inside(q.space, t) ==> t in q.byte && t !in q.ready && t !in q.stored {
      StepInside(p.space, OnSpace(m), t);
    }
  }

  lemma OneMore<T>(s: set<T>, t: T)
    ensures t !in s ==> |s + {t}| == |s| + 1
    ensures t in s ==> |s - {t}| == |s| - 1
    ensures s + {} == s
  {
  }

  /** A token goes from the semaphore to the caller that passes, or comes back from a finished reader. */
  lemma SpaceCounts(p: State, m: Move)
    requires Ok(p.space) && CountsOk(p) && CanMove(p, m) && (m.PutDown? || m.PutLook? || m.GetUp? || m.StirPut?)
    requires m.PutLook? ==> m.t !in p.ready
    ensures CountsOk(Next(p, m))
  {
    StepTokens(p.space, OnSpace(m));
    OneMore(p.ready, m.t);
    OneMore(p.taken, m.t);
  }

  lemma SpaceMove(p: State, m: Move)
    requires Sound(p) && CanMove(p, m) && (m.PutDown? || m.PutLook? || m.GetUp? || m.StirPut?)
    ensures Sound(Next(p, m))
  {
    StepOk(p.space, OnSpace(m));
    SpaceCounts(p, m);
    SpacePlaced(p, m);
  }

  lemma ItemPlaced(p: State, m: Move)
    requires Ok(p.item) && Placed(p) && CanMove(p, m) && (m.GetDown? || m.GetLook? || m.PutUp? || m.StirGet?)
    ensures Placed(Next(p, m))
  {
    var q := Next(p, m);
    forall t ensures Inside(q.item, t) ==> t !in q.hungry && t !in q.taken {
      StepInside(p.item, OnItem(m), t);
    }
  }

  lemma ItemCounts(p: State, m: Move)
    requires Ok(p.item) && CountsOk(p) && CanMove(p, m) && (m.GetDown? || m.GetLook? || m.PutUp? || m.StirGet?)
    requires m.GetLook? ==> m.t !in p.hungry
    ensures CountsOk(Next(p, m))
  {
    StepTokens(p.item, OnItem(m));
    OneMore(p.hungry, m.t);
    OneMore(p.stored, m.t);
  }

  lemma ItemMove(p: State, m: Move)
    requires Sound(p) && CanMove(p, m) && (m.GetDown? || m.GetLook? || m.PutUp? || m.StirGet?)
    ensures Sound(Next(p, m))
  {
    StepOk(p.item, OnItem(m));
    ItemCounts(p, m);
    ItemPlaced(p, m);
  }

  /** Every step of every process keeps the invariant. */
  lemma NextSound(p: State, m: Move)
    requires Sound(p) && CanMove(p, m)
    ensures Sound(Next(p, m))
  {
    match m
    case Store(t) => StoreSound(p, t);
    case Take(t) => TakeSound(p, t);
    case PutDown(_, _) | PutLook(_) | GetUp(_) | StirPut(_) => SpaceMove(p, m);
    case GetDown(_) | GetLook(_) | PutUp(_) | StirGet(_) => ItemMove(p, m);
  }

  // ---------------------------------------------------------------- runs

  predicate Legal(p: State, ms: seq<Move>) {
    ms == [] || (Legal(p, ms[..|ms| - 1]) && CanMove(Run(p, ms[..|ms| - 1]), ms[|ms| - 1]))
  }

  function Run(p: State, ms: seq<Move>): State {
    if ms == [] then p else Next(Run(p, ms[..|ms| - 1]), ms[|ms| - 1])
  }

  /**
   After every run of any readers and writers: tokens and operations in flight total 512, the
   bytes taken are the first bytes stored, and those not yet taken are still in the ring.
   */
  lemma {:induction false} PipeLaws(buffer: seq<char>, ms: seq<Move>)
    requires |buffer| == SIZE && Legal(Empty(buffer), ms)
    ensures var p := Run(Empty(buffer), ms);
            && Sound(p) && Total(p) == 512 && p.read <= p.written && |p.written| <= |p.read| + 512
            && forall i :: |p.read| <= i < |p.written| ==> p.buffer[i % 512] == p.written[i]
  {
    if ms != [] {
      PipeLaws(buffer, ms[..|ms| - 1]);
      NextSound(Run(Empty(buffer), ms[..|ms| - 1]), ms[|ms| - 1]);
    }
    Bounded(Run(Empty(buffer), ms));
  }

  // ---------------------------------------------------------------- one process's bytes

  /** The bytes that t has brought to put_char, in the order of its calls. */
  function Given(ms: seq<Move>, t: Tid): seq<char> {
    if ms == [] then []
    else
      var m := ms[|ms| - 1];
      Given(ms[..|ms| - 1], t) + if m.PutDown? && m.t == t then [m.c] else []
  }

  /** Who stored each byte of the stream, and who took each byte. */
  function Writers(ms: seq<Move>): seq<Tid> {
    if ms == [] then []
    else
      var m := ms[|ms| - 1];
      Writers(ms[..|ms| - 1]) + if m.Store? then [m.t] else []
  }

  function Readers(ms: seq<Move>): seq<Tid> {
    if ms == [] then []
    else
      var m := ms[|ms| - 1];
      Readers(ms[..|ms| - 1]) + if m.Take? then [m.t] else []
  }

  /** The bytes of a log that are t's. */
  function Of(log: seq<char>, who: seq<Tid>, t: Tid): seq<char>
    requires |log| == |who|
  {
    if log == [] then []
    else
      var n := |log| - 1;
      Of(log[..n], who[..n], t) + if who[n] == t then [log[n]] else []
  }

  lemma OfAppend(log: seq<char>, who: seq<Tid>, t: Tid, c: char, w: Tid)
    requires |log| == |who|
    ensures Of(log + [c], who + [w], t) == Of(log, who, t) + if w == t then [c] else []
  {
    assert (log + [c])[..|log|] == log && (who + [w])[..|who|] == who;
  }

  /** The byte that t has brought and not yet stored. */
  function InFlight(p: State, t: Tid): seq<char> {
    if (Inside(p.space, t) || t in p.ready) && t in p.byte then [p.byte[t]] else []
  }

  /** The logs grow by the stores and takes, each of a byte in flight. */
  lemma MoveLogs(p: State, m: Move)
    requires Sound(p) && CanMove(p, m)
    ensures var q := Next(p, m);
            && (q.written == if m.Store? then (assert m.t in p.byte; p.written + [p.byte[m.t]]) else p.written)
            && (if m.Take? then |q.read| == |p.read| + 1 else q.read == p.read)
  {
  }

  /** What t has in flight changes only by its own PutDown and its own Store. */
  lemma MoveFlight(p: State, m: Move, t: Tid)
    requires Ok(p.space) && Placed(p) && CanMove(p, m) && (m.Store? ==> p.writeIndex < |p.buffer|)
    ensures InFlight(Next(p, m), t) ==
            if m.PutDown? && m.t == t then [m.c] else if m.Store? && m.t == t then [] else InFlight(p, t)
    ensures m.PutDown? && m.t == t ==> InFlight(p, t) == []
    ensures m.Store? && m.t == t ==> t in p.byte && InFlight(p, t) == [p.byte[t]]
  {
    match m
    case PutDown(_, _) | PutLook(_) | GetUp(_) | StirPut(_) => StepInside(p.space, OnSpace(m), t);
    case _ =>
  }

  lemma {:induction false} LogLengths(buffer: seq<char>, ms: seq<Move>)
    requires |buffer| == SIZE && Legal(Empty(buffer), ms)
    ensures var p := Run(Empty(buffer), ms); |p.written| == |Writers(ms)| && |p.read| == |Readers(ms)|
  {
    if ms != [] {
      var most := ms[..|ms| - 1];
      LogLengths(buffer, most);
      PipeLaws(buffer, most);
      MoveLogs(Run(Empty(buffer), most), ms[|ms| - 1]);
    }
  }

  /** The bytes of the stream that are t's, and the one in flight, are those that t has brought. */
  predicate Accounted(p: State, who: seq<Tid>, given: seq<char>, t: Tid) {
    |p.written| == |who| && Of(p.written, who, t) + InFlight(p, t) == given
  }

  lemma AccountStep(p: State, m: Move, who: seq<Tid>, given: seq<char>, t: Tid)
    requires Sound(p) && CanMove(p, m) && Accounted(p, who, given, t)
    ensures Accounted(Next(p, m), who + (if m.Store? then [m.t] else []),
                      given + (if m.PutDown? && m.t == t then [m.c] else []), t)
  {
    MoveLogs(p, m);
    MoveFlight(p, m, t);
    var stored := Of(p.written, who, t);
    if m.Store? {
      OfAppend(p.written, who, t, p.byte[m.t], m.t);
      assert m.t != t ==> stored + [] == stored;
      assert (stored + [p.byte[m.t]]) + [] == stored + [p.byte[m.t]];
      assert given + [] == given;
    } else {
      assert who + [] == who;
      if m.PutDown? && m.t == t { assert stored + [] == stored; } else { assert given + [] == given; }
    }
  }

  /**
   However the processes interleave: the bytes of the stream that a process stored are, in their
   order, the bytes it brought, all but the one it may have in flight.
   */
  lemma {:induction false} BytesInOrder(buffer: seq<char>, ms: seq<Move>, t: Tid)
    requires |buffer| == SIZE && Legal(Empty(buffer), ms)
    ensures Accounted(Run(Empty(buffer), ms), Writers(ms), Given(ms, t), t)
  {
    if ms != [] {
      var most := ms[..|ms| - 1];
      BytesInOrder(buffer, most, t);
      PipeLaws(buffer, most);
      AccountStep(Run(Empty(buffer), most), ms[|ms| - 1], Writers(most), Given(most, t), t);
    }
  }

  lemma {:induction false} Joined(ms0: seq<Move>, ms1: seq<Move>, t: Tid)
    ensures Given(ms0 + ms1, t) == Given(ms0, t) + Given(ms1, t)
    ensures Writers(ms0 + ms1) == Writers(ms0) + Writers(ms1) && Readers(ms0 + ms1) == Readers(ms0) + Readers(ms1)
  {
    if ms1 == [] {
      assert ms0 + ms1 == ms0;
    } else {
      var n := |ms1| - 1;
      assert (ms0 + ms1)[..|ms0| + n] == ms0 + ms1[..n];
      Joined(ms0, ms1[..n], t);
    }
  }

  lemma {:induction false} OfJoined(a: seq<char>, wa: seq<Tid>, b: seq<char>, wb: seq<Tid>, t: Tid)
    requires |a| == |wa| && |b| == |wb|
    ensures Of(a + b, wa + wb, t) == Of(a, wa, t) + Of(b, wb, t)
  {
    if b == [] {
      assert a + b == a && wa + wb == wa;
    } else {
      var n := |b| - 1;
      assert (a + b)[..|a| + n] == a + b[..n] && (wa + wb)[..|a| + n] == wa + wb[..n];
      OfJoined(a, wa, b[..n], wb[..n], t);
    }
  }

  /** The logs only grow. */
  lemma {:induction false} LogsGrow(buffer: seq<char>, ms0: seq<Move>, ms1: seq<Move>)
    requires |buffer| == SIZE && Legal(Empty(buffer), ms0 + ms1)
    ensures Legal(Empty(buffer), ms0)
    ensures var p, q := Run(Empty(buffer), ms0), Run(Empty(buffer), ms0 + ms1); p.written <= q.written && |p.read| <= |q.read|
  {
    if ms1 == [] {
      assert ms0 + ms1 == ms0;
    } else {
      var n := |ms1| - 1;
      assert (ms0 + ms1)[..|ms0| + n] == ms0 + ms1[..n];
      LogsGrow(buffer, ms0, ms1[..n]);
      PipeLaws(buffer, ms0 + ms1[..n]);
      MoveLogs(Run(Empty(buffer), ms0 + ms1[..n]), ms1[n]);
    }
  }

  /**
   write: between two moments at which t has no byte in flight, whatever the others do, the
   stream gains from t exactly the bytes of its calls, in their order.
   */
  lemma WriteCall(buffer: seq<char>, ms0: seq<Move>, ms1: seq<Move>, t: Tid)
    requires |buffer| == SIZE && Legal(Empty(buffer), ms0 + ms1)
    requires InFlight(Run(Empty(buffer), ms0), t) == [] && InFlight(Run(Empty(buffer), ms0 + ms1), t) == []
    ensures var p, q := Run(Empty(buffer), ms0), Run(Empty(buffer), ms0 + ms1);
            && p.written <= q.written && |q.written| - |p.written| == |Writers(ms1)|
            && Of(q.written[|p.written|..], Writers(ms1), t) == Given(ms1, t)
  {
    LogsGrow(buffer, ms0, ms1);
    BytesInOrder(buffer, ms0, t);
    BytesInOrder(buffer, ms0 + ms1, t);
    Joined(ms0, ms1, t);
    AccountSince(Run(Empty(buffer), ms0), Run(Empty(buffer), ms0 + ms1), Writers(ms0), Writers(ms1), Given(ms0, t), Given(ms1, t), t);
  }

  lemma AccountSince(p: State, q: State, who0: seq<Tid>, who1: seq<Tid>, given0: seq<char>, given1: seq<char>, t: Tid)
    requires Accounted(p, who0, given0, t) && Accounted(q, who0 + who1, given0 + given1, t)
    requires InFlight(p, t) == [] && InFlight(q, t) == [] && p.written <= q.written
    ensures |q.written| - |p.written| == |who1| && Of(q.written[|p.written|..], who1, t) == given1
  {
    assert Of(p.written, who0, t) + [] == Of(p.written, who0, t);
    assert Of(q.written, who0 + who1, t) + [] == Of(q.written, who0 + who1, t);
    OfSince(p.written, q.written, who0, who1, given0, given1, t);
  }

  lemma OfSince(w: seq<char>, all: seq<char>, who0: seq<Tid>, who1: seq<Tid>, given0: seq<char>, given1: seq<char>, t: Tid)
    requires w <= all && |w| == |who0| && |all| == |who0| + |who1|
    requires Of(w, who0, t) == given0 && Of(all, who0 + who1, t) == given0 + given1
    ensures Of(all[|w|..], who1, t) == given1
  {
    OfJoined(w, who0, all[|w|..], who1, t);
    assert all == w + all[|w|..];
    Cancel(given0, Of(all[|w|..], who1, t), given1);
  }

  lemma Cancel(a: seq<char>, b: seq<char>, c: seq<char>)
    requires a + b == a + c
    ensures b == c
  {
    assert (a + b)[|a|..] == b && (a + c)[|a|..] == c;
  }

  lemma {:induction false} OfAlone(log: seq<char>, who: seq<Tid>, t: Tid)
    requires |log| == |who| && forall i :: 0 <= i < |who| ==> who[i] == t
    ensures Of(log, who, t) == log
  {
    if log != [] { OfAlone(log[..|log| - 1], who[..|who| - 1], t); }
  }

  /** read: a process that is alone in taking gets a contiguous slice of the stream. */
  lemma ReadCall(buffer: seq<char>, ms0: seq<Move>, ms1: seq<Move>, t: Tid)
    requires |buffer| == SIZE && Legal(Empty(buffer), ms0 + ms1)
    requires forall i :: 0 <= i < |Readers(ms1)| ==> Readers(ms1)[i] == t
    ensures var p, q := Run(Empty(buffer), ms0), Run(Empty(buffer), ms0 + ms1);
            && |p.read| <= |q.read| <= |q.written| && |q.read| - |p.read| == |Readers(ms1)|
            && Of(q.read[|p.read|..], Readers(ms1), t) == q.written[|p.read|..|q.read|]
  {
    LogsGrow(buffer, ms0, ms1);
    LogLengths(buffer, ms0);
    LogLengths(buffer, ms0 + ms1);
    Joined(ms0, ms1, t);
    PipeLaws(buffer, ms0 + ms1);
    var p, q := Run(Empty(buffer), ms0), Run(Empty(buffer), ms0 + ms1);
    SliceAlone(q.read, q.written, |p.read|, Readers(ms1), t);
  }

  lemma SliceAlone(read: seq<char>, written: seq<char>, k: nat, who: seq<Tid>, t: Tid)
    requires read <= written && k + |who| == |read| && forall i :: 0 <= i < |who| ==> who[i] == t
    ensures Of(read[k..], who, t) == written[k..|read|]
  {
    OfAlone(read[k..], who, t);
    assert read[k..] == written[k..|read|];
  }

  /** The next step of a call that is not blocked. */
  predicate Working(p: State, m: Move) {
    match m
    case PutLook(t) => t in p.space.up
    case GetLook(t) => t in p.item.up
    case Store(_) | PutUp(_) | Take(_) | GetUp(_) => CanMove(p, m)
    case _ => false
  }

  /** Readers and writers never wait for each other all at once: some call can go on, and may move. */
  lemma NoStandstill(p: State) returns (m: Move)
    requires Sound(p) && p.space.waiters != [] && p.item.waiters != []
    ensures Working(p, m) && CanMove(p, m)
  {
    if t :| t in p.ready {
      m := Store(t);
    } else if t :| t in p.stored {
      m := PutUp(t);
    } else if t :| t in p.hungry {
      m := Take(t);
    } else if t :| t in p.taken {
      m := GetUp(t);
    } else if t :| t in p.space.up {
      m := PutLook(t);
    } else {
      var t :| t in p.item.up;
      m := GetLook(t);
    }
  }

  // ---------------------------------------------------------------- the object

  class Pipe {
    const buffer: array<char>
    const space: Semaphore
    const item: Semaphore
    var readIndex: nat
    var writeIndex: nat
    ghost var byte: map<Tid, char>
    ghost var ready: set<Tid>
    ghost var stored: set<Tid>
    ghost var hungry: set<Tid>
    ghost var taken: set<Tid>
    ghost var written: seq<char>
    ghost var read: seq<char>

    ghost function Abs(): State
      reads this, buffer, space, item
    {
      State(buffer[..], readIndex, writeIndex, space.State(), item.State(),
            byte, ready, stored, hungry, taken, written, read)
    }

    ghost predicate Valid()
      reads this, buffer, space, item
    {
      space != item && Sound(Abs())
    }

    constructor ()
      ensures Valid() && fresh(buffer) && fresh(space) && fresh(item) && Abs() == Empty(buffer[..])
    {
      buffer := new char[SIZE];
      space := new Semaphore(SIZE);
      item := new Semaphore(0);
      readIndex, writeIndex := 0, 0;
      byte, ready, stored, hungry, taken, written, read := map[], {}, {}, {}, {}, [], [];
    }

    /** put_char up to its space token; false when the writer has gone to sleep. */
    method BeginPut(t: Tid, c: char) returns (passed: bool)
      requires Valid() && Idle(Abs(), t)
      modifies this`byte, this`ready, space
      ensures Abs() == Next(old(Abs()), PutDown(t, c)) && Valid() && passed == (t in ready)
    {
      NextSound(Abs(), PutDown(t, c));
      passed := space.DownEntry(t);
      byte, ready := byte[t := c], ready + if passed then {t} else {};
    }

    /** The locked section of put_char. */
    method StoreByte(t: Tid, c: char)
      requires Valid() && t in ready && byte[t] == c
      modifies this`writeIndex, this`ready, this`stored, this`written, buffer
      ensures Abs() == Next(old(Abs()), Store(t)) && Valid() && written == old(written) + [c]
    {
      NextSound(Abs(), Store(t));
      PutInRing(t, c);
    }

    method PutInRing(t: Tid, c: char)
      requires writeIndex < buffer.Length && t in byte && byte[t] == c
      modifies this`writeIndex, this`ready, this`stored, this`written, buffer
      ensures Abs() == StoreStep(old(Abs()), t) && written == old(written) + [c]
    {
      buffer[writeIndex] := c;
      assert buffer[..] == old(buffer[..])[writeIndex := c];
      writeIndex := (writeIndex + 1) % SIZE;
      ready, stored, written := ready - {t}, stored + {t}, written + [c];
    }

    /** The end of put_char. */
    method EndPut(t: Tid)
      requires Valid() && t in stored
      modifies this`stored, item
      ensures Abs() == Next(old(Abs()), PutUp(t)) && Valid()
    {
      NextSound(Abs(), PutUp(t));
      item.UpEntry();
      stored := stored - {t};
    }

    /** get_char up to its item token. */
    method BeginGet(t: Tid) returns (passed: bool)
      requires Valid() && Idle(Abs(), t)
      modifies this`hungry, item
      ensures Abs() == Next(old(Abs()), GetDown(t)) && Valid() && passed == (t in hungry)
    {
      NextSound(Abs(), GetDown(t));
      passed := item.DownEntry(t);
      hungry := hungry + if passed then {t} else {};
    }

    /** The locked section of get_char: the oldest byte not yet taken. */
    method TakeByte(t: Tid) returns (c: char)
      requires Valid() && t in hungry
      modifies this`readIndex, this`hungry, this`taken, this`read
      ensures Abs() == Next(old(Abs()), Take(t)) && Valid()
      ensures old(|read|) < |written| && c == written[old(|read|)]
    {
      NextSound(Abs(), Take(t));
      Bounded(Abs());
      c := TakeFromRing(t);
    }

    method TakeFromRing(t: Tid) returns (c: char)
      requires readIndex < buffer.Length
      modifies this`readIndex, this`hungry, this`taken, this`read
      ensures Abs() == TakeStep(old(Abs()), t) && c == buffer[old(readIndex)]
    {
      c := buffer[readIndex];
      readIndex := (readIndex + 1) % SIZE;
      hungry, taken, read := hungry - {t}, taken + {t}, read + [c];
    }

    /** The end of get_char. */
    method EndGet(t: Tid)
      requires Valid() && t in taken
      modifies this`taken, space
      ensures Abs() == Next(old(Abs()), GetUp(t)) && Valid()
    {
      NextSound(Abs(), GetUp(t));
      space.UpEntry();
      taken := taken - {t};
    }

    /** A writer or a reader back from schedule. */
    method LookPut(t: Tid) returns (passed: bool)
      requires Valid() && Enabled(space.State(), Recheck(t))
      modifies this`ready, space
      ensures Abs() == Next(old(Abs()), PutLook(t)) && Valid() && passed == (t in ready)
    {
      NextSound(Abs(), PutLook(t));
      passed := space.DownRecheck(t);
      ready := ready + if passed then {t} else {};
    }

    method LookGet(t: Tid) returns (passed: bool)
      requires Valid() && Enabled(item.State(), Recheck(t))
      modifies this`hungry, item
      ensures Abs() == Next(old(Abs()), GetLook(t)) && Valid() && passed == (t in hungry)
    {
      NextSound(Abs(), GetLook(t));
      passed := item.DownRecheck(t);
      hungry := hungry + if passed then {t} else {};
    }
  }
}
