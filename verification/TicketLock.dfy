/**
 * The lock of a poll session: a ring buffer of six 8-bit tickets under a mutex. Threads take a
 * ticket, wait for their turn, and leave. A waiter that times out, and a thread that finds the
 * ring full, return without releasing the mutex; from then on nobody else can take it.
 */
module TicketLock {
  newtype uint8 = x: int | 0 <= x < 256

  const QUEUE_SIZE: uint8 := 6

  /** The three fields of struct nc_pollsession that make up the queue. */
  datatype Ring = Ring(queue: seq<uint8>, begin: uint8, len: uint8) {
    predicate Valid() {
      |queue| == QUEUE_SIZE as int && begin < QUEUE_SIZE && len <= QUEUE_SIZE
    }

    /** The ticket i places behind the head. */
    function At(i: nat): uint8
      requires Valid() && i < QUEUE_SIZE as int
    {
      queue[(begin as int + i) % QUEUE_SIZE as int]
    }

    /** The tickets in order. */
    function Contents(): (c: seq<uint8>)
      requires Valid()
      ensures |c| == len as int && forall i :: 0 <= i < |c| ==> c[i] == At(i)
    {
      seq(len as int, i requires 0 <= i < len as int => At(i))
    }

    function Head(): (ticket: uint8)
      requires Valid()
      ensures len > 0 ==> ticket == Contents()[0]
    {
      queue[begin]
    }

    /** Index of the last ticket of a queue of the given length. */
    function LastIndex(length: uint8): (k: uint8)
      requires Valid() && 1 <= length <= QUEUE_SIZE
      ensures k as int == (begin as int + length as int - 1) % QUEUE_SIZE as int
    {
      var last := begin + length - 1;
      if last > QUEUE_SIZE - 1 then last - QUEUE_SIZE else last
    }

    /** One more than the last ticket modulo 256, or 0 in an empty queue. */
    function NextTicket(): (ticket: uint8)
      requires Valid()
      ensures ticket == if len == 0 then 0 else Succ(Contents()[len as int - 1])
    {
      if len > 0 then Succ(queue[LastIndex(len)]) else 0
    }

    function Push(ticket: uint8): (r: Ring)
      requires Valid() && len < QUEUE_SIZE
      ensures r.Valid() && r.Contents() == Contents() + [ticket]
    {
      Ring(queue[LastIndex(len + 1) := ticket], begin, len + 1)
    }

    /** The counter is 8 bits wide and wraps below zero. */
    function Pop(): (r: Ring)
      requires Valid()
      ensures len > 0 ==> r.Valid() && r.Contents() == Contents()[1..]
    {
      Ring(queue, if begin < QUEUE_SIZE - 1 then begin + 1 else 0, if len == 0 then 255 else len - 1)
    }
  }

  function Succ(x: uint8): uint8 {
    ((x as int + 1) % 256) as uint8
  }

  /** Each ticket is one more than the one before it, modulo 256. */
  predicate Consecutive(c: seq<uint8>) {
    forall i :: 0 < i < |c| ==> c[i] == Succ(c[i - 1])
  }

  lemma {:induction false} TicketDistance(c: seq<uint8>, i: nat)
    requires Consecutive(c) && i < |c|
    ensures c[i] as int == (c[0] as int + i) % 256
  {
    if i > 0 { TicketDistance(c, i - 1); }
  }

  /** Queued tickets are pairwise distinct. */
  lemma TicketsDistinct(c: seq<uint8>, i: nat, j: nat)
    requires Consecutive(c) && i < j < |c| <= 256
    ensures c[i] != c[j]
  {
    TicketDistance(c, i);
    TicketDistance(c, j);
  }

  /** The queue as nc_ps_lock() and nc_ps_unlock() update it in place. */
  class TicketQueue {
    const queue: array<uint8>
    var begin: uint8
    var len: uint8

    ghost function Snapshot(): Ring
      reads this, queue
    {
      Ring(queue[..], begin, len)
    }

    constructor ()
      ensures Snapshot().Valid() && Snapshot().Contents() == [] && fresh(queue)
    {
      queue := new uint8[QUEUE_SIZE as int](_ => 0);
      begin, len := 0, 0;
    }

    /** Takes a ticket, the successor of the one taken before; none if the ring is full. */
    method Enqueue() returns (ok: bool, ourId: uint8)
      requires Snapshot().Valid()
      modifies this`len, queue
      ensures Snapshot().Valid() && ok == (old(len) < QUEUE_SIZE)
      ensures ourId == old(Snapshot()).NextTicket()
      ensures ok ==> Snapshot() == old(Snapshot()).Push(ourId)
      ensures ok ==> Snapshot().Contents() == old(Snapshot()).Contents() + [ourId]
      ensures !ok ==> Snapshot() == old(Snapshot())
    {
      var queueLast: uint8;
      if len > 0 {
        queueLast := begin + len - 1;
        if queueLast > QUEUE_SIZE - 1 {
          queueLast := queueLast - QUEUE_SIZE;
        }
        ourId := ((queue[queueLast] as int + 1) % 256) as uint8;
      } else {
        ourId := 0;
      }
      if len == QUEUE_SIZE {
        return false, ourId;
      }
      len := len + 1;
      queueLast := begin + len - 1;
      if queueLast > QUEUE_SIZE - 1 {
        queueLast := queueLast - QUEUE_SIZE;
      }
      queue[queueLast] := ourId;
      return true, ourId;
    }

    /** Drops the ticket at the head, whoever it belongs to. */
    method Dequeue()
      requires Snapshot().Valid()
      modifies this`begin, this`len
      ensures Snapshot() == old(Snapshot()).Pop()
      ensures old(len) > 0 ==> Snapshot().Contents() == old(Snapshot()).Contents()[1..]
    {
      begin := if begin < QUEUE_SIZE - 1 then begin + 1 else 0;
      len := if len == 0 then 255 else len - 1;
    }
  }

  // ---------------------------------------------------------------- the protocol

  type Thread = nat

  datatype Pc = Outside | Waiting(ticket: uint8) | Inside

  /** The queued tickets, whether the mutex was leaked, the threads, and two histories. */
  datatype State = State(tickets: seq<uint8>, leaked: bool, pcs: map<Thread, Pc>,
                         arrivals: seq<Thread>, entered: seq<Thread>)

  function PcOf(pcs: map<Thread, Pc>, t: Thread): Pc {
    if t in pcs then pcs[t] else Outside
  }

  datatype Step =
    | Arrive(t: Thread)  // nc_ps_lock() up to its first test of the head
    | Wake(t: Thread)    // a waiter tests the head again
    | TimeOut(t: Thread) // a waiter gives up
    | Unlock(t: Thread)  // nc_ps_unlock()

  /** Every step but Unlock needs the mutex; nc_ps_unlock() goes on without it. */
  predicate Enabled(s: State, step: Step) {
    match step
    case Arrive(t) => PcOf(s.pcs, t).Outside? && !s.leaked
    case Wake(t) => PcOf(s.pcs, t).Waiting? && !s.leaked
    case TimeOut(t) => PcOf(s.pcs, t).Waiting? && !s.leaked
    case Unlock(t) => PcOf(s.pcs, t).Inside?
  }

  function NextOf(tickets: seq<uint8>): uint8 {
    if tickets == [] then 0 else Succ(tickets[|tickets| - 1])
  }

  function Rest(tickets: seq<uint8>): seq<uint8> {
    if tickets == [] then [] else tickets[1..]
  }

  /** The steps on a queue of tickets. */
  function Do(s: State, step: Step): State
    requires Enabled(s, step)
  {
    match step
    case Arrive(t) =>
      if |s.tickets| == QUEUE_SIZE as int then s.(leaked := true)
      else Arrived(s, t, NextOf(s.tickets))
    case Wake(t) =>
      if s.tickets != [] && s.tickets[0] == PcOf(s.pcs, t).ticket
      then s.(pcs := s.pcs[t := Inside], entered := s.entered + [t])
      else s
    case TimeOut(t) => s.(tickets := Rest(s.tickets), leaked := true, pcs := s.pcs[t := Outside])
    case Unlock(t) => s.(tickets := Rest(s.tickets), pcs := s.pcs[t := Outside])
  }

  function Arrived(s: State, t: Thread, id: uint8): State {
    Placed(s, t, id, (s.tickets + [id])[0] == id)
  }

  /** A thread behind its own ticket, inside if that ticket is the first. */
  function Placed(s: State, t: Thread, id: uint8, first: bool): State {
    var tickets := s.tickets + [id];
    if first
    then State(tickets, s.leaked, s.pcs[t := Inside], s.arrivals + [t], s.entered + [t])
    else State(tickets, s.leaked, s.pcs[t := Waiting(id)], s.arrivals + [t], s.entered)
  }

  // ---------------------------------------------------------------- invariant

  ghost predicate MutuallyExclusive(pcs: map<Thread, Pc>) {
    forall t, u :: PcOf(pcs, t).Inside? && PcOf(pcs, u).Inside? ==> t == u
  }

  lemma PcUpdate(pcs: map<Thread, Pc>, t: Thread, p: Pc, pcs': map<Thread, Pc>)
    requires pcs' == pcs[t := p]
    ensures forall u :: PcOf(pcs', u) == if u == t then p else PcOf(pcs, u)
  {
  }

  /** Threads in line hold the queued tickets; only the first can be inside; nobody else is about. */
  ghost predicate InLine(tickets: seq<uint8>, line: seq<Thread>, pcs: map<Thread, Pc>) {
    && |tickets| == |line| && Consecutive(tickets)
    && (forall i, j :: 0 <= i < j < |line| ==> line[i] != line[j])
    && (forall t :: !PcOf(pcs, t).Outside? ==> t in line)
    && (forall i :: 0 <= i < |line| ==>
          PcOf(pcs, line[i]) == Waiting(tickets[i]) || (i == 0 && PcOf(pcs, line[i]).Inside?))
  }

  ghost predicate HeadIsIn(line: seq<Thread>, pcs: map<Thread, Pc>) {
    line != [] && PcOf(pcs, line[0]).Inside?
  }

  lemma OnlyTheHead(tickets: seq<uint8>, line: seq<Thread>, pcs: map<Thread, Pc>)
    requires InLine(tickets, line, pcs)
    ensures forall t :: PcOf(pcs, t).Inside? ==> line != [] && t == line[0]
  {
  }

  lemma Joins(tickets: seq<uint8>, line: seq<Thread>, pcs: map<Thread, Pc>, t: Thread, id: uint8)
    requires InLine(tickets, line, pcs) && PcOf(pcs, t).Outside? && |tickets| < 256
    requires tickets != [] ==> id == Succ(tickets[|tickets| - 1])
    ensures InLine(tickets + [id], line + [t], pcs[t := if (tickets + [id])[0] == id then Inside else Waiting(id)])
    ensures (tickets + [id])[0] == id <==> tickets == []
  {
    var c := tickets + [id];
    if tickets != [] { TicketsDistinct(c, 0, |tickets|); }
    var p := if c[0] == id then Inside else Waiting(id);
    PcUpdate(pcs, t, p, pcs[t := p]);
  }

  lemma Enters(tickets: seq<uint8>, line: seq<Thread>, pcs: map<Thread, Pc>, t: Thread)
    requires InLine(tickets, line, pcs) && PcOf(pcs, t).Waiting? && |tickets| <= 256
    ensures line != [] && (tickets[0] == PcOf(pcs, t).ticket <==> t == line[0])
    ensures t == line[0] ==> InLine(tickets, line, pcs[t := Inside])
  {
    var i :| 0 <= i < |line| && line[i] == t;
    if i > 0 { TicketsDistinct(tickets, 0, i); }
    PcUpdate(pcs, t, Inside, pcs[t := Inside]);
  }

  lemma Leaves(tickets: seq<uint8>, line: seq<Thread>, pcs: map<Thread, Pc>, t: Thread)
    requires InLine(tickets, line, pcs) && PcOf(pcs, t).Inside?
    ensures line != [] && t == line[0] && InLine(tickets[1..], line[1..], pcs[t := Outside])
  {
    OnlyTheHead(tickets, line, pcs);
    PcUpdate(pcs, t, Outside, pcs[t := Outside]);
    var c := tickets[1..];
    forall i | 0 < i < |c| ensures c[i] == Succ(c[i - 1]) {
      assert tickets[i + 1] == Succ(tickets[i]);
    }
  }

  /** The threads in a queue of n tickets, in order of arrival. */
  function Line(arrivals: seq<Thread>, n: nat): seq<Thread>
    requires n <= |arrivals|
  {
    arrivals[|arrivals| - n..]
  }

  /** The line matches the queue, and the threads before it have entered in order. */
  ghost predicate Tidy(tickets: seq<uint8>, pcs: map<Thread, Pc>, arrivals: seq<Thread>, entered: seq<Thread>) {
    && |tickets| <= |arrivals|
    && InLine(tickets, Line(arrivals, |tickets|), pcs)
    && entered == arrivals[..|arrivals| - |tickets| + if HeadIsIn(Line(arrivals, |tickets|), pcs) then 1 else 0]
  }

  lemma TidyJoinsEmpty(pcs: map<Thread, Pc>, arrivals: seq<Thread>, entered: seq<Thread>, t: Thread, id: uint8)
    requires Tidy([], pcs, arrivals, entered) && PcOf(pcs, t).Outside?
    ensures Tidy([id], pcs[t := Inside], arrivals + [t], entered + [t])
  {
    var pcs', all := pcs[t := Inside], arrivals + [t];
    PcUpdate(pcs, t, Inside, pcs');
    assert Line(arrivals, 0) == [] && Line(all, 1) == [t];
    assert InLine([id], [t], pcs');
    assert HeadIsIn([t], pcs');
    assert entered == arrivals && all[..|all|] == all;
  }

  lemma TidyJoinsBehind(tickets: seq<uint8>, pcs: map<Thread, Pc>, arrivals: seq<Thread>, entered: seq<Thread>,
                        t: Thread, id: uint8)
    requires Tidy(tickets, pcs, arrivals, entered) && PcOf(pcs, t).Outside? && 0 < |tickets| < 256
    requires id == Succ(tickets[|tickets| - 1])
    ensures tickets[0] != id && Tidy(tickets + [id], pcs[t := Waiting(id)], arrivals + [t], entered)
  {
    var line := Line(arrivals, |tickets|);
    Joins(tickets, line, pcs, t, id);
    assert Line(arrivals + [t], |tickets| + 1) == line + [t];
    assert HeadIsIn(line + [t], pcs[t := Waiting(id)]) <==> HeadIsIn(line, pcs);
  }

  lemma TidyEnters(tickets: seq<uint8>, pcs: map<Thread, Pc>, arrivals: seq<Thread>, entered: seq<Thread>, t: Thread)
    requires Tidy(tickets, pcs, arrivals, entered) && PcOf(pcs, t).Waiting? && |tickets| <= 256
    ensures tickets != []
    ensures tickets[0] == PcOf(pcs, t).ticket ==> Tidy(tickets, pcs[t := Inside], arrivals, entered + [t])
  {
    Enters(tickets, Line(arrivals, |tickets|), pcs, t);
  }

  lemma TidyLeaves(tickets: seq<uint8>, pcs: map<Thread, Pc>, arrivals: seq<Thread>, entered: seq<Thread>, t: Thread)
    requires Tidy(tickets, pcs, arrivals, entered) && PcOf(pcs, t).Inside?
    ensures tickets != [] && Tidy(tickets[1..], pcs[t := Outside], arrivals, entered)
  {
    var line := Line(arrivals, |tickets|);
    Leaves(tickets, line, pcs, t);
    assert Line(arrivals, |tickets| - 1) == line[1..];
    if |line| > 1 { PcUpdate(pcs, t, Outside, pcs[t := Outside]); }
  }

  lemma TidyIsSafe(tickets: seq<uint8>, pcs: map<Thread, Pc>, arrivals: seq<Thread>, entered: seq<Thread>)
    requires Tidy(tickets, pcs, arrivals, entered)
    ensures MutuallyExclusive(pcs) && entered <= arrivals
    ensures forall t :: PcOf(pcs, t).Inside? ==> tickets != []
    ensures forall t, w :: PcOf(pcs, t).Inside? && PcOf(pcs, w).Waiting? ==> |tickets| >= 2
  {
    var line := Line(arrivals, |tickets|);
    OnlyTheHead(tickets, line, pcs);
    forall t, w | PcOf(pcs, t).Inside? && PcOf(pcs, w).Waiting? ensures |tickets| >= 2 {
      var i :| 0 <= i < |line| && line[i] == w;
    }
  }

  /** Without a leak: queue, threads and histories fit together. */
  ghost predicate Orderly(s: State) {
    |s.tickets| <= QUEUE_SIZE as int && Tidy(s.tickets, s.pcs, s.arrivals, s.entered)
  }

  /** After a leak: whoever is inside still holds a place in the queue. */
  ghost predicate Frozen(s: State) {
    && |s.tickets| <= QUEUE_SIZE as int
    && MutuallyExclusive(s.pcs)
    && (forall t :: PcOf(s.pcs, t).Inside? ==> s.tickets != [])
    && s.entered <= s.arrivals
  }

  ghost predicate Inv(s: State) {
    if s.leaked then Frozen(s) else Orderly(s)
  }

  lemma OrderlyIsSafe(s: State)
    requires Orderly(s)
    ensures Frozen(s)
  {
    TidyIsSafe(s.tickets, s.pcs, s.arrivals, s.entered);
  }

  lemma ArriveKeeps(s: State, t: Thread)
    requires Orderly(s) && PcOf(s.pcs, t).Outside? && |s.tickets| < QUEUE_SIZE as int
    ensures Orderly(Arrived(s, t, NextOf(s.tickets)))
  {
    var id := NextOf(s.tickets);
    if s.tickets == [] {
      assert s.tickets + [id] == [id];
      TidyJoinsEmpty(s.pcs, s.arrivals, s.entered, t, id);
    } else {
      TidyJoinsBehind(s.tickets, s.pcs, s.arrivals, s.entered, t, id);
    }
  }

  lemma UnlockKeepsFrozen(s: State, t: Thread)
    requires Frozen(s) && PcOf(s.pcs, t).Inside?
    ensures Frozen(Do(s, Unlock(t)))
  {
    PcUpdate(s.pcs, t, Outside, s.pcs[t := Outside]);
  }

  lemma TimeOutFreezes(s: State, t: Thread)
    requires Orderly(s) && !s.leaked && PcOf(s.pcs, t).Waiting?
    ensures Frozen(Do(s, TimeOut(t)))
  {
    TidyIsSafe(s.tickets, s.pcs, s.arrivals, s.entered);
    TidyEnters(s.tickets, s.pcs, s.arrivals, s.entered, t);
    PcUpdate(s.pcs, t, Outside, s.pcs[t := Outside]);
  }

  /** Every step of every thread, timeouts and a full ring included, keeps the invariant. */
  lemma StepKeepsInv(s: State, step: Step)
    requires Inv(s) && Enabled(s, step)
    ensures Inv(Do(s, step))
  {
    match step
    case Arrive(t) =>
      if |s.tickets| < QUEUE_SIZE as int { ArriveKeeps(s, t); } else { OrderlyIsSafe(s); }
    case Wake(t) => TidyEnters(s.tickets, s.pcs, s.arrivals, s.entered, t);
    case TimeOut(t) => TimeOutFreezes(s, t);
    case Unlock(t) =>
      if s.leaked {
        UnlockKeepsFrozen(s, t);
      } else {
        TidyLeaves(s.tickets, s.pcs, s.arrivals, s.entered, t);
      }
  }

  // ---------------------------------------------------------------- the ring buffer

  /** The same with the ring buffer in place of the queue. */
  datatype RingState = RingState(ring: Ring, s: State) {
    ghost predicate Matches() {
      ring.Valid() && ring.Contents() == s.tickets
    }
  }

  /** The steps as the source performs them; `s.tickets` only records the abstract queue. */
  function RingDo(r: RingState, step: Step): RingState
    requires r.ring.Valid() && Enabled(r.s, step)
  {
    match step
    case Arrive(t) =>
      if r.ring.len == QUEUE_SIZE then RingState(r.ring, r.s.(leaked := true))
      else
        var id := r.ring.NextTicket();
        var ring := r.ring.Push(id);
        RingState(ring, Placed(r.s, t, id, ring.Head() == id))
    case Wake(t) =>
      if r.ring.Head() == PcOf(r.s.pcs, t).ticket
      then RingState(r.ring, r.s.(pcs := r.s.pcs[t := Inside], entered := r.s.entered + [t]))
      else r
    case TimeOut(t) =>
      RingState(r.ring.Pop(), r.s.(tickets := Rest(r.s.tickets), leaked := true, pcs := r.s.pcs[t := Outside]))
    case Unlock(t) =>
      RingState(r.ring.Pop(), r.s.(tickets := Rest(r.s.tickets), pcs := r.s.pcs[t := Outside]))
  }

  /** One step on the queue in place. */
  method Perform(queue: TicketQueue, s: State, step: Step) returns (s': State)
    requires queue.Snapshot().Valid() && Enabled(s, step)
    modifies queue`begin, queue`len, queue.queue
    ensures RingState(queue.Snapshot(), s') == RingDo(RingState(old(queue.Snapshot()), s), step)
  {
    match step {
      case Arrive(t) =>
        var ok, id := queue.Enqueue();
        s' := if ok then Placed(s, t, id, queue.queue[queue.begin] == id) else s.(leaked := true);
      case Wake(t) =>
        s' := s;
        if queue.queue[queue.begin] == PcOf(s.pcs, t).ticket {
          s' := s.(pcs := s.pcs[t := Inside], entered := s.entered + [t]);
        }
      case TimeOut(t) =>
        queue.Dequeue();
        s' := s.(tickets := Rest(s.tickets), leaked := true, pcs := s.pcs[t := Outside]);
      case Unlock(t) =>
        queue.Dequeue();
        s' := s.(tickets := Rest(s.tickets), pcs := s.pcs[t := Outside]);
    }
  }

  /** The ring buffer with its 8-bit counters does what the queue does, and never wraps. */
  lemma RingRefinesQueue(r: RingState, step: Step)
    requires r.Matches() && Inv(r.s) && Enabled(r.s, step)
    ensures RingDo(r, step).Matches() && RingDo(r, step).s == Do(r.s, step)
  {
    match step
    case Arrive(t) =>
    case Wake(t) => TidyEnters(r.s.tickets, r.s.pcs, r.s.arrivals, r.s.entered, t);
    case TimeOut(t) => TidyEnters(r.s.tickets, r.s.pcs, r.s.arrivals, r.s.entered, t);
    case Unlock(t) => if !r.s.leaked { OrderlyIsSafe(r.s); }
  }

  // ---------------------------------------------------------------- whole runs

  const START := State([], false, map[], [], [])

  /** A run: the states passed through and the steps between them. */
  ghost predicate Run(states: seq<RingState>, steps: seq<Step>) {
    && |states| == |steps| + 1
    && states[0].ring.Valid() && states[0].ring.len == 0 && states[0].s == START
    && forall i :: 0 <= i < |steps| ==>
         states[i].ring.Valid() && Enabled(states[i].s, steps[i]) && states[i + 1] == RingDo(states[i], steps[i])
  }

  lemma {:induction false} RunKeepsInv(states: seq<RingState>, steps: seq<Step>, n: nat)
    requires Run(states, steps) && n < |states|
    ensures states[n].Matches() && Inv(states[n].s)
  {
    if n > 0 {
      RunKeepsInv(states, steps, n - 1);
      RingRefinesQueue(states[n - 1], steps[n - 1]);
      StepKeepsInv(states[n - 1].s, steps[n - 1]);
    }
  }

  /**
   * In every run, with any number of threads, timeouts and overflows, at most one thread is
   * between lock and unlock at any time, threads enter in the order in which they took their
   * tickets, and the ring buffer holds the queue.
   */
  lemma LockIsSafe(states: seq<RingState>, steps: seq<Step>, n: nat)
    requires Run(states, steps) && n < |states|
    ensures MutuallyExclusive(states[n].s.pcs)
    ensures states[n].s.entered <= states[n].s.arrivals
    ensures states[n].Matches()
  {
    RunKeepsInv(states, steps, n);
    if !states[n].s.leaked { OrderlyIsSafe(states[n].s); }
  }

  // ---------------------------------------------------------------- the leaked mutex

  /** The steps that return with the mutex held: a timeout, and an arrival at a full ring. */
  predicate Leaks(s: State, step: Step) {
    step.TimeOut? || (step.Arrive? && |s.tickets| == QUEUE_SIZE as int)
  }

  ghost predicate LeakBefore(states: seq<RingState>, steps: seq<Step>, n: nat)
    requires |states| == |steps| + 1 && n <= |steps|
  {
    exists i :: 0 <= i < n && Leaks(states[i].s, steps[i])
  }

  /** The steps of a run are steps on the queue. */
  lemma RunStep(states: seq<RingState>, steps: seq<Step>, i: nat)
    requires Run(states, steps) && i < |steps|
    ensures Enabled(states[i].s, steps[i]) && states[i + 1].s == Do(states[i].s, steps[i])
  {
    RunKeepsInv(states, steps, i);
    RingRefinesQueue(states[i], steps[i]);
  }

  lemma LeakedNext(s: State, step: Step)
    requires Enabled(s, step)
    ensures Do(s, step).leaked <==> s.leaked || Leaks(s, step)
  {
  }

  /** In every run the mutex is lost if and only if some earlier step was one of these two. */
  lemma {:induction false} LeakedIff(states: seq<RingState>, steps: seq<Step>, n: nat)
    requires Run(states, steps) && n < |states|
    ensures states[n].s.leaked <==> LeakBefore(states, steps, n)
  {
    if n > 0 {
      LeakedIff(states, steps, n - 1);
      RunStep(states, steps, n - 1);
      LeakedNext(states[n - 1].s, steps[n - 1]);
      LeakBeforeNext(states, steps, n - 1);
    }
  }

  lemma LeakBeforeNext(states: seq<RingState>, steps: seq<Step>, n: nat)
    requires |states| == |steps| + 1 && n < |steps|
    ensures LeakBefore(states, steps, n + 1) <==> LeakBefore(states, steps, n) || Leaks(states[n].s, steps[n])
  {
  }

  /** In every run without such a step the queued tickets are consecutive and pairwise distinct. */
  lemma QueuedTicketsDistinct(states: seq<RingState>, steps: seq<Step>, n: nat, i: nat, j: nat)
    requires Run(states, steps) && n < |states| && !LeakBefore(states, steps, n)
    requires i < j < |states[n].s.tickets|
    ensures Consecutive(states[n].s.tickets) && states[n].s.tickets[i] != states[n].s.tickets[j]
  {
    LeakedIff(states, steps, n);
    RunKeepsInv(states, steps, n);
    TicketsDistinct(states[n].s.tickets, i, j);
  }

  // ---------------------------------------------------------------- what the steps do

  /** The thread first in line: of those whose tickets are queued, the one that arrived first. */
  ghost predicate FirstInLine(s: State, t: Thread) {
    0 < |s.tickets| <= |s.arrivals| && t == s.arrivals[|s.arrivals| - |s.tickets|]
  }

  /** All threads but one are where they were. */
  ghost predicate OthersStay(a: State, b: State, t: Thread) {
    forall u :: u != t ==> PcOf(b.pcs, u) == PcOf(a.pcs, u)
  }

  /** Neither a ticket was taken nor did a thread enter. */
  predicate SameHistories(a: State, b: State) {
    b.arrivals == a.arrivals && b.entered == a.entered
  }

  /**
   * In every run, nc_ps_unlock() lets its thread out, leaves nobody inside and drops the head of the
   * queue and of the ring.
   */
  lemma UnlockGivesUp(states: seq<RingState>, steps: seq<Step>, i: nat, t: Thread)
    requires Run(states, steps) && i < |steps| && steps[i] == Unlock(t)
    ensures states[i].Matches() && states[i + 1].Matches()
    ensures var a, b := states[i].s, states[i + 1].s;
            && PcOf(b.pcs, t).Outside? && OthersStay(a, b, t) && SameHistories(a, b)
            && (forall u :: !PcOf(b.pcs, u).Inside?)
            && a.tickets != [] && b.tickets == a.tickets[1..]
            && states[i + 1].ring.Contents() == states[i].ring.Contents()[1..]
  {
    LockIsSafe(states, steps, i);
    LockIsSafe(states, steps, i + 1);
    RunKeepsInv(states, steps, i);
    RunStep(states, steps, i);
    var a := states[i].s;
    PcUpdate(a.pcs, t, Outside, states[i + 1].s.pcs);
    if !a.leaked { OrderlyIsSafe(a); }
  }

  /**
   * In every run, if a thread waits after nc_ps_unlock() and the mutex was not lost, the first in line
   * is a waiter; it can enter, and of all waiters it alone.
   */
  lemma UnlockAdmitsNext(states: seq<RingState>, steps: seq<Step>, i: nat, t: Thread, w: Thread)
    requires Run(states, steps) && i < |steps| && steps[i] == Unlock(t)
    requires !LeakBefore(states, steps, i + 1) && PcOf(states[i + 1].s.pcs, w).Waiting?
    ensures var b := states[i + 1].s;
            && Enabled(b, Wake(w)) && (PcOf(Do(b, Wake(w)).pcs, w).Inside? <==> FirstInLine(b, w))
            && exists next :: FirstInLine(b, next) && PcOf(b.pcs, next).Waiting?
                              && Enabled(b, Wake(next)) && PcOf(Do(b, Wake(next)).pcs, next).Inside?
  {
    UnlockGivesUp(states, steps, i, t);
    LeakedIff(states, steps, i + 1);
    RunKeepsInv(states, steps, i + 1);
    var b := states[i + 1].s;
    WakesIff(b, w);
    var next := b.arrivals[|b.arrivals| - |b.tickets|];
    assert Line(b.arrivals, |b.tickets|)[0] == next;
    WakesIff(b, next);
    assert FirstInLine(b, next);
  }

  /** A waiter that tests the head enters if and only if it is first in line. */
  lemma WakesIff(s: State, t: Thread)
    requires Orderly(s) && !s.leaked && PcOf(s.pcs, t).Waiting?
    ensures s.tickets != [] && |s.tickets| <= |s.arrivals|
    ensures PcOf(Do(s, Wake(t)).pcs, t).Inside? <==> FirstInLine(s, t)
  {
    Enters(s.tickets, Line(s.arrivals, |s.tickets|), s.pcs, t);
    assert Line(s.arrivals, |s.tickets|)[0] == s.arrivals[|s.arrivals| - |s.tickets|];
  }

  /**
   * In every run, a thread that arrives takes its place behind the queue, and is inside if and only
   * if there was nobody in line; at a full ring nothing changes but the mutex.
   */
  lemma ArriveJoins(states: seq<RingState>, steps: seq<Step>, i: nat, t: Thread)
    requires Run(states, steps) && i < |steps| && steps[i] == Arrive(t)
    ensures var a, b := states[i].s, states[i + 1].s;
            if |a.tickets| == QUEUE_SIZE as int then b == a.(leaked := true) else
              && b.arrivals == a.arrivals + [t] && OthersStay(a, b, t)
              && b.tickets == a.tickets + [if a.tickets == [] then 0 else Succ(a.tickets[|a.tickets| - 1])]
              && (PcOf(b.pcs, t).Inside? <==> a.tickets == [])
              && (a.tickets != [] ==> PcOf(b.pcs, t) == Waiting(b.tickets[|a.tickets|]))
              && b.entered == a.entered + if a.tickets == [] then [t] else []
  {
    RunStep(states, steps, i);
    RunKeepsInv(states, steps, i);
    var a, b := states[i].s, states[i + 1].s;
    if |a.tickets| < QUEUE_SIZE as int {
      var id := NextOf(a.tickets);
      Joins(a.tickets, Line(a.arrivals, |a.tickets|), a.pcs, t, id);
      PcUpdate(a.pcs, t, PcOf(b.pcs, t), b.pcs);
    }
  }

  /** In every run, a waiter that tests the head enters if it is first in line, and changes nothing if not. */
  lemma WakeEnters(states: seq<RingState>, steps: seq<Step>, i: nat, t: Thread)
    requires Run(states, steps) && i < |steps| && steps[i] == Wake(t)
    ensures var a, b := states[i].s, states[i + 1].s;
            if FirstInLine(a, t)
            then PcOf(b.pcs, t).Inside? && OthersStay(a, b, t) && b.tickets == a.tickets
                 && b.arrivals == a.arrivals && b.entered == a.entered + [t]
            else b == a
  {
    RunStep(states, steps, i);
    RunKeepsInv(states, steps, i);
    WakesIff(states[i].s, t);
    PcUpdate(states[i].s.pcs, t, Inside, states[i].s.pcs[t := Inside]);
  }

  /** In every run, a waiter that gives up is outside, and the head of the queue is gone. */
  lemma TimeOutLeaves(states: seq<RingState>, steps: seq<Step>, i: nat, t: Thread)
    requires Run(states, steps) && i < |steps| && steps[i] == TimeOut(t)
    ensures var a, b := states[i].s, states[i + 1].s;
            && PcOf(b.pcs, t).Outside? && OthersStay(a, b, t) && SameHistories(a, b)
            && a.tickets != [] && b.tickets == a.tickets[1..]
  {
    RunStep(states, steps, i);
    RunKeepsInv(states, steps, i);
    var a, b := states[i].s, states[i + 1].s;
    TidyEnters(a.tickets, a.pcs, a.arrivals, a.entered, t);
    PcUpdate(a.pcs, t, Outside, b.pcs);
  }

  /** How many of the first n steps are arrivals, and how many are unlocks. */
  function Arrivals(steps: seq<Step>, n: nat): nat
    requires n <= |steps|
  {
    if n == 0 then 0 else Arrivals(steps, n - 1) + if steps[n - 1].Arrive? then 1 else 0
  }

  function Unlocks(steps: seq<Step>, n: nat): nat
    requires n <= |steps|
  {
    if n == 0 then 0 else Unlocks(steps, n - 1) + if steps[n - 1].Unlock? then 1 else 0
  }

  /** One step that does not lose the mutex. */
  lemma StepIsCounted(states: seq<RingState>, steps: seq<Step>, i: nat)
    requires Run(states, steps) && i < |steps| && !Leaks(states[i].s, steps[i])
    ensures |states[i + 1].s.arrivals| == |states[i].s.arrivals| + if steps[i].Arrive? then 1 else 0
    ensures |states[i + 1].s.tickets| == |states[i].s.tickets| + (if steps[i].Arrive? then 1 else 0)
                                         - if steps[i].Unlock? then 1 else 0
  {
    match steps[i]
    case Arrive(t) => ArriveJoins(states, steps, i, t);
    case Wake(t) => WakeEnters(states, steps, i, t);
    case Unlock(t) => UnlockGivesUp(states, steps, i, t);
  }

  /** In every run that did not lose the mutex, every arrival took a ticket and every unlock gave one back. */
  lemma {:induction false} TicketsAreCounted(states: seq<RingState>, steps: seq<Step>, n: nat)
    requires Run(states, steps) && n < |states| && forall i :: 0 <= i < n ==> !Leaks(states[i].s, steps[i])
    ensures |states[n].s.arrivals| == Arrivals(steps, n)
    ensures |states[n].s.tickets| == Arrivals(steps, n) - Unlocks(steps, n)
  {
    if n > 0 {
      TicketsAreCounted(states, steps, n - 1);
      StepIsCounted(states, steps, n - 1);
    }
  }

  /**
   * Progress: when the critical section is free and a thread waits, some waiter can enter if and
   * only if no thread has timed out or found the ring full before.
   */
  lemma ProgressIff(states: seq<RingState>, steps: seq<Step>, n: nat, w: Thread)
    requires Run(states, steps) && n < |states|
    requires PcOf(states[n].s.pcs, w).Waiting? && forall t :: !PcOf(states[n].s.pcs, t).Inside?
    ensures (exists t :: Enabled(states[n].s, Wake(t)) && PcOf(Do(states[n].s, Wake(t)).pcs, t).Inside?) <==>
              forall i :: 0 <= i < n ==> !Leaks(states[i].s, steps[i])
  {
    LeakedIff(states, steps, n);
    RunKeepsInv(states, steps, n);
    var s := states[n].s;
    if !s.leaked {
      var line := Line(s.arrivals, |s.tickets|);
      Enters(s.tickets, line, s.pcs, w);
      var first := line[0];
      assert PcOf(s.pcs, first) == Waiting(s.tickets[0]);
      assert Enabled(s, Wake(first)) && PcOf(Do(s, Wake(first)).pcs, first).Inside?;
    }
  }

  /** Once the mutex is lost no thread enters or takes a ticket at any later state of the run. */
  lemma {:induction false} NobodyEntersAfterLeak(states: seq<RingState>, steps: seq<Step>, i: nat, j: nat)
    requires Run(states, steps) && i < j < |states| && Leaks(states[i].s, steps[i])
    ensures states[j].s.entered == states[i].s.entered && states[j].s.arrivals == states[i].s.arrivals
  {
    StandsStill(states, steps, i, j - 1);
    if i < j - 1 { NobodyEntersAfterLeak(states, steps, i, j - 1); }
  }

  lemma StandsStill(states: seq<RingState>, steps: seq<Step>, i: nat, j: nat)
    requires Run(states, steps) && i <= j < |steps| && Leaks(states[i].s, steps[i])
    ensures SameHistories(states[j].s, states[j + 1].s)
  {
    LeakedIff(states, steps, j);
    RunStep(states, steps, j);
    LeakedStep(states[j].s, steps[j]);
    if i < j { assert LeakBefore(states, steps, j); }
  }

  lemma LeakedStep(s: State, step: Step)
    requires Enabled(s, step)
    ensures s.leaked || Leaks(s, step) ==> Do(s, step).entered == s.entered && Do(s, step).arrivals == s.arrivals
  {
  }

  /**
   * In every run, the ticket that a waiter drops when it gives up is its own if and only if it is
   * the first in line; otherwise its own ticket stays behind in the queue.
   */
  lemma TimeOutDropsOwnIff(states: seq<RingState>, steps: seq<Step>, n: nat, t: Thread)
    requires Run(states, steps) && n < |states| && Enabled(states[n].s, TimeOut(t))
    ensures var s := states[n].s;
            && 0 < |s.tickets| <= |s.arrivals|
            && (PcOf(s.pcs, t).ticket == s.tickets[0] <==> t == s.arrivals[|s.arrivals| - |s.tickets|])
            && (PcOf(s.pcs, t).ticket in Do(s, TimeOut(t)).tickets <==> t != s.arrivals[|s.arrivals| - |s.tickets|])
  {
    RunKeepsInv(states, steps, n);
    var s := states[n].s;
    var line := Line(s.arrivals, |s.tickets|);
    Enters(s.tickets, line, s.pcs, t);
    OwnTicketIsQueued(s.tickets, line, s.pcs, t);
  }

  lemma OwnTicketIsQueued(tickets: seq<uint8>, line: seq<Thread>, pcs: map<Thread, Pc>, t: Thread)
    requires InLine(tickets, line, pcs) && PcOf(pcs, t).Waiting? && 0 < |tickets| <= 256
    ensures PcOf(pcs, t).ticket in tickets[1..] <==> t != line[0]
  {
    var k :| 0 <= k < |line| && line[k] == t;
    assert tickets[k] == PcOf(pcs, t).ticket;
    if k > 0 {
      assert tickets[1..][k - 1] == tickets[k];
    } else {
      forall j | 1 <= j < |tickets| ensures tickets[j] != tickets[0] {
        TicketsDistinct(tickets, 0, j);
      }
    }
  }

  /** A run in which it is not: thread 0 is inside, thread 1 waits and times out. */
  lemma TimeOutDropsTheHead()
    ensures var s1 := Do(START, Arrive(0));
            Enabled(s1, Arrive(1)) &&
            var s2 := Do(s1, Arrive(1));
            Enabled(s2, TimeOut(1)) && PcOf(s2.pcs, 1) == Waiting(1) &&
            var s3 := Do(s2, TimeOut(1));
            PcOf(s3.pcs, 0).Inside? && PcOf(s3.pcs, 1).Outside? && s3.tickets == [1]
  {
    var s1 := Do(START, Arrive(0));
    assert s1.tickets == [0];
    var s2 := Do(s1, Arrive(1));
    assert s2.tickets == [0, 1];
  }
}
