/**
 * The session table of a poll session: two parallel arrays with removal by swapping in the last
 * entry, and poll events that stay in the table until their session is served.
 */
module PollTable {
  import opened SessionState
  import opened SwapRemoval
  import opened Text

  class PsSession {
    const fd: int
    var status: Status
    var reason: TermReason

    constructor (fd: int, status: Status)
      ensures this.fd == fd && this.status == status
    {
      this.fd, this.status, reason := fd, status, NoReason;
    }
  }

  /** The events poll() reports for a descriptor watched for input. */
  datatype Events = Events(pin: bool, perr: bool, phup: bool, pnval: bool) {
    predicate Quiet() {
      !pin && !perr && !phup && !pnval
    }
  }

  const QUIET := Events(false, false, false, false)

  datatype PollFd = PollFd(fd: int, revents: Events)

  class PollSession {
    var sessions: seq<PsSession>
    var pfds: seq<PollFd>

    /** Each entry of one array belongs to the entry of the other at the same place. */
    ghost predicate Valid()
      reads this
    {
      |sessions| == |pfds| && forall i :: 0 <= i < |pfds| ==> pfds[i].fd == sessions[i].fd
    }

    /** The table as one sequence of entries. */
    ghost function Entries(): (e: seq<(PsSession, PollFd)>)
      requires Valid()
      reads this
      ensures |e| == |sessions| && forall i :: 0 <= i < |e| ==> e[i] == (sessions[i], pfds[i])
    {
      seq(|sessions|, i requires 0 <= i < |sessions| reads this requires Valid() => (sessions[i], pfds[i]))
    }

    constructor ()
      ensures Valid() && sessions == []
    {
      sessions, pfds := [], [];
    }

    /** Adds a session with a connected transport. */
    method AddSession(session: PsSession)
      requires Valid()
      modifies this
      ensures Valid() && Entries() == old(Entries()) + [(session, PollFd(session.fd, QUIET))]
    {
      pfds := pfds + [PollFd(session.fd, QUIET)];
      sessions := sessions + [session];
    }

    method RemoveAt(i: nat)
      requires Valid() && i < |sessions|
      modifies this
      ensures Valid() && Entries() == SwapRemove(old(Entries()), i)
      ensures old(multiset(Entries())) == multiset(Entries()) + multiset{old(Entries()[i])}
      ensures sessions[..i] == old(sessions[..i]) && sessions == SwapRemove(old(sessions), i)
    {
      SwapRemoveIsRemoval(Entries(), i);
      var count := |sessions| - 1;
      if i < count {
        sessions := sessions[..count][i := sessions[count]];
        pfds := pfds[..count][i := pfds[count]];
      } else {
        sessions, pfds := sessions[..count], pfds[..count];
      }
    }

    /** Removes the first entry of a session; the other entries keep their events. */
    method DelSession(session: PsSession) returns (r: int)
      requires Valid()
      modifies this
      ensures Valid() && r == if session in old(sessions) then 0 else -1
      ensures r == -1 ==> Entries() == old(Entries())
      ensures r == 0 ==> exists i :: 0 <= i < |old(sessions)| && old(sessions)[i] == session
                                     && session !in old(sessions)[..i]
                                     && old(multiset(Entries())) == multiset(Entries()) + multiset{old(Entries())[i]}
    {
      for i := 0 to |sessions|
        invariant sessions == old(sessions) && pfds == old(pfds) && session !in sessions[..i]
      {
        if sessions[i] == session {
          RemoveAt(i);
          return 0;
        }
      }
      return -1;
    }

    /** The first entry with a leftover event, or with a session that does not run. */
    method FindLeftover() returns (i: nat)
      requires Valid()
      ensures i <= |sessions|
      ensures AllRunning(sessions[..i]) && NoEvents(AllEvents(pfds)[..i])
      ensures i < |sessions| ==> sessions[i].status != Running || !pfds[i].revents.Quiet()
    {
      i := 0;
      while i < |sessions| && sessions[i].status == Running && pfds[i].revents.Quiet()
        invariant i <= |sessions|
        invariant AllRunning(sessions[..i]) && NoEvents(AllEvents(pfds)[..i])
      {
        i := i + 1;
      }
    }

    /** poll() itself: the events of all descriptors are reported afresh. */
    method Report(events: seq<Events>)
      requires Valid() && |events| == |pfds|
      modifies this`pfds
      ensures Valid() && AllEvents(pfds) == events
    {
      var now := pfds;
      pfds := seq(|events|, i requires 0 <= i < |events| == |now| => PollFd(now[i].fd, events[i]));
    }

    /** The first event from a position on. */
    method FindEvent(from: nat) returns (i: nat)
      requires Valid() && from <= |pfds|
      ensures from <= i <= |pfds|
      ensures NoEvents(AllEvents(pfds)[from..i]) && (i < |pfds| ==> !pfds[i].revents.Quiet())
    {
      i := from;
      while i < |pfds| && pfds[i].revents.Quiet()
        invariant from <= i <= |pfds| && NoEvents(AllEvents(pfds)[from..i])
      {
        assert AllEvents(pfds)[from..i + 1] == AllEvents(pfds)[from..i] + [pfds[i].revents];
        i := i + 1;
      }
    }

    /**
     * One call of nc_ps_poll() on sessions without SSH. poll() runs exactly when every session
     * runs and no event is left over. The call fails without sessions, if poll() fails, or if a
     * session that does not run comes before all leftover events; it times out if poll() reports
     * nothing. Otherwise the first session with an event is served.
     */
    method Poll(polled: Option<seq<Events>>, service: Service)
      returns (flags: set<Flag>, chosen: PsSession?, usedPoll: bool)
      requires Valid()
      requires polled.Some? ==> |polled.value| == |sessions|
      modifies this`pfds, (set s | s in sessions)`status, (set s | s in sessions)`reason
      ensures Valid() && sessions == old(sessions)
      ensures usedPoll <==> sessions != [] && old(AllRunning(sessions)) && NoEvents(AllEvents(old(pfds)))
      ensures chosen != null ==> chosen in sessions
      ensures forall s :: s in sessions && s != chosen ==> s.status == old(s.status) && s.reason == old(s.reason)
      ensures var leftover := AllEvents(old(pfds));
              if sessions == [] || (usedPoll && polled.None?) then
                flags == {Failure} && chosen == null && AllEvents(pfds) == leftover
              else if usedPoll then
                if NoEvents(polled.value) then
                  flags == {PollTimedOut} && chosen == null && AllEvents(pfds) == polled.value
                else
                  Served(sessions, polled.value, AllEvents(pfds), service, flags, chosen)
              else if old(exists k :: Blocks(sessions, leftover, k)) then
                && flags == {Failure} && AllEvents(pfds) == leftover
                && old(exists k :: Blocks(sessions, leftover, k) && sessions[k] == chosen)
                && chosen != null && chosen.status == old(chosen.status) && chosen.reason == old(chosen.reason)
              else
                Served(sessions, leftover, AllEvents(pfds), service, flags, chosen)
    {
      flags, chosen, usedPoll := {Failure}, null, false;
      if sessions == [] {
        return;
      }
      var i := FindLeftover();
      assert i == |sessions| ==> sessions[..i] == sessions && AllEvents(pfds)[..i] == AllEvents(pfds);
      if i < |sessions| && sessions[i].status != Running {
        chosen := sessions[i];
        assert Blocks(sessions, AllEvents(pfds), i);
        return;
      }
      if i == |sessions| {
        usedPoll, i := true, 0;
        if polled.None? {
          return;
        }
        Report(polled.value);
        if NoEvents(polled.value) {
          flags := {PollTimedOut};
          return;
        }
      }
      flags, chosen := ServeFirst(i, service);
    }

    /** The first event decides: a broken connection ends the session, input is served. */
    method ServeFirst(from: nat, service: Service) returns (flags: set<Flag>, chosen: PsSession?)
      requires Valid() && from <= |pfds|
      requires NoEvents(AllEvents(pfds)[..from]) && !NoEvents(AllEvents(pfds))
      modifies this`pfds, (set s | s in sessions)`status, (set s | s in sessions)`reason
      ensures Valid() && sessions == old(sessions)
      ensures chosen != null && chosen in sessions
      ensures forall s :: s in sessions && s != chosen ==> s.status == old(s.status) && s.reason == old(s.reason)
      ensures exists k :: First(AllEvents(old(pfds)), k) && chosen == sessions[k]
                          && Reaction(AllEvents(old(pfds)), k, AllEvents(pfds), service, flags, chosen)
    {
      ghost var events := AllEvents(pfds);
      var i := FindEvent(from);
      FirstEvent(events, from, i);
      chosen := sessions[i];
      var e := pfds[i].revents;
      if e.phup || e.pnval {
        chosen.status, chosen.reason := Invalid, Dropped;
        flags := {SessionTerm};
      } else if e.perr {
        chosen.status, chosen.reason := Invalid, OtherReason;
        flags := {SessionTerm};
      } else {
        flags := Process(i, chosen, service);
      }
      assert Reaction(events, i, AllEvents(pfds), service, flags, chosen);
    }

    /** Takes the event of a session with input, reads its rpc and answers it. */
    method Process(i: nat, session: PsSession, service: Service) returns (flags: set<Flag>)
      requires Valid() && First(AllEvents(pfds), i) && session == sessions[i]
      requires var e := pfds[i].revents; !e.phup && !e.pnval && !e.perr
      modifies this`pfds, session`status
      ensures Valid()
      ensures Reaction(AllEvents(old(pfds)), i, AllEvents(pfds), service, flags, session)
    {
      ghost var events := AllEvents(pfds);
      pfds := pfds[i := pfds[i].(revents := QUIET)];
      assert AllEvents(pfds) == events[i := QUIET];
      assert events[i := QUIET][..i] == events[..i];
      match service {
        case LockFailed => flags := {Failure};
        case LockTimedOut => flags := {PollTimedOut};
        case ReadFailed(after) =>
          session.status := after;
          flags := {Failure} + if after != Running then {SessionTerm} else {};
        case Unparsed(after) =>
          session.status := after;
          flags := {ReplyError, BadRpc} + if after != Running then {SessionTerm} else {};
        case Answered(replyError, writeFailed, after) =>
          session.status := after;
          flags := {RpcDone} + (if replyError then {ReplyError} else {})
                             + (if writeFailed then {Failure} else {})
                             + (if after != Running then {SessionTerm} else {});
          var j := FindEvent(i + 1);
          if j < |pfds| {
            flags := flags + {Pending};
          }
          LeftoverEvent(AllEvents(pfds), i, j);
      }
    }

    /** Drops one entry for a session to be freed. */
    method DropAt(i: nat, freed: seq<PsSession>, ghost dropped: seq<(PsSession, PollFd)>)
      returns (freed': seq<PsSession>, ghost dropped': seq<(PsSession, PollFd)>)
      requires Valid() && i < |sessions| && sessions[i].status != Running && FreedAre(freed, dropped)
      modifies this
      ensures Valid() && |sessions| == |old(sessions)| - 1 && sessions[..i] == old(sessions[..i])
      ensures FreedAre(freed', dropped')
      ensures multiset(old(sessions)) + multiset(freed) == multiset(sessions) + multiset(freed')
      ensures old(multiset(Entries())) + multiset(dropped) == multiset(Entries()) + multiset(dropped')
    {
      freed', dropped' := freed + [sessions[i]], dropped + [Entries()[i]];
      SwapRemoveIsRemoval(sessions, i);
      RemoveAt(i);
    }

    /**
     * Drops exactly the entries whose session no longer runs, with the loop staying where it
     * swapped one in. The others keep their events. A dropped session is freed once per entry, so
     * nothing is freed twice if and only if no session that does not run was in the table twice.
     */
    method ClearDead() returns (freed: seq<PsSession>, ghost dropped: seq<(PsSession, PollFd)>)
      requires Valid()
      modifies this
      ensures Valid() && AllRunning(sessions)
      ensures multiset(old(Entries())) == multiset(Entries()) + multiset(dropped)
      ensures FreedAre(freed, dropped)
      ensures multiset(old(sessions)) == multiset(sessions) + multiset(freed)
      ensures NoRepeats(freed) <==> DeadOnesOnce(old(sessions))
    {
      freed, dropped := [], [];
      ghost var total := multiset(Entries());
      var i := 0;
      while i < |sessions|
        invariant Valid() && i <= |sessions|
        invariant AllRunning(sessions[..i]) && FreedAre(freed, dropped)
        invariant total == multiset(Entries()) + multiset(dropped)
        invariant multiset(old(sessions)) == multiset(sessions) + multiset(freed)
        decreases |sessions| - i
      {
        if sessions[i].status != Running {
          freed, dropped := DropAt(i, freed, dropped);
        } else {
          assert sessions[..i + 1] == sessions[..i] + [sessions[i]];
          i := i + 1;
        }
      }
      assert sessions[..i] == sessions;
      FreedOnceIff(old(sessions), sessions, freed, dropped);
    }

    /**
     * nc_ps_clear(): all sessions are freed, or those that do not run. Nothing is freed twice if and
     * only if no session that is freed was in the table twice.
     */
    method Clear(all: bool) returns (freed: seq<PsSession>)
      requires Valid()
      modifies this
      ensures Valid() && (if all then sessions == [] else AllRunning(sessions))
      ensures multiset(old(sessions)) == multiset(sessions) + multiset(freed)
      ensures NoRepeats(freed) <==> if all then NoRepeats(old(sessions)) else DeadOnesOnce(old(sessions))
    {
      if all {
        freed := [];
        for i := 0 to |sessions|
          invariant sessions == old(sessions) && freed == sessions[..i]
        {
          freed := freed + [sessions[i]];
        }
        assert freed == sessions;
        sessions, pfds := [], [];
      } else {
        ghost var dropped;
        freed, dropped := ClearDead();
      }
    }
  }

  // ---------------------------------------------------------------- polling

  datatype Flag = PollTimedOut | RpcDone | BadRpc | ReplyError | SessionTerm | Pending | Failure

  /** What reading an rpc from the chosen session and answering it come to. */
  datatype Service =
    | LockFailed
    | LockTimedOut
    | ReadFailed(after: Status)
    | Unparsed(after: Status)
    | Answered(replyError: bool, writeFailed: bool, after: Status)

  function AllEvents(pfds: seq<PollFd>): (e: seq<Events>)
    ensures |e| == |pfds| && forall i :: 0 <= i < |e| ==> e[i] == pfds[i].revents
  {
    seq(|pfds|, i requires 0 <= i < |pfds| => pfds[i].revents)
  }

  predicate First(events: seq<Events>, k: int) {
    0 <= k < |events| && !events[k].Quiet() && NoEvents(events[..k])
  }

  predicate Broken(e: Events) {
    e.phup || e.pnval || e.perr
  }

  /** What the first event, at k, leads to; `now` are the events left in the table. */
  ghost predicate Reaction(events: seq<Events>, k: nat, now: seq<Events>, service: Service,
                           flags: set<Flag>, chosen: PsSession)
    requires k < |events|
    reads chosen
  {
    var e := events[k];
    if Broken(e) then
      && now == events && flags == {SessionTerm}
      && chosen.status == Invalid && chosen.reason == if e.phup || e.pnval then Dropped else OtherReason
    else
      && now == events[k := QUIET]
      && (RpcDone in flags <==> service.Answered?)
      && (BadRpc in flags <==> service.Unparsed?)
      && (PollTimedOut in flags <==> service.LockTimedOut?)
      && (ReplyError in flags <==> service.Unparsed? || (service.Answered? && service.replyError))
      && (Failure in flags <==> service.LockFailed? || service.ReadFailed?
                                || (service.Answered? && service.writeFailed))
      && (Pending in flags <==> service.Answered? && !NoEvents(now))
      && (SessionTerm in flags <==> !service.LockFailed? && !service.LockTimedOut? && service.after != Running)
      && (!service.LockFailed? && !service.LockTimedOut? ==> chosen.status == service.after)
  }

  /** The first session with an event is served. */
  ghost predicate Served(sessions: seq<PsSession>, events: seq<Events>, now: seq<Events>, service: Service,
                         flags: set<Flag>, chosen: PsSession?)
    reads chosen
  {
    exists k :: First(events, k) && k < |sessions| && chosen == sessions[k]
                && Reaction(events, k, now, service, flags, sessions[k])
  }

  /** A session that does not run, before any other such session and before all events. */
  ghost predicate Blocks(sessions: seq<PsSession>, events: seq<Events>, k: int)
    reads sessions
  {
    && 0 <= k < |sessions| <= |events|
    && sessions[k].status != Running && AllRunning(sessions[..k]) && NoEvents(events[..k])
  }

  lemma FirstEvent(events: seq<Events>, from: nat, i: nat)
    requires from <= i <= |events| && NoEvents(events[..from]) && NoEvents(events[from..i]) && !NoEvents(events)
    requires i < |events| ==> !events[i].Quiet()
    ensures First(events, i)
  {
    assert events[..i] == events[..from] + events[from..i];
    assert events[..|events|] == events;
  }

  lemma LeftoverEvent(events: seq<Events>, i: nat, j: nat)
    requires i < |events| && NoEvents(events[..i]) && events[i].Quiet()
    requires i + 1 <= j <= |events| && NoEvents(events[i + 1..j]) && (j < |events| ==> !events[j].Quiet())
    ensures j < |events| <==> !NoEvents(events)
  {
    assert events[..j] == events[..i] + [events[i]] + events[i + 1..j];
    assert events[..|events|] == events;
  }

  predicate NoEvents(e: seq<Events>) {
    forall i :: 0 <= i < |e| ==> e[i].Quiet()
  }

  ghost predicate AllRunning(sessions: seq<PsSession>)
    reads sessions
  {
    forall i :: 0 <= i < |sessions| ==> sessions[i].status == Running
  }

  /** The freed sessions are those of the dropped entries, and none of them runs. */
  ghost predicate FreedAre(freed: seq<PsSession>, dropped: seq<(PsSession, PollFd)>)
    reads freed
  {
    && |freed| == |dropped|
    && forall i :: 0 <= i < |freed| ==> freed[i] == dropped[i].0 && freed[i].status != Running
  }

  ghost predicate NoRepeats(s: seq<PsSession>) {
    forall i, j :: 0 <= i < j < |s| ==> s[i] != s[j]
  }

  /** Every session that does not run occurs once. */
  ghost predicate DeadOnesOnce(sessions: seq<PsSession>)
    reads sessions
  {
    forall i, j :: 0 <= i < j < |sessions| && sessions[i].status != Running ==> sessions[i] != sessions[j]
  }

  /** Two places make a multiplicity above one, and conversely. */
  lemma {:induction false} TwiceIff(s: seq<PsSession>, x: PsSession)
    ensures multiset(s)[x] <= 1 <==> forall i, j :: 0 <= i < j < |s| && s[i] == x ==> s[j] != x
    ensures multiset(s)[x] > 0 <==> exists i :: 0 <= i < |s| && s[i] == x
  {
    if s != [] {
      var n := |s| - 1;
      var init := s[..n];
      TwiceIff(init, x);
      assert s == init + [s[n]];
      if s[n] == x && multiset(init)[x] > 0 {
        var i :| 0 <= i < n && init[i] == x;
        assert s[i] == x && s[n] == x;
      }
      assert (forall i, j :: 0 <= i < j < n && s[i] == x ==> s[j] != x) <==>
             (forall i, j :: 0 <= i < j < n && init[i] == x ==> init[j] != x);
    }
  }

  lemma FreedOnceIff(before: seq<PsSession>, after: seq<PsSession>, freed: seq<PsSession>,
                     dropped: seq<(PsSession, PollFd)>)
    requires multiset(before) == multiset(after) + multiset(freed) && AllRunning(after) && FreedAre(freed, dropped)
    ensures NoRepeats(freed) <==> DeadOnesOnce(before)
  {
    forall x: PsSession | x in multiset(before) && x.status != Running
      ensures multiset(freed)[x] == multiset(before)[x]
    {
      TwiceIff(after, x);
    }
    if NoRepeats(freed) {
      forall i, j | 0 <= i < j < |before| && before[i].status != Running ensures before[i] != before[j] {
        TwiceIff(freed, before[i]);
        TwiceIff(before, before[i]);
      }
    }
    if DeadOnesOnce(before) {
      forall i, j | 0 <= i < j < |freed| ensures freed[i] != freed[j] {
        TwiceIff(freed, freed[i]);
        TwiceIff(before, freed[i]);
      }
    }
  }

  /** A session that does not run, added twice, is freed twice. */
  method AddedTwiceIsFreedTwice() returns (freed: seq<PsSession>)
    ensures |freed| == 2 && freed[0] == freed[1]
  {
    var ps := new PollSession();
    var s := new PsSession(3, Invalid);
    ps.AddSession(s);
    ps.AddSession(s);
    ghost var dropped;
    assert ps.sessions == [s, s];
    freed, dropped := ps.ClearDead();
    forall i | 0 <= i < |freed| ensures freed[i] == s {
      assert freed[i] in multiset(freed) && freed[i] in multiset([s, s]);
    }
    assert multiset([s, s])[s] == 2;
    TwiceIff(ps.sessions, s);
    assert |multiset(freed)| == |freed|;
  }

  /** The session was read from, whatever came of it. */
  predicate WasRead(service: Service) {
    !service.LockFailed? && !service.LockTimedOut?
  }

  /**
   * When the first event is dealt with, it is gone from the table although its session was not read
   * from, if and only if the connection is not broken and the session could not be locked. The
   * event of a broken connection stays.
   */
  lemma EventLostIff(events: seq<Events>, k: nat, now: seq<Events>, service: Service,
                     flags: set<Flag>, chosen: PsSession)
    requires First(events, k) && Reaction(events, k, now, service, flags, chosen)
    ensures |now| == |events| && (now[k].Quiet() <==> !Broken(events[k]))
    ensures now[k].Quiet() && !WasRead(service) <==>
              !Broken(events[k]) && (service.LockFailed? || service.LockTimedOut?)
  {
  }

  /** Input on a session whose lock times out: the event is gone, and nothing was read. */
  method LockTimeoutLosesEvent() returns (flags: set<Flag>, ps: PollSession)
    ensures flags == {PollTimedOut} && |ps.pfds| == 1 && ps.pfds[0].revents.Quiet()
  {
    ps := new PollSession();
    var s := new PsSession(3, Running);
    ps.AddSession(s);
    var input := Events(true, false, false, false);
    var chosen, used;
    assert ps.sessions == [s] && [input][0] == input;
    flags, chosen, used := ps.Poll(Some([input]), LockTimedOut);
    forall f: Flag ensures f in flags <==> f == PollTimedOut {
      match f {
        case PollTimedOut =>
        case RpcDone =>
        case BadRpc =>
        case ReplyError =>
        case SessionTerm =>
        case Pending =>
        case Failure =>
      }
    }
  }
}
