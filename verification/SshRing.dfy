/**
 * The NETCONF sessions on one SSH connection of the server: each has its own channel, they are
 * linked in a ring, and they share the SSH session, the transport lock and the message callback.
 */
module SshRing {
  import opened SessionState

  class NcSession {
    var status: Status
    /** Null for the only session, otherwise the next one of the ring. */
    var next: NcSession?
    var channel: nat
    /** NC_SESSION_SSH_SUBSYS_NETCONF and NC_SESSION_SSH_MSG_CB. */
    var subsys: bool
    var msgCb: bool

    constructor (next: NcSession?, channel: nat, subsys: bool, msgCb: bool)
      ensures status == Starting && this.next == next && this.channel == channel
      ensures this.subsys == subsys && this.msgCb == msgCb
    {
      status := Starting;
      this.next, this.channel, this.subsys, this.msgCb := next, channel, subsys, msgCb;
    }
  }

  ghost predicate Distinct(ring: seq<NcSession>) {
    forall i, j :: 0 <= i < j < |ring| ==> ring[i] != ring[j]
  }

  /** A single node with no successor, or one cycle through exactly the given sessions. */
  ghost predicate IsRing(ring: seq<NcSession>)
    reads ring
  {
    Distinct(ring) && forall i {:trigger ring[i].next} :: 0 <= i < |ring| ==> ring[i].next == Successor(ring, i)
  }

  ghost function Successor(ring: seq<NcSession>, i: nat): NcSession?
    requires i < |ring|
  {
    if |ring| == 1 then null else if i + 1 < |ring| then ring[i + 1] else ring[0]
  }

  /** The ring as seen from its k-th session. */
  function From(ring: seq<NcSession>, k: nat): seq<NcSession>
    requires k < |ring|
  {
    ring[k..] + ring[..k]
  }

  lemma RingFrom(ring: seq<NcSession>, k: nat)
    requires IsRing(ring) && k < |ring|
    ensures IsRing(From(ring, k)) && From(ring, k)[0] == ring[k]
    ensures forall s :: s in From(ring, k) <==> s in ring
  {
    var r := From(ring, k);
    forall i | 0 <= i < |r| ensures r[i].next == Successor(r, i) {
      var j := if i < |ring| - k then k + i else i - (|ring| - k);
      assert r[i] == ring[j];
      assert Successor(ring, j) == Successor(r, i);
    }
    forall s | s in ring ensures s in r {
      var j :| 0 <= j < |ring| && ring[j] == s;
      assert r[if j >= k then j - k else j + |ring| - k] == s;
    }
  }

  /** Exactly one session of the ring has the message callback. */
  ghost predicate OneOwner(ring: seq<NcSession>, owner: NcSession)
    reads ring
  {
    owner in ring && forall s :: s in ring ==> (s.msgCb <==> s == owner)
  }

  ghost predicate AllStarting(sessions: seq<NcSession>)
    reads sessions
  {
    forall i :: 0 <= i < |sessions| ==> sessions[i].status == Starting
  }

  ghost predicate SomeRunning(sessions: seq<NcSession>)
    reads sessions
  {
    exists i :: 0 <= i < |sessions| && sessions[i].status == Running
  }

  /** The session reached from the first one of a ring by following k links, if any. */
  ghost function Hop(ring: seq<NcSession>, k: nat): (s: NcSession?)
    requires ring != [] && IsRing(ring)
    reads ring
    ensures s == null || s in ring
  {
    if k == 0 then ring[0] else
    var p := Hop(ring, k - 1);
    if p == null then null else NextInRing(ring, p); p.next
  }

  lemma NextInRing(ring: seq<NcSession>, p: NcSession)
    requires IsRing(ring) && p in ring
    ensures p.next == null || p.next in ring
  {
    var i :| 0 <= i < |ring| && ring[i] == p;
    assert p.next == Successor(ring, i);
  }

  lemma {:induction false} HopReaches(ring: seq<NcSession>, i: nat)
    requires IsRing(ring) && i < |ring|
    ensures Hop(ring, i) == ring[i]
  {
    if i > 0 {
      HopReaches(ring, i - 1);
      assert ring[i - 1].next == Successor(ring, i - 1);
    }
  }

  /**
   * The search for a running session that takes over the callback follows the links until it
   * meets one. It succeeds if and only if the ring holds a running session; otherwise it runs off
   * the end if only one session is left, and round for ever if there are more.
   */
  lemma HandOverSearchIff(ring: seq<NcSession>)
    requires ring != [] && IsRing(ring)
    ensures (exists k :: Hop(ring, k) != null && Hop(ring, k).status == Running) <==> SomeRunning(ring)
    ensures (exists k :: Hop(ring, k) == null) <==> |ring| == 1
  {
    if SomeRunning(ring) {
      var i :| 0 <= i < |ring| && ring[i].status == Running;
      HopReaches(ring, i);
    }
    if |ring| == 1 {
      HopEnds(ring, 1);
    } else {
      forall k: nat ensures Hop(ring, k) != null {
        HopGoesOn(ring, k);
      }
    }
  }

  lemma HopEnds(ring: seq<NcSession>, k: nat)
    requires |ring| == 1 && IsRing(ring) && k == 1
    ensures Hop(ring, k) == null
  {
    assert Hop(ring, 0) == ring[0] && ring[0].next == null;
  }

  lemma {:induction false} HopGoesOn(ring: seq<NcSession>, k: nat)
    requires |ring| > 1 && IsRing(ring)
    ensures Hop(ring, k) != null
  {
    if k > 0 {
      HopGoesOn(ring, k - 1);
      var i :| 0 <= i < |ring| && ring[i] == Hop(ring, k - 1);
      assert ring[i].next == Successor(ring, i);
    }
  }

  /** How freeing a session ends: it is done, or the search for an heir goes wrong. */
  datatype Fate = Done | OffTheEnd | ForEver

  /** The fate of freeing one of n sessions, if it has to find an heir and there is none, or otherwise. */
  function FateOf(stranded: bool, n: nat): Fate {
    if !stranded then Done else if n == 2 then OffTheEnd else ForEver
  }

  /**
   * What the sessions of one connection share. The ring of live sessions is passed along as a
   * ghost argument that starts at the session in question; RingOfAny turns it to any other.
   */
  class Connection {
    /** The argument libssh passes to the message callback. */
    var callback: NcSession
    /** How often ssh_free() was called on the SSH session, and free() on the transport lock. */
    var sshFreed: nat
    var lockFreed: nat
    /** References to the user name and the host name in the dictionary. */
    var userRefs: int
    var hostRefs: int

    /** The live sessions are exactly those of the ring; an empty ring means the connection is gone. */
    ghost predicate Valid(ring: seq<NcSession>)
      reads this, ring
    {
      && IsRing(ring)
      && userRefs == hostRefs == |ring|
      && (ring != [] ==> OneOwner(ring, callback))
      && sshFreed == lockFreed == if ring == [] then 1 else 0
    }

    /** A connection starts with one authenticated session that has the callback. */
    constructor ()
      ensures Valid([callback]) && fresh(callback) && callback.status == Starting
    {
      callback := new NcSession(null, 0, false, true);
      sshFreed, lockFreed, userRefs, hostRefs := 0, 0, 1, 1;
    }

    /** A ring has no first session: it can be read off from any of them. */
    lemma RingOfAny(ring: seq<NcSession>, k: nat)
      requires Valid(ring) && k < |ring|
      ensures Valid(From(ring, k)) && From(ring, k)[0] == ring[k]
      ensures forall s :: s in From(ring, k) <==> s in ring
    {
      RingFrom(ring, k);
    }

    /**
     * A subsystem request on a channel, as the message callback receives it. A second channel
     * gets a new session, inserted behind the one with the callback.
     */
    method ChannelSubsystem(channel: nat, subsystem: string, ghost ring: seq<NcSession>)
      returns (ok: bool, added: NcSession?)
      requires Valid(ring) && ring != [] && ring[0] == callback
      modifies this, ring
      ensures callback == old(callback)
      ensures added == null ==> Valid(ring)
      ensures added != null ==>
                && ok && channel != callback.channel
                && Valid([callback, added] + ring[1..])
                && fresh(added) && added.status == Starting
                && added.channel == channel && added.subsys && !added.msgCb
      ensures added != null <==> subsystem == "netconf" && Open(callback) && channel != callback.channel
      ensures added == null ==> (ok <==> subsystem == "netconf" && channel == callback.channel
                                         && |ring| == 1 && callback.status == Starting && !old(callback.subsys))
      ensures callback.subsys == (old(callback.subsys) || (ok && added == null))
      ensures forall s :: s in ring ==> s.status == old(s.status) && s.channel == old(s.channel)
    {
      var session := callback;
      added := null;
      if !Open(session) || subsystem != "netconf" {
        return false, null;
      }
      if session.channel == channel {
        assert ring[0].next == Successor(ring, 0);
        if session.next != null || session.status != Starting || session.subsys {
          return false, null;
        }
        session.subsys := true;
        return true, null;
      }
      added := new NcSession(null, channel, true, false);
      LinkBehind(session, added, ring, callback);
      userRefs, hostRefs := userRefs + 1, hostRefs + 1;
      return true, added;
    }

    /**
     * Frees the first session of the ring. While another one is past its start only this session
     * leaves the ring, and a running one takes over the callback if need be; otherwise the
     * starting sessions go with it, and the SSH session and the lock are released. The
     * references to the names balance in either case. The call does not come back, with the session
     * out of the ring and nothing released, exactly when it has the callback and the others include
     * one past its start but none that runs: with one other session the search for an heir runs off
     * the end, with more of them it runs round for ever.
     */
    method Free(session: NcSession, ghost ring: seq<NcSession>) returns (fate: Fate)
      requires Valid(ring) && ring != [] && ring[0] == session
      modifies this, ring
      ensures session.status == Closing && forall s :: s in ring && s != session ==> s.status == old(s.status)
      ensures fate == FateOf(old(session.status != Closing && session.msgCb
                                 && !AllStarting(ring[1..]) && !SomeRunning(ring[1..])), |ring|)
      ensures fate != Done ==>
                && IsRing(ring[1..]) && callback == session
                && userRefs == hostRefs == |ring| && sshFreed == lockFreed == 0
      ensures old(session.status == Closing) ==> Valid(ring) && callback == old(callback)
      ensures fate == Done && old(session.status != Closing && !AllStarting(ring[1..])) ==>
                Valid(ring[1..]) && if old(session.msgCb) then callback.status == Running else callback == old(callback)
      ensures old(session.status != Closing && AllStarting(ring[1..])) ==> Valid([])
    {
      if session.status == Closing {
        return Done;
      }
      assert ring[0].next == Successor(ring, 0);
      session.status := Closing;
      var multisession := false;
      if session.next != null {
        multisession := OthersActive(session, ring);
      }
      fate := Done;
      if !multisession {
        Dissolve(session, ring);
      } else {
        fate := Leave(session, ring);
      }
    }

    /** The last session past its start: everything is released. */
    method Dissolve(session: NcSession, ghost r: seq<NcSession>)
      requires r != [] && r[0] == session && IsRing(r)
      requires userRefs == hostRefs == |r| && sshFreed == lockFreed == 0
      modifies this, session`next
      ensures Valid([])
    {
      if session.next != null {
        DropOthers(session, r);
      } else {
        assert r[0].next == Successor(r, 0);
      }
      sshFreed := sshFreed + 1;
      userRefs, hostRefs := userRefs - 1, hostRefs - 1;
      lockFreed := lockFreed + 1;
    }

    /** Unlinks the starting sessions one by one until the session points to itself. */
    method DropOthers(session: NcSession, ghost r: seq<NcSession>)
      requires |r| > 1 && r[0] == session && IsRing(r)
      requires userRefs == hostRefs == |r|
      modifies this`userRefs, this`hostRefs, session`next
      ensures userRefs == hostRefs == 1 && session.next == session
    {
      var siter := session.next;
      assert siter == r[1] && siter.next == Successor(r, 1);
      session.next := siter.next;
      userRefs, hostRefs := userRefs - 1, hostRefs - 1;
      ghost var i := 2;
      while session.next != session
        invariant 2 <= i <= |r| && session.next == if i < |r| then r[i] else session
        invariant forall j :: 1 <= j < |r| ==> r[j].next == Successor(r, j)
        invariant userRefs == hostRefs == |r| - (i - 1)
        decreases |r| - i
      {
        siter := session.next;
        session.next := siter.next;
        userRefs, hostRefs := userRefs - 1, hostRefs - 1;
        i := i + 1;
      }
    }

    /** The session leaves the ring, and hands over the callback if it has it. */
    method Leave(session: NcSession, ghost r: seq<NcSession>) returns (fate: Fate)
      requires |r| > 1 && r[0] == session && IsRing(r) && OneOwner(r, callback)
      requires userRefs == hostRefs == |r| && sshFreed == lockFreed == 0
      modifies this`callback, this`userRefs, this`hostRefs, (set s | s in r)`next, (set s | s in r)`msgCb
      ensures fate == FateOf(old(session.msgCb) && !SomeRunning(r[1..]), |r|)
      ensures fate != Done ==> IsRing(r[1..]) && callback == session && userRefs == hostRefs == |r|
      ensures fate == Done ==> Valid(r[1..])
      ensures fate == Done ==> if old(session.msgCb) then callback.status == Running else callback == old(callback)
    {
      Unlink(session, r);
      fate := PassCallback(session, r);
      if fate == Done {
        userRefs, hostRefs := userRefs - 1, hostRefs - 1;
      }
    }

    /** The callback goes to a running session if the leaving one has it. */
    method PassCallback(session: NcSession, ghost r: seq<NcSession>) returns (fate: Fate)
      requires |r| > 1 && r[0] == session && Distinct(r) && OneOwner(r, callback)
      requires IsRing(r[1..]) && session.next == r[1]
      modifies this`callback, (set s | s in r)`msgCb
      ensures fate == FateOf(old(session.msgCb) && !SomeRunning(r[1..]), |r|)
      ensures IsRing(r[1..]) && (fate != Done ==> callback == session)
      ensures fate == Done ==> OneOwner(r[1..], callback)
      ensures fate == Done ==> if old(session.msgCb) then callback.status == Running else callback == old(callback)
    {
      RestIsOthers(r);
      fate := Done;
      if session.msgCb {
        var heir;
        fate, heir := FindRunning(session, r[1..]);
        if heir != null {
          callback := heir;
          heir.msgCb := true;
        }
      }
    }
  }

  lemma RestIsOthers(r: seq<NcSession>)
    requires r != [] && Distinct(r)
    ensures forall s :: s in r[1..] <==> s in r && s != r[0]
  {
    assert r == [r[0]] + r[1..];
    assert forall i :: 1 <= i < |r| ==> r[0] != r[i];
  }

  /** Walks the ring: is any other session past its start? */
  method OthersActive(session: NcSession, ghost r: seq<NcSession>) returns (multisession: bool)
    requires |r| > 1 && r[0] == session && IsRing(r)
    ensures multisession <==> !AllStarting(r[1..])
  {
    var siter := session.next;
    ghost var i := 1;
    while siter != session
      invariant 1 <= i <= |r| && siter == if i < |r| then r[i] else session
      invariant forall j :: 1 <= j < i ==> r[j].status == Starting
      decreases |r| - i
    {
      if siter.status != Starting {
        assert r[1..][i - 1] == siter;
        return true;
      }
      siter := siter.next;
      i := i + 1;
    }
    return false;
  }

  /** Messages for other sessions are not looked at. */
  predicate Open(s: NcSession)
    reads s
  {
    s.status != Closing && s.status != Invalid
  }

  /** A session whose channel waits for its NETCONF handshake. */
  predicate Acceptable(s: NcSession)
    reads s
  {
    s.status == Starting && s.channel != 0 && s.subsys
  }

  /**
   * Looks for a waiting channel next to a running session and performs the handshake on it, which
   * leaves the session running, starting or invalid. The first waiting session in ring order is
   * taken, and it stays in the ring in any case.
   */
  method AcceptChannel(orig: NcSession, handshake: Status, ghost ring: seq<NcSession>)
    returns (found: NcSession?)
    requires ring != [] && ring[0] == orig && IsRing(ring) && handshake != Closing
    modifies (set s | s in ring)`status
    ensures IsRing(ring)
    ensures found == null <==> old(orig.status) != Running || forall i :: 1 <= i < |ring| ==> !old(Acceptable(ring[i]))
    ensures found != null ==>
              exists i :: 1 <= i < |ring| && ring[i] == found && old(Acceptable(found))
                          && forall j :: 1 <= j < i ==> !old(Acceptable(ring[j]))
    ensures forall s :: s in ring ==>
              s.status == if s == found then handshake else old(s.status)
  {
    found := null;
    assert orig.next == Successor(ring, 0);
    if orig.status != Running || orig.next == null {
      return;
    }
    found := orig.next;
    ghost var i := 1;
    while found != orig && !Acceptable(found)
      invariant 1 <= i <= |ring| && found == if i < |ring| then ring[i] else orig
      invariant forall j :: 1 <= j < i ==> !Acceptable(ring[j])
      decreases |ring| - i
    {
      found := found.next;
      i := i + 1;
    }
    if found == orig {
      return null;
    }
    found.status := handshake;
  }

  /**
   * One more channel on a connection whose first session runs and has the callback, with a
   * handshake that fails with the transport.
   */
  method FailedHandshake(c: Connection, owner: NcSession, channel: nat, ghost ring: seq<NcSession>)
    returns (added: NcSession)
    requires c.Valid(ring) && ring != [] && ring[0] == owner == c.callback && owner.status == Running
    requires channel != owner.channel && channel != 0
    modifies c, ring
    ensures fresh(added) && c.Valid([owner, added] + ring[1..]) && c.callback == owner
    ensures added.status == Invalid && owner.channel == old(owner.channel)
    ensures forall s :: s in ring ==> s.status == old(s.status)
  {
    var _, session := c.ChannelSubsystem(channel, "netconf", ring);
    ghost var longer := [owner, session] + ring[1..];
    assert longer[1] == session && Acceptable(longer[1]);
    InsertedMembers(ring, session);
    var _ := AcceptChannel(owner, Invalid, longer);
    added := session;
  }

  /**
   * Two sessions: the running one with the callback, and one whose handshake failed. Freeing the
   * first runs off the end.
   */
  method OneFailedHandshake() returns (fate: Fate)
    ensures fate == OffTheEnd
  {
    var c, owner := RunningOwner();
    var sibling := FailedHandshake(c, owner, 2, [owner]);
    ghost var ring := [owner, sibling];
    assert ring == [owner, sibling] + [owner][1..];
    assert ring[1..] == [sibling] && [sibling][0].status == Invalid;
    fate := c.Free(owner, ring);
  }

  /** Three sessions, two of them with a failed handshake: freeing the first runs for ever. */
  method TwoFailedHandshakes() returns (fate: Fate)
    ensures fate == ForEver
  {
    var c, owner := RunningOwner();
    var second := FailedHandshake(c, owner, 2, [owner]);
    ghost var two := [owner, second];
    assert two == [owner, second] + [owner][1..];
    var third := FailedHandshake(c, owner, 3, two);
    ghost var ring := [owner, third, second];
    assert ring == [owner, third] + two[1..];
    assert second in two;
    assert ring[1..] == [third, second] && [third, second][0].status == Invalid;
    fate := c.Free(owner, ring);
  }

  /** A connection with one running session. */
  method RunningOwner() returns (c: Connection, owner: NcSession)
    ensures fresh(c) && fresh(owner) && c.callback == owner && c.Valid([owner])
    ensures owner.status == Running && owner.channel == 1
  {
    c := new Connection();
    owner := c.callback;
    owner.channel := 1;
    var _, _ := c.ChannelSubsystem(1, "netconf", [owner]);
    owner.status := Running;
  }

  /** Takes the first session out of its ring; the last of two is left without a successor. */
  method Unlink(session: NcSession, ghost r: seq<NcSession>)
    requires |r| > 1 && r[0] == session && IsRing(r)
    modifies (set s | s in r)`next
    ensures IsRing(r[1..]) && session.next == r[1]
  {
    var siter := session.next;
    ghost var i := 1;
    while siter.next != session
      invariant 1 <= i < |r| && siter == r[i]
      decreases |r| - i
    {
      siter := siter.next;
      i := i + 1;
    }
    if session.next == siter {
      siter.next := null;
    } else {
      siter.next := session.next;
    }
    ghost var q := r[1..];
    forall j | 0 <= j < |q| ensures q[j].next == Successor(q, j) {
      assert q[j] == r[j + 1];
    }
  }

  /**
   * The first running session from the unlinked one's successor on. If there is none the source
   * runs off the end of a single session, and round a ring for ever: the search here stops where
   * it comes back to its beginning.
   */
  method FindRunning(session: NcSession, ghost q: seq<NcSession>) returns (fate: Fate, heir: NcSession?)
    requires q != [] && session.next == q[0] && session !in q && IsRing(q)
    ensures fate == if SomeRunning(q) then Done else if |q| == 1 then OffTheEnd else ForEver
    ensures if SomeRunning(q) then heir != null && heir in q && heir.status == Running else heir == null
  {
    var start := session.next;
    if start.status == Running {
      assert q[0].status == Running;
      return Done, start;
    }
    assert q[0].next == Successor(q, 0);
    var siter := start.next;
    ghost var i := 1;
    while siter != null && siter != start && siter.status != Running
      invariant 1 <= i <= |q| && siter == Successor(q, i - 1)
      invariant forall j :: 0 <= j < i ==> q[j].status != Running
      decreases |q| - i
    {
      assert siter == q[i] && siter.next == Successor(q, i);
      assert siter.next != session;  // so the emergency exit of the source is never taken
      siter := siter.next;
      i := i + 1;
    }
    if siter == null {
      return OffTheEnd, null;
    } else if siter == start {
      return ForEver, null;
    }
    return Done, siter;
  }

  /** Links a new session behind the first one of a ring. */
  method LinkBehind(session: NcSession, added: NcSession, ghost r: seq<NcSession>, ghost owner: NcSession)
    requires r != [] && r[0] == session && IsRing(r) && OneOwner(r, owner)
    requires added !in r && !added.msgCb
    modifies session`next, added`next
    ensures session.next == added && IsRing([session, added] + r[1..])
    ensures OneOwner([session, added] + r[1..], owner)
  {
    InsertedMembers(r, added);
    added.next := if session.next == null then session else session.next;
    session.next := added;
    ghost var q := [session, added] + r[1..];
    forall i | 0 <= i < |q| ensures q[i].next == Successor(q, i) {
      if i >= 2 { assert q[i] == r[i - 1] && q[i].next == Successor(r, i - 1); }
    }
    DistinctInsert(r, added);
  }

  lemma InsertedMembers(r: seq<NcSession>, added: NcSession)
    requires r != []
    ensures forall s :: s in [r[0], added] + r[1..] <==> s in r || s == added
  {
    assert r == [r[0]] + r[1..];
  }

  lemma DistinctInsert(r: seq<NcSession>, added: NcSession)
    requires r != [] && Distinct(r) && added !in r
    ensures Distinct([r[0], added] + r[1..])
  {
    var q := [r[0], added] + r[1..];
    forall i, j | 0 <= i < j < |q| ensures q[i] != q[j] {
      assert j >= 2 ==> q[j] == r[j - 1];
      assert i >= 2 ==> q[i] == r[i - 1];
    }
  }

  // ---------------------------------------------------------------- whole connections

  /** What can happen on a connection; positions count from any session of the ring. */
  datatype Request =
    | Subsystem(channel: nat, name: string)  // a subsystem request on a channel
    | Shake(outcome: Status)                 // the handshake of the session with the callback
    | Accept(at: nat, outcome: Status)       // nc_session_accept_ssh_channel()
    | Release(at: nat)                       // nc_session_free()

  ghost predicate NoneClosing(ring: seq<NcSession>)
    reads ring
  {
    forall s :: s in ring ==> s.status != Closing
  }

  /** Nobody has the callback, and nobody left could take it. */
  ghost predicate Stranded(c: Connection, ring: seq<NcSession>, fate: Fate)
    reads c, ring
  {
    && ring != [] && IsRing(ring) && c.callback !in ring && !SomeRunning(ring)
    && c.sshFreed == c.lockFreed == 0
    && fate == if |ring| == 1 then OffTheEnd else ForEver
  }

  /**
   * Any sequence of requests: the sessions of the connection always form one ring with one owner of
   * the callback, and the SSH session, the lock and the names are released once, with the last
   * session past its start; unless freeing the owner of the callback does not come back, and then
   * none of the sessions left runs.
   */
  method Serve(requests: seq<Request>) returns (c: Connection, ring: seq<NcSession>, fate: Fate)
    ensures if fate == Done then c.Valid(ring) && NoneClosing(ring) else Stranded(c, ring, fate)
  {
    c := new Connection();
    ring, fate := [c.callback], Done;
    for i := 0 to |requests|
      invariant fresh(c) && fresh(ring)
      invariant fate == Done && c.Valid(ring) && NoneClosing(ring)
    {
      if ring == [] {
        return;
      }
      ring, fate := Handle(c, ring, requests[i]);
      if fate != Done {
        return;
      }
    }
  }

  /**
   * What a request does to the set of sessions: one that is released is gone, with all others if it
   * takes the connection with it; a subsystem request adds one at most; nothing else changes the set.
   */
  ghost predicate Membership(before: seq<NcSession>, request: Request, after: seq<NcSession>) {
    match request
    case Subsystem(_, _) => Includes(after, before) && |after| <= |before| + 1
    case Shake(_) => after == before
    case Accept(_, _) => Includes(after, before) && Includes(before, after)
    case Release(at) =>
      if at < |before| then after == [] || IsWithout(before, before[at], after) else after == before
  }

  ghost predicate Includes(a: seq<NcSession>, b: seq<NcSession>) {
    forall s :: s in b ==> s in a
  }

  ghost predicate IsWithout(ring: seq<NcSession>, session: NcSession, rest: seq<NcSession>) {
    && (forall s :: s in rest ==> s in ring && s != session)
    && (forall s :: s in ring && s != session ==> s in rest)
  }

  /** One request on a connection that still has sessions. */
  method Handle(c: Connection, ring: seq<NcSession>, request: Request) returns (ring': seq<NcSession>, fate: Fate)
    requires c.Valid(ring) && ring != [] && NoneClosing(ring)
    modifies c, ring
    ensures forall i :: 0 <= i < |ring'| ==> ring'[i] in ring || fresh(ring'[i])
    ensures if fate == Done then c.Valid(ring') && NoneClosing(ring') else Stranded(c, ring', fate)
    ensures Membership(ring, request, ring')
  {
    ring', fate := ring, Done;
    match request {
      case Subsystem(channel, name) =>
        ring' := Requested(c, ring, channel, name);
      case Shake(outcome) =>
        if c.callback.status == Starting && c.callback.subsys && outcome != Closing {
          c.callback.status := outcome;
        }
      case Accept(at, outcome) =>
        if at < |ring| && outcome != Closing {
          ring' := Accepted(c, ring, at, outcome);
        }
      case Release(at) =>
        if at < |ring| {
          c.RingOfAny(ring, at);
          ring', fate := Released(c, From(ring, at));
        }
    }
  }

  /** nc_session_accept_ssh_channel() on one of the sessions. */
  method Accepted(c: Connection, ring: seq<NcSession>, at: nat, outcome: Status) returns (ring': seq<NcSession>)
    requires c.Valid(ring) && NoneClosing(ring) && at < |ring| && outcome != Closing
    modifies c, ring
    ensures c.Valid(ring') && NoneClosing(ring') && Includes(ring', ring) && Includes(ring, ring')
  {
    c.RingOfAny(ring, at);
    ring' := From(ring, at);
    var _ := AcceptChannel(ring'[0], outcome, ring');
  }

  /** A subsystem request goes to the session with the callback. */
  method Requested(c: Connection, ring: seq<NcSession>, channel: nat, name: string) returns (ring': seq<NcSession>)
    requires c.Valid(ring) && ring != [] && NoneClosing(ring)
    modifies c, ring
    ensures forall i :: 0 <= i < |ring'| ==> ring'[i] in ring || fresh(ring'[i])
    ensures c.Valid(ring') && NoneClosing(ring') && Includes(ring', ring) && |ring'| <= |ring| + 1
  {
    var k := 0;
    while ring[k] != c.callback
      invariant k < |ring| && c.callback in ring[k..]
      decreases |ring| - k
    {
      k := k + 1;
    }
    c.RingOfAny(ring, k);
    ring' := From(ring, k);
    var _, added := c.ChannelSubsystem(channel, name, ring');
    if added != null {
      InsertedMembers(ring', added);
      ring' := [ring'[0], added] + ring'[1..];
    }
  }

  /** Frees the first session of the ring. */
  method Released(c: Connection, ring: seq<NcSession>) returns (ring': seq<NcSession>, fate: Fate)
    requires c.Valid(ring) && ring != [] && NoneClosing(ring)
    modifies c, ring
    ensures forall s :: s in ring' ==> s in ring
    ensures if fate == Done then c.Valid(ring') && NoneClosing(ring') else Stranded(c, ring', fate)
    ensures if old(AllStarting(ring[1..])) then ring' == [] else IsWithout(ring, ring[0], ring')
  {
    RestIsOthers(ring);
    fate := c.Free(ring[0], ring);
    ring' := if fate == Done && c.sshFreed == 1 then [] else ring[1..];
  }
}
