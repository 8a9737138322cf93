/**
 * Pipelining end to end (sections 4.1 and 4.5 of RFC 6241): a client that sends any number of
 * rpcs, two first-in first-out channels, a server that answers each rpc in one step with the
 * attributes of the rpc, and notifications in between.
 */
module Pipeline {
  import opened Text
  import opened Messages
  import opened Demux

  datatype System = System(
    msgid: nat,              // client: the last message-id used
    sent: seq<nat>,          // the ids nc_send_rpc() returned, in order
    toServer: seq<string>,   // message-id attributes of the rpcs in transit
    client: Queues,          // the client's queues and the channel to it
    delivered: seq<Msg>      // the replies handed to the client
  )

  const START := System(0, [], [], Queues([], [], []), [])

  datatype Step =
    | Send                                 // client: nc_send_rpc()
    | Serve(reply: string)                 // server: read an rpc, write its reply
    | Notify(notif: string)                // server: write a notification
    | Receive(msgid: nat, chance: Chance)  // client: nc_recv_reply(), or nc_recv_notif() with id 0

  predicate Enabled(s: System, step: Step) {
    match step
    case Send => true
    case Serve(_) => s.toServer != []
    case Notify(_) => true
    case Receive(_, _) => s.client.Valid()
  }

  function Do(s: System, step: Step): System
    requires Enabled(s, step)
  {
    match step
    case Send =>
      var id := NextId(s.msgid);
      s.(msgid := id, sent := s.sent + [id], toServer := s.toServer + [Decimal(id)])
    case Serve(reply) =>
      s.(toServer := s.toServer[1..],
         client := s.client.(wire := s.client.wire + [ReplyMsg(Some(s.toServer[0]), reply)]))
    case Notify(notif) =>
      s.(client := s.client.(wire := s.client.wire + [NotifMsg(notif)]))
    case Receive(msgid, chance) =>
      var o := Get(s.client, msgid, chance);
      s.(client := o.queues, delivered := s.delivered + Delivered(o.msg, true))
  }

  // ---------------------------------------------------------------- invariant

  function Ids(ms: seq<Msg>): seq<Option<string>> {
    seq(|ms|, i requires 0 <= i < |ms| => if ms[i].ReplyMsg? then ms[i].id else None)
  }

  function Sent(texts: seq<string>): seq<Option<string>> {
    seq(|texts|, i requires 0 <= i < |texts| => Some(texts[i]))
  }

  function Printed(ids: seq<nat>): seq<Option<string>> {
    seq(|ids|, i requires 0 <= i < |ids| => Some(Decimal(ids[i])))
  }

  /** The replies delivered and pending, in order. */
  function AllReplies(s: System): seq<Msg> {
    s.delivered + PendingReplies(s.client)
  }

  /**
   * The ids of the replies delivered, queued and on the wire, followed by those of the rpcs in
   * transit, are the ids sent, each the successor of the one before it modulo 2^64.
   */
  ghost predicate Inv(s: System) {
    && s.client.Valid()
    && s.msgid == LastId(s.sent)
    && (forall i :: 0 <= i < |s.sent| ==> s.sent[i] == NextId(LastId(s.sent[..i])))
    && (forall m :: m in s.delivered ==> m.ReplyMsg?)
    && Ids(AllReplies(s)) + Sent(s.toServer) == Printed(s.sent)
  }

  function LastId(sent: seq<nat>): nat {
    if sent == [] then 0 else sent[|sent| - 1]
  }

  lemma IdsConcat(a: seq<Msg>, b: seq<Msg>)
    ensures Ids(a + b) == Ids(a) + Ids(b)
  {
  }

  lemma ArrivalIsPending(q: Queues, m: Msg)
    ensures PendingReplies(q.(wire := q.wire + [m])) == PendingReplies(q) + if m.ReplyMsg? then [m] else []
  {
    RepliesConcat(q.wire, [m]);
    ConcatAssoc(q.replies, Replies(q.wire), Replies([m]));
    assert Replies([m]) == (if m.ReplyMsg? then [m] else []) + Replies([m][1..]);
  }

  lemma SendKeeps(s: System)
    requires Inv(s) && Enabled(s, Send)
    ensures Inv(Do(s, Send))
  {
    var s' := Do(s, Send);
    var id := NextId(s.msgid);
    forall i | 0 <= i < |s'.sent| ensures s'.sent[i] == NextId(LastId(s'.sent[..i])) {
      assert s'.sent[..i] == s.sent[..i];
      assert s.sent[..|s.sent|] == s.sent;
    }
    assert Sent(s'.toServer) == Sent(s.toServer) + [Some(Decimal(id))];
    assert Printed(s'.sent) == Printed(s.sent) + [Some(Decimal(id))];
    ConcatAssoc(Ids(AllReplies(s)), Sent(s.toServer), [Some(Decimal(id))]);
  }

  lemma ServeKeeps(s: System, reply: string)
    requires Inv(s) && Enabled(s, Serve(reply))
    ensures Inv(Do(s, Serve(reply)))
  {
    var s' := Do(s, Serve(reply));
    var m := ReplyMsg(Some(s.toServer[0]), reply);
    ArrivalIsPending(s.client, m);
    ConcatAssoc(s.delivered, PendingReplies(s.client), [m]);
    IdsConcat(AllReplies(s), [m]);
    assert Sent(s.toServer) == Ids([m]) + Sent(s'.toServer);
    ConcatAssoc(Ids(AllReplies(s)), Ids([m]), Sent(s'.toServer));
  }

  lemma NotifyKeeps(s: System, notif: string)
    requires Inv(s)
    ensures Inv(Do(s, Notify(notif)))
  {
    ArrivalIsPending(s.client, NotifMsg(notif));
    assert PendingReplies(s.client) + [] == PendingReplies(s.client);
  }

  lemma ReceiveKeeps(s: System, msgid: nat, chance: Chance)
    requires Inv(s)
    ensures Inv(Do(s, Receive(msgid, chance)))
  {
    var o := Get(s.client, msgid, chance);
    GetConserves(s.client, msgid, chance);
    ConcatAssoc(s.delivered, Delivered(o.msg, true), PendingReplies(o.queues));
  }

  lemma StepKeepsInv(s: System, step: Step)
    requires Inv(s) && Enabled(s, step)
    ensures Inv(Do(s, step))
  {
    match step
    case Send => SendKeeps(s);
    case Serve(reply) => ServeKeeps(s, reply);
    case Notify(notif) => NotifyKeeps(s, notif);
    case Receive(msgid, chance) => ReceiveKeeps(s, msgid, chance);
  }

  // ---------------------------------------------------------------- whole runs

  ghost predicate Run(states: seq<System>, steps: seq<Step>) {
    && |states| == |steps| + 1 && states[0] == START
    && forall i :: 0 <= i < |steps| ==> Enabled(states[i], steps[i]) && states[i + 1] == Do(states[i], steps[i])
  }

  lemma {:induction false} RunKeepsInv(states: seq<System>, steps: seq<Step>, n: nat)
    requires Run(states, steps) && n < |states|
    ensures Inv(states[n])
  {
    if n > 0 {
      RunKeepsInv(states, steps, n - 1);
      StepKeepsInv(states[n - 1], steps[n - 1]);
    }
  }

  /** The id of the next reply to be delivered is that of the first rpc without one. */
  lemma NextReply(s: System, m: Msg)
    requires Inv(s) && PendingReplies(s.client) != [] && PendingReplies(s.client)[0] == m
    ensures |s.delivered| < |s.sent|
    ensures m.ReplyMsg? && m.id == Some(Decimal(s.sent[|s.delivered|]))
  {
    var k := |s.delivered|;
    var all := Ids(AllReplies(s));
    assert AllReplies(s)[k] == m && all[k] == if m.ReplyMsg? then m.id else None;
    assert (all + Sent(s.toServer))[k] == all[k];
    assert Printed(s.sent)[k] == all[k];
  }

  /**
   * In every interleaving, asking for a reply with a non-zero id never hands out a reply with an
   * unexpected message-id if the replies are asked for in the order of sending, and always does
   * otherwise: a reply that is handed out matches if and only if the id asked for is that of the
   * first rpc whose reply was not handed out yet.
   */
  lemma RepliesMatchIff(states: seq<System>, steps: seq<Step>, n: nat, msgid: nat, chance: Chance)
    requires Run(states, steps) && n < |states| && msgid != 0
    ensures states[n].client.Valid()
    ensures var s := states[n];
            var o := Get(s.client, msgid, chance);
            o.kind == GotReply || o.kind == GotWrongId ==>
              && |s.delivered| < |s.sent|
              && (o.kind == GotReply <==> msgid == s.sent[|s.delivered|])
  {
    RunKeepsInv(states, steps, n);
    var s := states[n];
    var o := Get(s.client, msgid, chance);
    GetConserves(s.client, msgid, chance);
    if o.kind == GotReply || o.kind == GotWrongId {
      var m := o.msg.value;
      GotMeansReply(s.client, msgid, chance);
      assert PendingReplies(s.client)[0] == m;
      NextReply(s, m);
      var id := s.sent[|s.delivered|];
      PrintedNumberIsScanned(id, "");
      assert Decimal(id) + "" == Decimal(id);
    }
  }

  lemma GotMeansReply(q: Queues, msgid: nat, chance: Chance)
    requires q.Valid() && msgid != 0
    ensures var o := Get(q, msgid, chance);
            o.kind == GotReply || o.kind == GotWrongId ==>
              o.msg.Some? && o.msg.value.ReplyMsg? && o.kind == MatchingKind(o.msg.value, msgid)
  {
    if q.replies != [] { assert q.replies[0] in q.replies; }
  }

  /** Nothing is lost: with both channels and the queue empty, every rpc has had its reply, in order. */
  lemma EveryRpcIsAnswered(states: seq<System>, steps: seq<Step>, n: nat, i: nat)
    requires Run(states, steps) && n < |states|
    requires states[n].toServer == [] && PendingReplies(states[n].client) == []
    ensures |states[n].delivered| == |states[n].sent|
    ensures i < |states[n].sent| ==>
              var m := states[n].delivered[i];
              m.ReplyMsg? && m.id == Some(Decimal(states[n].sent[i]))
  {
    RunKeepsInv(states, steps, n);
    var s := states[n];
    assert AllReplies(s) == s.delivered;
    assert Ids(s.delivered) == Printed(s.sent);
    if i < |s.sent| {
      assert Printed(s.sent)[i] == Ids(s.delivered)[i];
      assert s.delivered[i] in s.delivered;
    }
  }

  // ---------------------------------------------------------------- what the steps do

  /** How many of the first n steps send, and how many serve. */
  function Sends(steps: seq<Step>, n: nat): nat
    requires n <= |steps|
  {
    if n == 0 then 0 else Sends(steps, n - 1) + if steps[n - 1].Send? then 1 else 0
  }

  function Serves(steps: seq<Step>, n: nat): nat
    requires n <= |steps|
  {
    if n == 0 then 0 else Serves(steps, n - 1) + if steps[n - 1].Serve? then 1 else 0
  }

  /** In every run, every call of nc_send_rpc() sends an rpc and every service answers one. */
  lemma {:induction false} RpcsAreCounted(states: seq<System>, steps: seq<Step>, n: nat)
    requires Run(states, steps) && n < |states|
    ensures |states[n].sent| == Sends(steps, n)
    ensures |states[n].toServer| == Sends(steps, n) - Serves(steps, n)
    ensures |AllReplies(states[n])| == Serves(steps, n)
  {
    if n > 0 { RpcsAreCounted(states, steps, n - 1); }
    RunKeepsInv(states, steps, n);
    var s := states[n];
    assert |Ids(AllReplies(s)) + Sent(s.toServer)| == |Printed(s.sent)|;
  }

  /** Where the texts the server writes go: behind all that is pending of their kind, and nowhere else. */
  lemma WrittenIsPending(s: System, step: Step)
    requires Enabled(s, step) && (step.Serve? || step.Notify?)
    ensures var s' := Do(s, step);
            && PendingReplies(s'.client) == PendingReplies(s.client) +
                 (if step.Serve? then [ReplyMsg(Some(s.toServer[0]), step.reply)] else [])
            && PendingNotifs(s'.client) == PendingNotifs(s.client) +
                 (if step.Notify? then [NotifMsg(step.notif)] else [])
            && s'.delivered == s.delivered && s'.sent == s.sent
  {
    var m := if step.Serve? then ReplyMsg(Some(s.toServer[0]), step.reply) else NotifMsg(step.notif);
    ArrivalIsPending(s.client, m);
    NotifsConcat(s.client.wire, [m]);
    ConcatAssoc(s.client.notifs, Notifs(s.client.wire), Notifs([m]));
    assert Notifs([m]) == (if m.NotifMsg? then [m] else []) + Notifs([m][1..]);
  }

  // ---------------------------------------------------------------- every rpc can be answered

  /** A path from any state on. */
  ghost predicate Path(states: seq<System>, steps: seq<Step>) {
    && |states| == |steps| + 1
    && forall i :: 0 <= i < |steps| ==> Enabled(states[i], steps[i]) && states[i + 1] == Do(states[i], steps[i])
  }

  lemma PathFrom(s: System, step: Step, states: seq<System>, steps: seq<Step>)
    requires Enabled(s, step) && Path(states, steps) && states[0] == Do(s, step)
    ensures Path([s] + states, [step] + steps)
  {
    var states', steps' := [s] + states, [step] + steps;
    forall i | 0 <= i < |steps'|
      ensures Enabled(states'[i], steps'[i]) && states'[i + 1] == Do(states'[i], steps'[i])
    {
      if i > 0 { assert states'[i] == states[i - 1] && steps'[i] == steps[i - 1]; }
    }
  }

  /** The server serves, or the client asks for a reply. */
  predicate Works(step: Step) {
    step.Serve? || (step.Receive? && step.msgid != 0 && step.chance.Ready?)
  }

  /** How much is still to be done. */
  function Work(s: System): nat {
    3 * |s.toServer| + 2 * |s.client.wire| + |s.client.replies|
  }

  /** Asking for a reply makes progress as long as one is pending. */
  lemma ReceiveWorks(s: System, msgid: nat)
    requires s.client.Valid() && msgid != 0 && PendingReplies(s.client) != []
    ensures Work(Do(s, Receive(msgid, Ready))) < Work(s) && Do(s, Receive(msgid, Ready)).sent == s.sent
  {
    DeliversIff(s.client, msgid, Ready);
    if Get(s.client, msgid, Ready).msg.None? { UndeliveredKind(s.client, msgid, Ready); }
  }

  lemma {:induction false} Drains(s: System) returns (states: seq<System>, steps: seq<Step>)
    requires Inv(s)
    ensures Path(states, steps) && states[0] == s && forall i :: 0 <= i < |steps| ==> Works(steps[i])
    ensures var end := states[|steps|];
            end.sent == s.sent && end.toServer == [] && PendingReplies(end.client) == []
            && |end.delivered| == |s.sent|
    decreases Work(s)
  {
    if s.toServer == [] && PendingReplies(s.client) == [] {
      assert Ids(AllReplies(s)) + Sent([]) == Printed(s.sent);
      return [s], [];
    }
    var step := if s.toServer != [] then Serve("") else Receive(1, Ready);
    if s.toServer == [] { ReceiveWorks(s, 1); }
    StepKeepsInv(s, step);
    states, steps := Drains(Do(s, step));
    PathFrom(s, step, states, steps);
    states, steps := [s] + states, [step] + steps;
  }

  /**
   * From every state of every run, serving and asking for replies can go on until every rpc sent has
   * had its reply.
   */
  lemma AllCanBeAnswered(states: seq<System>, steps: seq<Step>, n: nat)
    returns (more: seq<System>, work: seq<Step>)
    requires Run(states, steps) && n < |states|
    ensures Path(more, work) && more[0] == states[n] && forall i :: 0 <= i < |work| ==> Works(work[i])
    ensures more[|work|].sent == states[n].sent && |more[|work|].delivered| == |states[n].sent|
  {
    RunKeepsInv(states, steps, n);
    more, work := Drains(states[n]);
  }
}
