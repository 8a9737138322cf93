/**
 * The client's message demultiplexer: replies and notifications share one wire, and a reader that
 * meets a message of the other kind queues it for the other reader.
 */
module Demux {
  import opened Text

  /** A message on the wire. A reply carries the message-id attribute it was sent with, if any. */
  datatype Msg =
    | ReplyMsg(id: Option<string>, reply: string)
    | NotifMsg(notif: string)
    | StrayMsg(stray: string)  // a hello or an rpc

  datatype MsgType = MsgError | WouldBlock | GotReply | GotWrongId | GotNotif

  /** What the lock and the poll of one call come to. */
  datatype Chance = LockFailed | LockTimeout | PollFailed | PollTimeout | Ready

  datatype Queues = Queues(replies: seq<Msg>, notifs: seq<Msg>, wire: seq<Msg>) {
    /** Replies where they belong, notifications likewise. */
    predicate Valid() {
      && (forall m :: m in replies ==> m.ReplyMsg?)
      && (forall m :: m in notifs ==> m.NotifMsg?)
    }
  }

  datatype Outcome = Outcome(queues: Queues, kind: MsgType, msg: Option<Msg>)

  function MatchingKind(m: Msg, msgid: nat): MsgType
    requires m.ReplyMsg?
  {
    if m.id.Some? && Strtoul(m.id.value) == msgid then GotReply else GotWrongId
  }

  /** get_msg(): msgid 0 asks for a notification, anything else for the reply with that id. */
  function Get(q: Queues, msgid: nat, chance: Chance): Outcome
    requires q.Valid()
  {
    if chance.LockFailed? then Outcome(q, MsgError, None)
    else if chance.LockTimeout? then Outcome(q, WouldBlock, None)
    else if msgid == 0 && q.notifs != [] then
      Outcome(q.(notifs := q.notifs[1..]), GotNotif, Some(q.notifs[0]))
    else if msgid != 0 && q.replies != [] then
      Outcome(q.(replies := q.replies[1..]), MatchingKind(q.replies[0], msgid), Some(q.replies[0]))
    else if chance.PollFailed? then Outcome(q, MsgError, None)
    else if chance.PollTimeout? || q.wire == [] then Outcome(q, WouldBlock, None)
    else
      var m, rest := q.wire[0], q.wire[1..];
      match m
      case ReplyMsg(_, _) =>
        if msgid == 0 then Outcome(Queues(q.replies + [m], q.notifs, rest), GotReply, None)
        else Outcome(q.(wire := rest), MatchingKind(m, msgid), Some(m))
      case NotifMsg(_) =>
        if msgid == 0 then Outcome(q.(wire := rest), GotNotif, Some(m))
        else Outcome(Queues(q.replies, q.notifs + [m], rest), GotNotif, None)
      case StrayMsg(_) => Outcome(q.(wire := rest), MsgError, None)
  }

  // ---------------------------------------------------------------- conservation

  function Replies(ms: seq<Msg>): seq<Msg> {
    if ms == [] then [] else (if ms[0].ReplyMsg? then [ms[0]] else []) + Replies(ms[1..])
  }

  function Notifs(ms: seq<Msg>): seq<Msg> {
    if ms == [] then [] else (if ms[0].NotifMsg? then [ms[0]] else []) + Notifs(ms[1..])
  }

  lemma {:induction false} RepliesConcat(a: seq<Msg>, b: seq<Msg>)
    ensures Replies(a + b) == Replies(a) + Replies(b)
  {
    if a == [] {
      assert a + b == b;
    } else {
      assert (a + b)[0] == a[0] && (a + b)[1..] == a[1..] + b;
      RepliesConcat(a[1..], b);
    }
  }

  lemma {:induction false} NotifsConcat(a: seq<Msg>, b: seq<Msg>)
    ensures Notifs(a + b) == Notifs(a) + Notifs(b)
  {
    if a == [] {
      assert a + b == b;
    } else {
      assert (a + b)[0] == a[0] && (a + b)[1..] == a[1..] + b;
      NotifsConcat(a[1..], b);
    }
  }

  /** The replies not delivered yet, in the order in which they will be. */
  function PendingReplies(q: Queues): seq<Msg> {
    q.replies + Replies(q.wire)
  }

  function PendingNotifs(q: Queues): seq<Msg> {
    q.notifs + Notifs(q.wire)
  }

  function Delivered(msg: Option<Msg>, isReply: bool): seq<Msg> {
    if msg.Some? && msg.value.ReplyMsg? == isReply then [msg.value] else []
  }

  /**
   * One call loses, duplicates and reorders nothing: what it hands out, followed by what is then
   * pending, is what was pending before, for replies and for notifications.
   */
  lemma GetConserves(q: Queues, msgid: nat, chance: Chance)
    requires q.Valid()
    ensures var o := Get(q, msgid, chance);
            && o.queues.Valid()
            && PendingReplies(q) == Delivered(o.msg, true) + PendingReplies(o.queues)
            && PendingNotifs(q) == Delivered(o.msg, false) + PendingNotifs(o.queues)
  {
    if chance.LockFailed? || chance.LockTimeout? {
    } else if msgid == 0 && q.notifs != [] {
      assert q.notifs[0] in q.notifs;
      PopConserves(q.notifs, Notifs(q.wire));
    } else if msgid != 0 && q.replies != [] {
      assert q.replies[0] in q.replies;
      PopConserves(q.replies, Replies(q.wire));
    } else if chance.Ready? && q.wire != [] {
      ReadConserves(q, msgid);
    }
  }

  lemma PopConserves(queue: seq<Msg>, later: seq<Msg>)
    requires queue != []
    ensures queue + later == [queue[0]] + (queue[1..] + later)
  {
    assert queue == [queue[0]] + queue[1..];
    ConcatAssoc([queue[0]], queue[1..], later);
  }

  lemma ReadConserves(q: Queues, msgid: nat)
    requires q.Valid() && q.wire != []
    requires if msgid == 0 then q.notifs == [] else q.replies == []
    ensures var o := Get(q, msgid, Ready);
            && o.queues.Valid()
            && PendingReplies(q) == Delivered(o.msg, true) + PendingReplies(o.queues)
            && PendingNotifs(q) == Delivered(o.msg, false) + PendingNotifs(o.queues)
  {
    var m, rest := q.wire[0], q.wire[1..];
    if m.ReplyMsg? {
      assert Replies(q.wire) == [m] + Replies(rest) && Notifs(q.wire) == Notifs(rest);
      if msgid == 0 { ConcatAssoc(q.replies, [m], Replies(rest)); }
    } else if m.NotifMsg? {
      assert Notifs(q.wire) == [m] + Notifs(rest) && Replies(q.wire) == Replies(rest);
      if msgid != 0 { ConcatAssoc(q.notifs, [m], Notifs(rest)); }
    }
  }

  // ---------------------------------------------------------------- delivery

  /** Id 0 asks for notifications, any other for replies. */
  predicate Wanted(m: Msg, msgid: nat) {
    if msgid == 0 then m.NotifMsg? else m.ReplyMsg?
  }

  function QueueFor(q: Queues, msgid: nat): seq<Msg> {
    if msgid == 0 then q.notifs else q.replies
  }

  /** What has come of the kind asked for, in order. */
  function Pending(q: Queues, msgid: nat): seq<Msg> {
    if msgid == 0 then PendingNotifs(q) else PendingReplies(q)
  }

  /** The id of a reply, as a number. */
  predicate HasId(m: Msg, msgid: nat)
    requires m.ReplyMsg?
  {
    m.id.Some? && Strtoul(m.id.value) == msgid
  }

  /**
   * A call hands out a message if and only if it got the lock and either one of the kind asked for
   * is queued, or none is and one comes first on the wire. It is then the first pending one.
   */
  lemma DeliversIff(q: Queues, msgid: nat, chance: Chance)
    requires q.Valid()
    ensures var o := Get(q, msgid, chance);
            o.msg.Some? <==>
              && !chance.LockFailed? && !chance.LockTimeout?
              && (QueueFor(q, msgid) != [] || (chance.Ready? && q.wire != [] && Wanted(q.wire[0], msgid)))
    ensures var o := Get(q, msgid, chance);
            o.msg.Some? ==>
              && Pending(q, msgid) != [] && o.msg.value == Pending(q, msgid)[0] && Wanted(o.msg.value, msgid)
              && o.kind == if msgid == 0 then GotNotif
                           else if HasId(o.msg.value, msgid) then GotReply else GotWrongId
  {
    if QueueFor(q, msgid) != [] {
      assert QueueFor(q, msgid)[0] in QueueFor(q, msgid);
    }
  }

  /** What a call that hands out nothing returns, and where the message it read goes. */
  lemma UndeliveredKind(q: Queues, msgid: nat, chance: Chance)
    requires q.Valid() && Get(q, msgid, chance).msg == None
    ensures var o := Get(q, msgid, chance);
            if chance.Ready? && q.wire != [] then
              var m := q.wire[0];
              && o.kind == (match m case ReplyMsg(_, _) => GotReply case NotifMsg(_) => GotNotif case _ => MsgError)
              && o.queues == Queues(q.replies + (if m.ReplyMsg? then [m] else []),
                                    q.notifs + (if m.NotifMsg? then [m] else []), q.wire[1..])
            else
              && o.queues == q
              && o.kind == if chance.LockFailed? || chance.PollFailed? then MsgError else WouldBlock
  {
    DeliversIff(q, msgid, chance);
    assert q.replies + [] == q.replies && q.notifs + [] == q.notifs;
  }

  /** The queues after n calls that all get the lock and find input if there is any. */
  function After(q: Queues, msgid: nat, n: nat): (r: Queues)
    requires q.Valid()
    ensures r.Valid()
    decreases n
  {
    if n == 0 then q else
    GetConserves(q, msgid, Ready);
    After(Get(q, msgid, Ready).queues, msgid, n - 1)
  }

  /**
   * A pending message is handed out after at most as many calls as there are messages on the wire,
   * whatever comes before it; the calls before that hand out nothing.
   */
  lemma {:induction false} PendingIsDelivered(q: Queues, msgid: nat) returns (n: nat)
    requires q.Valid() && Pending(q, msgid) != []
    ensures n <= |q.wire| && (QueueFor(q, msgid) != [] ==> n == 0)
    ensures forall k :: 0 <= k < n ==> Get(After(q, msgid, k), msgid, Ready).msg == None
    ensures Get(After(q, msgid, n), msgid, Ready).msg == Some(Pending(q, msgid)[0])
    decreases |q.wire|
  {
    DeliversIff(q, msgid, Ready);
    var o := Get(q, msgid, Ready);
    if o.msg.Some? {
      return 0;
    }
    UndeliveredKind(q, msgid, Ready);
    GetConserves(q, msgid, Ready);
    var next := o.queues;
    assert Pending(next, msgid) == Pending(q, msgid);
    var m := PendingIsDelivered(next, msgid);
    n := m + 1;
    forall k | 0 <= k < n ensures Get(After(q, msgid, k), msgid, Ready).msg == None {
      if k > 0 { assert After(q, msgid, k) == After(next, msgid, k - 1); }
    }
    assert After(q, msgid, n) == After(next, msgid, m);
  }

  // ---------------------------------------------------------------- the queues in place

  /** Delivered, then queued, then on the wire: the original sequence of either kind. */
  predicate Conserves(q: Queues, arrived: seq<Msg>, gotReplies: seq<Msg>, gotNotifs: seq<Msg>) {
    && q.Valid()
    && Replies(arrived) == gotReplies + PendingReplies(q)
    && Notifs(arrived) == gotNotifs + PendingNotifs(q)
  }

  lemma ArrivalConserves(q: Queues, arrived: seq<Msg>, gotReplies: seq<Msg>, gotNotifs: seq<Msg>, m: Msg)
    requires Conserves(q, arrived, gotReplies, gotNotifs)
    ensures Conserves(q.(wire := q.wire + [m]), arrived + [m], gotReplies, gotNotifs)
  {
    RepliesConcat(arrived, [m]);
    RepliesConcat(q.wire, [m]);
    ConcatAssoc(q.replies, Replies(q.wire), Replies([m]));
    ConcatAssoc(gotReplies, PendingReplies(q), Replies([m]));
    NotifsConcat(arrived, [m]);
    NotifsConcat(q.wire, [m]);
    ConcatAssoc(q.notifs, Notifs(q.wire), Notifs([m]));
    ConcatAssoc(gotNotifs, PendingNotifs(q), Notifs([m]));
  }

  lemma DeliveryConserves(q: Queues, arrived: seq<Msg>, gotReplies: seq<Msg>, gotNotifs: seq<Msg>,
                          msgid: nat, chance: Chance)
    requires Conserves(q, arrived, gotReplies, gotNotifs)
    ensures var o := Get(q, msgid, chance);
            Conserves(o.queues, arrived, gotReplies + Delivered(o.msg, true), gotNotifs + Delivered(o.msg, false))
  {
    var o := Get(q, msgid, chance);
    GetConserves(q, msgid, chance);
    ConcatAssoc(gotReplies, Delivered(o.msg, true), PendingReplies(o.queues));
    ConcatAssoc(gotNotifs, Delivered(o.msg, false), PendingNotifs(o.queues));
  }

  /** The queues of struct nc_session, updated in place by get_msg(). */
  class Client {
    var replies: seq<Msg>
    var notifs: seq<Msg>
    var wire: seq<Msg>
    /** Everything that ever arrived, and everything handed to each of the two readers. */
    ghost var arrived: seq<Msg>
    ghost var gotReplies: seq<Msg>
    ghost var gotNotifs: seq<Msg>

    function Now(): Queues
      reads this
    {
      Queues(replies, notifs, wire)
    }

    ghost predicate Conserved()
      reads this
    {
      Conserves(Now(), arrived, gotReplies, gotNotifs)
    }

    constructor ()
      ensures Conserved() && arrived == [] && Now() == Queues([], [], [])
    {
      replies, notifs, wire, arrived, gotReplies, gotNotifs := [], [], [], [], [], [];
    }

    /** The peer's next message reaches the wire. */
    method Arrive(m: Msg)
      requires Conserved()
      modifies this`wire, this`arrived
      ensures Conserved() && arrived == old(arrived) + [m] && wire == old(wire) + [m]
    {
      ArrivalConserves(Now(), arrived, gotReplies, gotNotifs, m);
      wire := wire + [m];
      arrived := arrived + [m];
    }

    /**
     * Any sequence of calls with any message ids, from any number of threads serialised by the
     * transport lock, keeps both message sequences intact.
     */
    method GetMsg(msgid: nat, chance: Chance) returns (kind: MsgType, msg: Option<Msg>)
      requires Conserved()
      modifies this`replies, this`notifs, this`wire, this`gotReplies, this`gotNotifs
      ensures Conserved()
      ensures Outcome(Now(), kind, msg) == Get(old(Now()), msgid, chance)
      ensures gotReplies == old(gotReplies) + Delivered(msg, true)
      ensures gotNotifs == old(gotNotifs) + Delivered(msg, false)
    {
      DeliveryConserves(Now(), arrived, gotReplies, gotNotifs, msgid, chance);
      kind, msg := Fetch(msgid, chance);
      gotReplies := gotReplies + Delivered(msg, true);
      gotNotifs := gotNotifs + Delivered(msg, false);
    }

    method Fetch(msgid: nat, chance: Chance) returns (kind: MsgType, msg: Option<Msg>)
      requires Now().Valid()
      modifies this`replies, this`notifs, this`wire
      ensures Outcome(Now(), kind, msg) == Get(old(Now()), msgid, chance)
    {
      if chance.LockFailed? {
        return MsgError, None;
      }
      if chance.LockTimeout? {
        return WouldBlock, None;
      }
      var xml: Option<Msg> := None;
      if msgid == 0 && notifs != [] {
        assert notifs[0] in notifs;
        xml, notifs := Some(notifs[0]), notifs[1..];
      }
      if msgid != 0 && replies != [] {
        assert replies[0] in replies;
        xml, replies := Some(replies[0]), replies[1..];
      }
      if xml.None? {
        if chance.PollFailed? {
          return MsgError, None;
        }
        if chance.PollTimeout? || wire == [] {
          return WouldBlock, None;
        }
        xml, wire := Some(wire[0]), wire[1..];
        // a message of the kind that was not asked for
        if msgid == 0 && xml.value.ReplyMsg? {
          replies := replies + [xml.value];
          return GotReply, None;
        }
        if msgid != 0 && xml.value.NotifMsg? {
          notifs := notifs + [xml.value];
          return GotNotif, None;
        }
      }
      match xml.value {
        case NotifMsg(_) => return GotNotif, xml;
        case ReplyMsg(_, _) => return MatchingKind(xml.value, msgid), xml;
        case StrayMsg(_) => return MsgError, None;
      }
    }
  }
}
