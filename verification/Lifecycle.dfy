/**
 * The life of a session, from its hello exchange through any number of reads, writes, replies and
 * poll events to nc_session_free(), as a trace of the states it goes through.
 */
module Lifecycle {
  import opened Framing
  import opened Handshake
  import opened Receiver
  import opened SessionState
  import opened Text
  import opened Transport

  /** What can happen to a session between its handshake and its end. */
  datatype Op =
    | Read(count: nat, timeout: uint16)
    | Write(bytes: string)
    /** nc_session_set_term_reason(), and the default close-session callback. */
    | SetReason(reason: TermReason)
    /** The end of nc_send_reply(). */
    | ReplySent
    /** nc_ps_poll() finding the descriptor closed, or with an error. */
    | HangUp
    | PollError

  datatype Snapshot = Snapshot(status: Status, reason: TermReason, input: seq<Event>, output: string,
                               attached: bool, writes: seq<Written>)

  ghost function Now(s: Session): Snapshot
    reads s
  {
    Snapshot(s.status, s.reason, s.input, s.output, s.attached, s.writes)
  }

  predicate Dead(s: Snapshot) {
    s.status == Invalid || s.status == Closing
  }

  /** What one step may do to a session. */
  ghost predicate Lawful(a: Snapshot, b: Snapshot) {
    && (b.status == Invalid ==> b.reason != NoReason)
    && (Dead(a) ==> Dead(b) && b.input == a.input && b.output == a.output)
    && (b.status == Starting ==> a.status == Starting)
    && (b.status == Running ==> a.status == Running)
  }

  /** What each operation does, out of any state. */
  ghost predicate Effect(a: Snapshot, op: Op, b: Snapshot) {
    match op
    case Read(count, timeout) => ReadEffect(a, count, timeout, b)
    case Write(bytes) => WriteEffect(a, bytes, b)
    case SetReason(reason) => b == if reason == NoReason then a else a.(reason := reason)
    case ReplySent =>
      && (b.status == Invalid <==> a.status == Invalid || (a.status == Running && a.reason != NoReason))
      && b == a.(status := b.status) && (b.status != Invalid ==> b == a)
    case HangUp => b == a.(status := Invalid, reason := Dropped)
    case PollError => b == a.(status := Invalid, reason := OtherReason)
  }

  /** The bytes come in time and are gone from the input, or the session is invalid. */
  ghost predicate ReadEffect(a: Snapshot, count: nat, timeout: uint16, b: Snapshot) {
    if Dead(a) || count == 0 || !a.attached then b == a else
    && b.output == a.output
    && if |Pending(a.input)| >= count && IdlesBefore(a.input, count) < Patience(timeout)
       then b == a.(input := b.input) && Pending(b.input) == Pending(a.input)[count..]
       else b.status == Invalid && b.reason == ReasonToFail(a.input, count, timeout)
  }

  /** The bytes one write call takes go out, or the session is invalid. */
  ghost predicate WriteEffect(a: Snapshot, bytes: string, b: Snapshot) {
    if Dead(a) then b == a
    else if !a.attached || a.writes == [] then b == a.(status := Invalid, reason := Dropped)
    else b == a.(output := a.output + Taken(a.writes[0], bytes), writes := a.writes[1..])
  }

  method Perform(s: Session, op: Op)
    requires s.Sound()
    modifies s`status, s`reason, s`input, s`output, s`writes, s`losses
    ensures s.Sound() && Lawful(old(Now(s)), Now(s)) && Effect(old(Now(s)), op, Now(s))
  {
    match op {
      case Read(count, timeout) =>
        var r, buf, left := s.Read(count, timeout);
      case Write(bytes) =>
        var r := s.Write(bytes);
      case SetReason(reason) =>
        if reason != NoReason {
          s.reason := reason;
        }
      case ReplySent =>
        if s.status == Running && s.reason != NoReason {
          s.status := Invalid;
        }
      case HangUp =>
        s.status, s.reason := Invalid, Dropped;
      case PollError =>
        s.status, s.reason := Invalid, OtherReason;
    }
  }

  /** All steps of a trace are lawful, but for the one in which the handshake succeeds. */
  ghost predicate IsLife(trace: seq<Snapshot>, established: bool) {
    && |trace| >= 2 && trace[0].status == Starting
    && (trace[1].status == Running <==> established) && trace[1].status != Closing
    && (trace[1].status == Invalid ==> trace[1].reason != NoReason)
    && forall i :: 1 <= i < |trace| - 1 ==> Lawful(trace[i], trace[i + 1])
  }

  /** The operations had their effects, one after the other, from the end of the handshake on. */
  ghost predicate Performed(trace: seq<Snapshot>, ops: seq<Op>) {
    |trace| >= |ops| + 2 && forall i :: 0 <= i < |ops| ==> Effect(trace[i + 1], ops[i], trace[i + 2])
  }

  lemma PerformedSnoc(trace: seq<Snapshot>, ops: seq<Op>, op: Op, b: Snapshot)
    requires Performed(trace, ops) && |trace| == |ops| + 2 && Effect(trace[|trace| - 1], op, b)
    ensures Performed(trace + [b], ops + [op])
  {
    var longer, more := trace + [b], ops + [op];
    forall i | 0 <= i < |more| ensures Effect(longer[i + 1], more[i], longer[i + 2]) {
      if i < |ops| { assert Effect(trace[i + 1], ops[i], trace[i + 2]); }
    }
  }

  lemma PerformedLonger(trace: seq<Snapshot>, ops: seq<Op>, b: Snapshot)
    requires Performed(trace, ops)
    ensures Performed(trace + [b], ops)
  {
    forall i | 0 <= i < |ops| ensures Effect((trace + [b])[i + 1], ops[i], (trace + [b])[i + 2]) {
      assert Effect(trace[i + 1], ops[i], trace[i + 2]);
    }
  }

  lemma LifeGoesOn(trace: seq<Snapshot>, b: Snapshot, established: bool)
    requires IsLife(trace, established) && Lawful(trace[|trace| - 1], b)
    ensures IsLife(trace + [b], established)
  {
    var longer := trace + [b];
    forall i | 1 <= i < |longer| - 1 ensures Lawful(longer[i], longer[i + 1]) {
      if i < |trace| - 1 { assert Lawful(trace[i], trace[i + 1]); }
    }
  }

  lemma NextStep(trace: seq<Snapshot>, ops: seq<Op>, i: nat, b: Snapshot)
    requires i < |ops| && |trace| == i + 2 && IsLife(trace, true) && Performed(trace, ops[..i])
    requires Lawful(trace[|trace| - 1], b) && Effect(trace[|trace| - 1], ops[i], b)
    ensures IsLife(trace + [b], true) && Performed(trace + [b], ops[..i + 1])
  {
    LifeGoesOn(trace, b, true);
    PerformedSnoc(trace, ops[..i], ops[i], b);
    assert ops[..i] + [ops[i]] == ops[..i + 1];
  }

  /** The operations, one after the other. */
  method PerformAll(s: Session, ops: seq<Op>, ghost before: Snapshot) returns (ghost trace: seq<Snapshot>)
    requires s.Sound() && IsLife([before, Now(s)], true)
    modifies s`status, s`reason, s`input, s`output, s`writes, s`losses
    ensures s.Sound() && IsLife(trace, true) && |trace| == |ops| + 2 && Performed(trace, ops)
    ensures trace[0] == before && trace[1] == old(Now(s)) && trace[|trace| - 1] == Now(s)
  {
    trace := [before, Now(s)];
    for i := 0 to |ops|
      invariant s.Sound() && IsLife(trace, true) && |trace| == i + 2 && Performed(trace, ops[..i])
      invariant trace[0] == before && trace[1] == old(Now(s)) && trace[|trace| - 1] == Now(s)
    {
      Perform(s, ops[i]);
      NextStep(trace, ops, i, Now(s));
      trace := trace + [Now(s)];
    }
    assert ops[..|ops|] == ops;
  }

  /** A whole life: the handshake, the given operations unless it failed, and the end. */
  method Live(s: Session, client: bool, extra: seq<string>, parse: Parser, polled: Polled, ops: seq<Op>)
    returns (r: HelloResult, ghost trace: seq<Snapshot>)
    requires s.Sound() && s.status == Starting && s.version == V10 && s.id < 0x1_0000_0000
    modifies s`status, s`reason, s`input, s`output, s`writes, s`losses, s`version, s`cpblts, s`id
    ensures IsLife(trace, r == HelloOk)
    ensures trace[0] == old(Now(s)) && trace[|trace| - 1] == Now(s) && s.status == Closing
    ensures |trace| == if r == HelloOk then |ops| + 3 else 3
    ensures r == HelloOk ==> Performed(trace, ops)
  {
    r := Establish(s, client, extra, parse, polled, [], None, "");
    trace := [old(Now(s)), Now(s)];
    if r == HelloOk {
      trace := PerformAll(s, ops, old(Now(s)));
    }
    s.status := Closing;
    LifeGoesOn(trace, Now(s), r == HelloOk);
    if r == HelloOk { PerformedLonger(trace, ops, Now(s)); }
    trace := trace + [Now(s)];
  }

  /**
   * In every life: the session runs only after a handshake that succeeded, and then from there on
   * without a gap until it is dead. Once dead it stays so, and no byte is read or written any more.
   * Whenever it is invalid, it has a reason to be.
   */
  lemma {:induction false} LifeIsOneWay(trace: seq<Snapshot>, established: bool, i: nat, j: nat)
    requires IsLife(trace, established) && i <= j < |trace|
    ensures trace[j].status == Running ==> established && 1 <= j
    ensures i >= 1 && trace[j].status == Running ==> trace[i].status == Running
    ensures trace[j].status == Starting ==> trace[i].status == Starting
    ensures i >= 1 && Dead(trace[i]) ==>
              Dead(trace[j]) && trace[j].input == trace[i].input && trace[j].output == trace[i].output
    ensures trace[j].status == Invalid ==> trace[j].reason != NoReason
    decreases j
  {
    if j > 1 {
      assert Lawful(trace[j - 1], trace[j]);
      LifeIsOneWay(trace, established, if i == j then j - 1 else i, j - 1);
    }
  }

  /**
   * In every life, a session that still runs has sent no reply while it had a reason to end; in
   * particular the reply to a close-session is the last one it sends while running.
   */
  lemma LastReplyEndsLife(trace: seq<Snapshot>, established: bool, ops: seq<Op>, i: nat, j: nat)
    requires IsLife(trace, established) && Performed(trace, ops)
    requires i < |ops| && ops[i] == ReplySent && i + 2 <= j < |trace|
    ensures trace[j].status == Running ==> trace[i + 1].reason == NoReason
    ensures trace[i + 1].status == Running ==>
              (trace[i + 2].status == Invalid <==> trace[i + 1].reason != NoReason)
  {
    assert Effect(trace[i + 1], ops[i], trace[i + 2]);
    LifeIsOneWay(trace, established, i + 2, j);
    LifeIsOneWay(trace, established, i + 1, j);
  }

  /** In every life, a hang-up or an error on the descriptor is the end, with its own reason at that time. */
  lemma HangUpEndsLife(trace: seq<Snapshot>, established: bool, ops: seq<Op>, i: nat, j: nat)
    requires IsLife(trace, established) && Performed(trace, ops)
    requires i < |ops| && (ops[i] == HangUp || ops[i] == PollError) && i + 2 <= j < |trace|
    ensures trace[i + 2].reason == if ops[i] == HangUp then Dropped else OtherReason
    ensures Dead(trace[j]) && trace[j].input == trace[i + 1].input && trace[j].output == trace[i + 1].output
  {
    assert Effect(trace[i + 1], ops[i], trace[i + 2]);
    LifeIsOneWay(trace, established, i + 2, j);
  }
}
