/**
 * The transport under a session. What the peer sends is a script of events: data split in any way,
 * polls that find nothing, interrupted calls, and at most one final close or failure. A script
 * that has run out stays idle for ever.
 */
module Transport {
  import opened Text
  import opened Framing
  import opened SessionState

  newtype uint16 = x: int | 0 <= x < 0x1_0000

  type Bytes = s: string | |s| > 0 witness "x"

  datatype Event = Data(bytes: Bytes) | Idle | Interrupted | Eof | Failure

  /** Idle polls per second: 1000000 / NC_TIMEOUT_STEP. */
  const STEPS: uint16 := 50000

  /** Seconds a message may take to arrive. */
  const READ_TIMEOUT: uint16 := 30

  /** The bytes that can still be read. */
  function Pending(script: seq<Event>): string {
    if script == [] then "" else
    match script[0]
    case Data(bytes) => bytes + Pending(script[1..])
    case Idle => Pending(script[1..])
    case Interrupted => Pending(script[1..])
    case Eof => ""
    case Failure => ""
  }

  /** The idle polls among them. */
  function Idles(script: seq<Event>): nat {
    if script == [] then 0 else
    match script[0]
    case Data(_) => Idles(script[1..])
    case Idle => 1 + Idles(script[1..])
    case Interrupted => Idles(script[1..])
    case Eof => 0
    case Failure => 0
  }

  /** Whether the peer closes the connection in the end. */
  predicate EndsInEof(script: seq<Event>) {
    if script == [] then false else
    match script[0]
    case Data(_) => EndsInEof(script[1..])
    case Idle => EndsInEof(script[1..])
    case Interrupted => EndsInEof(script[1..])
    case Eof => true
    case Failure => false
  }

  /** The reason a read that fails leaves: the peer closed the connection in time, or something else. */
  function ReasonToFail(script: seq<Event>, count: nat, timeout: uint16): TermReason {
    if EndsInEof(script) && |Pending(script)| < count && Idles(script) < Patience(timeout) then Dropped else OtherReason
  }

  /** The idle polls before the n-th byte. */
  function IdlesBefore(script: seq<Event>, n: nat): nat {
    if script == [] || n == 0 then 0 else
    match script[0]
    case Data(bytes) => if |bytes| >= n then 0 else IdlesBefore(script[1..], n - |bytes|)
    case Idle => 1 + IdlesBefore(script[1..], n)
    case Interrupted => IdlesBefore(script[1..], n)
    case Eof => 0
    case Failure => 0
  }

  /** The idle polls after which a read with the given timeout gives up. */
  function Patience(timeout: uint16): nat {
    if timeout == 0 then 1 else STEPS as int * timeout as int
  }

  /** No read can run into the timeout. */
  predicate Prompt(script: seq<Event>, timeout: uint16) {
    Idles(script) < STEPS as int * timeout as int
  }

  lemma {:induction false} IdlesBeforeBound(script: seq<Event>, n: nat)
    ensures IdlesBefore(script, n) <= Idles(script)
  {
    if script != [] && n != 0 {
      match script[0]
      case Data(bytes) => if |bytes| < n { IdlesBeforeBound(script[1..], n - |bytes|); }
      case Idle => IdlesBeforeBound(script[1..], n);
      case Interrupted => IdlesBeforeBound(script[1..], n);
      case Eof =>
      case Failure =>
    }
  }

  /** The two counters of a read, after a number of idle polls that did not exhaust its patience. */
  ghost predicate Clock(timeout: uint16, left: uint16, sleepCount: uint16, waited: nat) {
    && sleepCount < STEPS && left <= timeout
    && waited == STEPS as int * (timeout as int - left as int) + sleepCount as int
    && (left == 0 ==> waited == 0)
  }

  /**
   * What writing does to a session: it dies of being cut off only, what is cut off stays so, and
   * losses are not made good.
   */
  predicate Wears(live: bool, cut: bool, losses: nat, live': bool, cut': bool, losses': nat) {
    (live ==> live' || cut') && (cut ==> cut') && (!live ==> !live') && losses <= losses'
  }

  /** The bytes went out behind what was sent before; fewer of them in case of loss. */
  predicate Sent(before: string, now: string, bytes: string, lost: bool) {
    before <= now && if lost then |now| < |before| + |bytes| else now == before + bytes
  }

  /** One idle poll. Neither counter wraps: Dafny checks that both stay within 16 bits. */
  method Sleep(ghost timeout: uint16, left: uint16, sleepCount: uint16, ghost waited: nat)
    returns (sleepCount': uint16, left': uint16)
    requires Clock(timeout, left, sleepCount, waited)
    ensures left' <= left && (left' == left ==> sleepCount' == sleepCount + 1)
    ensures left' == 0 <==> waited + 1 >= Patience(timeout)
    ensures left' != 0 ==> Clock(timeout, left', sleepCount', waited + 1)
  {
    sleepCount', left' := sleepCount + 1, left;
    if sleepCount' == STEPS {
      left' := left' - 1;
      sleepCount' := 0;
    }
  }

  /** A write call on a connected transport takes some of the bytes or fails. */
  datatype Written = Takes(bytes: nat) | Fails

  function Taken(w: Written, buf: string): string {
    match w
    case Takes(n) => if n < |buf| then buf[..n] else buf
    case Fails => ""
  }

  datatype Recv = Got(bytes: Bytes) | Again | Intr | Ended | Broken

  class Session {
    var status: Status
    var reason: TermReason
    var version: Version
    /** False for NC_TI_NONE. */
    var attached: bool
    /** What the peer sends. */
    var input: seq<Event>
    /** All bytes sent so far. */
    var output: string
    /** What the coming write calls do; after that the peer is gone. */
    var writes: seq<Written>
    /** The number of write calls so far that did not take all bytes. */
    var losses: nat
    /** The NETCONF session-id, 0 while unknown. */
    var id: nat
    /** Client only: the last message-id used, and the server's capabilities. */
    var msgid: nat
    var cpblts: seq<string>

    constructor (attached: bool, input: seq<Event>, writes: seq<Written>)
      ensures status == Starting && reason == NoReason && version == V10 && id == 0 && msgid == 0 && cpblts == []
      ensures this.attached == attached && this.input == input && output == "" && this.writes == writes && losses == 0
    {
      status, reason, version, id, msgid, cpblts := Starting, NoReason, V10, 0, 0, [];
      this.attached, this.input, output, this.writes, losses := attached, input, "", writes, 0;
    }

    predicate Live()
      reads this
    {
      status == Running || status == Starting
    }

    /** A session marked invalid always carries a termination reason. */
    ghost predicate Sound()
      reads this
    {
      status == Invalid ==> reason != NoReason
    }

    /** Nothing more can be written. */
    ghost predicate Cut()
      reads this
    {
      !attached || writes == []
    }

    /** The next write call fails. */
    ghost predicate Failing()
      reads this
    {
      Live() && !Cut() && writes[0].Fails?
    }

    /** The transport's own read call for at most count bytes. */
    method Receive(count: nat) returns (got: Recv)
      requires count > 0
      modifies this`input
      ensures got.Got? ==> |got.bytes| <= count && Pending(old(input)) == got.bytes + Pending(input)
      ensures got.Got? ==> Idles(old(input)) == Idles(input)
      ensures got.Got? ==> IdlesBefore(old(input), count) == IdlesBefore(input, count - |got.bytes|)
      ensures got.Again? || got.Intr? ==> Pending(old(input)) == Pending(input)
      ensures Idles(input) <= Idles(old(input))
      ensures got.Again? && old(input) == [] ==> input == []
      ensures got.Again? && old(input) != [] ==> |input| < |old(input)| && Idles(old(input)) == 1 + Idles(input)
      ensures got.Again? && old(input) != [] ==> IdlesBefore(old(input), count) == 1 + IdlesBefore(input, count)
      ensures got.Intr? ==> |input| < |old(input)| && Idles(old(input)) == Idles(input)
      ensures got.Intr? ==> IdlesBefore(old(input), count) == IdlesBefore(input, count)
      ensures got.Ended? || got.Broken? ==> Pending(old(input)) == "" && Idles(old(input)) == 0
      ensures EndsInEof(old(input)) == if got.Ended? || got.Broken? then got.Ended? else EndsInEof(input)
    {
      if input == [] {
        return Again;
      }
      var rest := input[1..];
      match input[0] {
        case Data(bytes) =>
          if |bytes| <= count {
            got, input := Got(bytes), rest;
          } else {
            assert bytes == bytes[..count] + bytes[count..];
            got, input := Got(bytes[..count]), [Data(bytes[count..])] + rest;
            assert input[1..] == rest;
          }
        case Idle => got, input := Again, rest;
        case Interrupted => got, input := Intr, rest;
        case Eof => got := Ended;
        case Failure => got := Broken;
      }
    }

    /**
     * A read from a live, attached session delivers exactly the next count bytes if they arrive
     * within the timeout, however they are split; otherwise the session becomes invalid.
     */
    method Read(count: nat, timeout: uint16) returns (r: int, buf: string, left: uint16)
      requires Sound()
      modifies this`status, this`reason, this`input
      ensures Sound() && Degraded(old(status), status) && left <= timeout && Idles(input) <= Idles(old(input))
      ensures !old(Live()) || count == 0 || !attached ==>
                unchanged(this) && left == timeout && r == if old(Live()) then 0 else -1
      ensures r == count || r == 0 || r == -1
      ensures old(Live()) && attached ==>
                (r == count <==> |Pending(old(input))| >= count &&
                                 IdlesBefore(old(input), count) < Patience(timeout))
      ensures r == count ==> buf == Pending(old(input))[..count]
      ensures r == count && old(Live()) ==> Pending(input) == Pending(old(input))[count..]
      ensures r == count && old(Live()) ==> status == old(status) && reason == old(reason)
      ensures r == count && old(Live()) ==>
                STEPS as int * left as int - Idles(input) >= STEPS as int * timeout as int - Idles(old(input))
      ensures old(Live()) && attached && r != count ==>
                r == -1 && status == Invalid && reason == ReasonToFail(old(input), count, timeout)
    {
      if !Live() {
        return -1, "", timeout;
      }
      if count == 0 || !attached {
        return 0, "", timeout;
      }
      r, buf, left := ReadAttached(count, timeout);
    }

    method ReadAttached(count: nat, timeout: uint16) returns (r: int, buf: string, left: uint16)
      requires Sound() && Live() && attached && count > 0
      modifies this`status, this`reason, this`input
      ensures Sound() && Degraded(old(status), status) && left <= timeout && Idles(input) <= Idles(old(input))
      ensures r == count <==> |Pending(old(input))| >= count && IdlesBefore(old(input), count) < Patience(timeout)
      ensures r == count ==> status == old(status) && reason == old(reason)
      ensures r == count ==> Pending(old(input)) == buf + Pending(input) && |buf| == count
      ensures r == count ==>
                STEPS as int * left as int - Idles(input) >= STEPS as int * timeout as int - Idles(old(input))
      ensures r != count ==> r == -1 && status == Invalid && reason == ReasonToFail(old(input), count, timeout)
    {
      var why;
      buf, left, why := Collect(count, timeout);
      if why != NoReason {
        status, reason := Invalid, why;
        return -1, "", left;
      }
      return count, buf, left;
    }

    /** The read loop; it ends with all bytes, or with a reason to give up. */
    method Collect(count: nat, timeout: uint16) returns (buf: string, left: uint16, why: TermReason)
      requires count > 0
      modifies this`input
      ensures left <= timeout && Idles(input) <= Idles(old(input))
      ensures why == NoReason <==> |Pending(old(input))| >= count && IdlesBefore(old(input), count) < Patience(timeout)
      ensures why == NoReason ==> Pending(old(input)) == buf + Pending(input) && |buf| == count
      ensures why == NoReason ==>
                STEPS as int * left as int - Idles(input) >= STEPS as int * timeout as int - Idles(old(input))
      ensures why != NoReason ==> why == ReasonToFail(old(input), count, timeout)
    {
      left, buf := timeout, "";
      var sleepCount: uint16 := 0;
      ghost var waited: nat := 0;
      while |buf| < count
        invariant |buf| <= count && Pending(old(input)) == buf + Pending(input)
        invariant Idles(input) <= Idles(old(input))
        invariant Clock(timeout, left, sleepCount, waited) && EndsInEof(input) == EndsInEof(old(input))
        invariant || (input == [] && |Pending(old(input))| < count)
                  || (&& IdlesBefore(old(input), count) == waited + IdlesBefore(input, count - |buf|)
                      && Idles(old(input)) == waited + Idles(input))
        decreases count - |buf|, |input|, left, STEPS - sleepCount
      {
        var got := Receive(count - |buf|);
        match got {
          case Got(bytes) =>
            ConcatAssoc(buf, bytes, Pending(input));
            buf := buf + bytes;
          case Intr =>
          case Ended =>
            return buf, left, Dropped;
          case Broken =>
            return buf, left, OtherReason;
          case Again =>
            sleepCount, left := Sleep(timeout, left, sleepCount, waited);
            waited := waited + 1;
            if left == 0 {
              return buf, left, OtherReason;
            }
        }
      }
      return buf, left, NoReason;
    }

    /**
     * One write call. It leaves a session that is not live as it is, and makes one whose peer is
     * gone invalid. Otherwise the bytes go out, unless the call takes fewer of them or fails: that
     * is a loss, which leaves the session live.
     */
    method Write(buf: string) returns (r: int)
      requires Sound()
      modifies this`status, this`reason, this`output, this`writes, this`losses
      ensures Sound() && Degraded(old(status), status)
      ensures !old(Live()) ==> unchanged(this) && r == -1
      ensures old(Live() && Cut()) ==>
                && r == -1 && status == Invalid && reason == Dropped
                && output == old(output) && writes == old(writes) && losses == old(losses)
      ensures old(Live() && !Cut()) ==>
                && status == old(status) && reason == old(reason)
                && output == old(output) + Taken(old(writes)[0], buf) && writes == old(writes)[1..]
                && r == (if old(writes)[0].Fails? then -1 else |Taken(old(writes)[0], buf)|)
                && losses == (if r == |buf| then old(losses) else old(losses) + 1)
      ensures Wears(old(Live()), old(Cut()), old(losses), Live(), Cut(), losses)
      ensures buf != "" ==> Sent(old(output), output, buf, !Live() || losses > old(losses))
    {
      if !Live() {
        return -1;
      }
      if !attached || writes == [] {
        status, reason := Invalid, Dropped;
        return -1;
      }
      var w := writes[0];
      writes, output := writes[1..], output + Taken(w, buf);
      r := if w.Fails? then -1 else |Taken(w, buf)|;
      if r != |buf| {
        losses := losses + 1;
      }
    }
  }
}
