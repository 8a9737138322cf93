/** Reading framed messages off a session. */
module Receiver {
  import opened Text
  import opened Framing
  import opened SessionState
  import opened Transport

  /** How far ahead of the timeout the rest of the script keeps. */
  ghost function Slack(script: seq<Event>, timeout: uint16): int {
    STEPS as int * timeout as int - Idles(script)
  }

  /**
   * Reads byte by byte up to and including the first occurrence of the tag.
   */
  method ReadUntil(session: Session, tag: string, timeout: uint16)
    returns (r: int, text: string, left: uint16)
    requires session.Sound() && tag != ""
    modifies session`status, session`reason, session`input
    ensures session.Sound() && Degraded(old(session.status), session.status) && r >= -1
    ensures Idles(session.input) <= Idles(old(session.input))
    ensures r >= 0 ==> session.status == old(session.status) && session.reason == old(session.reason)
    ensures r >= 0 ==> Find(Pending(old(session.input)), tag) == Some(r - |tag|)
    ensures r >= 0 ==> text == Pending(old(session.input))[..r]
    ensures r >= 0 ==> Pending(session.input) == Pending(old(session.input))[r..]
    ensures r >= 0 ==> Slack(session.input, left) >= Slack(old(session.input), timeout)
    ensures r == -1 ==> !session.Live() || !session.attached
    ensures old(session.Live()) && session.attached && Prompt(old(session.input), timeout) ==>
              (r == -1 <==> Find(Pending(old(session.input)), tag) == None)
  {
    ghost var all := Pending(session.input);
    left, text := timeout, "";
    while true
      invariant session.Sound() && Idles(session.input) <= Idles(old(session.input))
      invariant session.status == old(session.status) && session.reason == old(session.reason)
      invariant |text| <= |all| && text == all[..|text|] && Pending(session.input) == all[|text|..]
      invariant Slack(session.input, left) >= Slack(old(session.input), timeout)
      invariant forall i :: 0 <= i <= |text| - |tag| ==> !OccursAt(all, tag, i)
      decreases |Pending(session.input)|
    {
      IdlesBeforeBound(session.input, 1);
      var n, byte, rest := session.Read(1, left);
      if n != 1 {
        return -1, "", left;
      }
      assert all[..|text| + 1] == text + byte;
      left, text := rest, text + byte;
      var count := |text|;
      if count >= |tag| {
        var here := count - |tag|;
        assert text[here..] == all[here..here + |tag|];
        if text[here..] == tag {
          assert OccursAt(all, tag, here);
          FirstIsFound(all, tag, here);
          return count, text, left;
        }
      }
    }
  }

  /** Reads a chunk body of len bytes. */
  method ReadChunk(session: Session, len: nat, timeout: uint16) returns (r: int, chunk: string, left: uint16)
    requires session.Sound()
    modifies session`status, session`reason, session`input
    ensures session.Sound() && Degraded(old(session.status), session.status) && (r == len || r == -1)
    ensures Idles(session.input) <= Idles(old(session.input))
    ensures r >= 0 ==> session.status == old(session.status) && session.reason == old(session.reason)
    ensures len > 0 && r == len ==> len <= |Pending(old(session.input))|
    ensures len > 0 && r == len ==> chunk == Pending(old(session.input))[..len]
    ensures len > 0 && r == len ==> Pending(session.input) == Pending(old(session.input))[len..]
    ensures len > 0 && r == len ==> Slack(session.input, left) >= Slack(old(session.input), timeout)
    ensures r == -1 ==> !session.Live() || !session.attached
    ensures len > 0 && old(session.Live()) && session.attached && Prompt(old(session.input), timeout) ==>
              (r == -1 <==> |Pending(old(session.input))| < len)
  {
    if len == 0 {
      return 0, "", timeout;
    }
    IdlesBeforeBound(session.input, len);
    r, chunk, left := session.Read(len, timeout);
    if r <= 0 {
      return -1, "", left;
    }
  }

  datatype Received = Text(text: string) | Refused | Failed | Undetermined | Nothing

  /** What the framing of the pending bytes says the outcome must be. */
  ghost predicate Agrees(d: Decoded, r: Received, after: string) {
    match r
    case Text(m) => d == Message(m, after)
    case Refused => d == Malformed(after)
    case Undetermined => d == Overflow
    case Failed => true
    case Nothing => false
  }

  /**
   * One message. The outcome is that of decoding the pending bytes, so it does not depend on how
   * the transport split them; reading fails on a session that has become invalid or was never
   * attached, and if no read can time out it fails exactly when the bytes run out first.
   */
  method ReadMessage(session: Session) returns (r: Received)
    requires session.Sound()
    modifies session`status, session`reason, session`input
    ensures session.Sound() && Degraded(old(session.status), session.status)
    ensures Idles(session.input) <= Idles(old(session.input))
    ensures Agrees(Decode(session.version, Pending(old(session.input))), r, Pending(session.input))
    ensures r.Failed? ==> !session.Live() || !session.attached
    ensures r.Text? || r.Refused? ==> session.status == old(session.status) && session.reason == old(session.reason)
    ensures !old(session.Live()) ==> r.Failed? && unchanged(session)
    ensures old(session.Live()) && session.attached && Prompt(old(session.input), READ_TIMEOUT) ==>
              (r.Failed? <==> Decode(session.version, Pending(old(session.input))) == Starved)
  {
    if !session.Live() {
      return Failed;
    }
    if session.version == V10 {
      var n, text, _ := ReadUntil(session, END_TAG, READ_TIMEOUT);
      if n == -1 {
        return Failed;
      }
      if n > INT_MAX {
        return Undetermined;
      }
      return Text(text[..n - |END_TAG|]);
    }
    r := ReadChunks(session);
  }

  /** What poll() says about the transport of a session before a read. */
  datatype Polled = Readable | TimedOutPoll | HungUp | ChannelError

  /**
   * One message, if poll() finds the transport readable. If it reports a hang-up or an error the
   * session becomes invalid, whatever bytes are still there; if it times out nothing happens.
   */
  method PollMessage(session: Session, polled: Polled) returns (r: Received)
    requires session.Sound()
    modifies session`status, session`reason, session`input
    ensures session.Sound() && Degraded(old(session.status), session.status)
    ensures Idles(session.input) <= Idles(old(session.input))
    ensures r.Nothing? <==> polled.TimedOutPoll? && old(session.Live()) && session.attached
    ensures !r.Nothing? ==> Agrees(Decode(session.version, Pending(old(session.input))), r, Pending(session.input))
    ensures r.Failed? ==> !session.Live() || !session.attached
    ensures r.Text? || r.Refused? ==> session.status == old(session.status) && session.reason == old(session.reason)
    ensures !old(session.Live()) || !session.attached || r.Nothing? ==> unchanged(session)
    ensures old(session.Live()) && session.attached && (polled.HungUp? || polled.ChannelError?) ==>
              && r.Failed? && session.status == Invalid && session.input == old(session.input)
              && session.reason == if polled.HungUp? then Dropped else OtherReason
    ensures old(session.Live()) && session.attached && polled.Readable? && Prompt(old(session.input), READ_TIMEOUT) ==>
              (r.Failed? <==> Decode(session.version, Pending(old(session.input))) == Starved)
  {
    if !session.Live() || !session.attached {
      return Failed;
    }
    match polled {
      case TimedOutPoll => return Nothing;
      case HungUp =>
        session.status, session.reason := Invalid, Dropped;
        return Failed;
      case ChannelError =>
        session.status, session.reason := Invalid, OtherReason;
        return Failed;
      case Readable => r := ReadMessage(session);
    }
  }

  datatype Frame = Body(body: string) | EndOfChunks | BadFrame | NoFrame | UndeterminedFrame

  /** What a frame means for the message read so far. */
  ghost predicate FrameAgrees(d: Decoded, f: Frame, got: Option<string>, after: string) {
    match f
    case Body(body) => d == DecodeChunks(after, Some(Extend(got, body)))
    case EndOfChunks => d == if got.None? then Malformed(after) else Message(got.value, after)
    case BadFrame => d == Malformed(after)
    case UndeterminedFrame => d == Overflow
    case NoFrame => true
  }

  /** One header and the chunk it announces, or the end of the chunks. */
  method ReadFrame(session: Session, timeout: uint16, ghost got: Option<string>)
    returns (f: Frame, left: uint16)
    requires session.Sound() && session.Live()
    modifies session`status, session`reason, session`input
    ensures session.Sound() && Degraded(old(session.status), session.status)
    ensures Idles(session.input) <= Idles(old(session.input))
    ensures !f.NoFrame? && !f.UndeterminedFrame? ==>
              session.status == old(session.status) && session.reason == old(session.reason)
    ensures FrameAgrees(DecodeChunks(Pending(old(session.input)), got), f, got, Pending(session.input))
    ensures f.Body? ==> |Pending(session.input)| < |Pending(old(session.input))|
    ensures f.NoFrame? ==> !session.Live() || !session.attached
    ensures f.NoFrame? && session.attached && Prompt(old(session.input), timeout) ==>
              DecodeChunks(Pending(old(session.input)), got) == Starved
    ensures f.Body? ==> Slack(session.input, left) >= Slack(old(session.input), timeout)
  {
    var n, _, left1 := ReadUntil(session, "\n#", timeout);
    left := left1;
    if n == -1 {
      return NoFrame, left;
    }
    if n > INT_MAX {
      return UndeterminedFrame, left;
    }
    f, left := ReadHeader(session, left, got);
  }

  method ReadHeader(session: Session, timeout: uint16, ghost got: Option<string>)
    returns (f: Frame, left: uint16)
    requires session.Sound() && session.Live()
    modifies session`status, session`reason, session`input
    ensures session.Sound() && Degraded(old(session.status), session.status)
    ensures Idles(session.input) <= Idles(old(session.input))
    ensures !f.NoFrame? && !f.UndeterminedFrame? ==>
              session.status == old(session.status) && session.reason == old(session.reason)
    ensures FrameAgrees(DecodeHeader(Pending(old(session.input)), got), f, got, Pending(session.input))
    ensures f.Body? ==> |Pending(session.input)| < |Pending(old(session.input))|
    ensures f.NoFrame? ==> !session.Live() || !session.attached
    ensures f.NoFrame? && session.attached && Prompt(old(session.input), timeout) ==>
              DecodeHeader(Pending(old(session.input)), got) == Starved
    ensures f.Body? ==> Slack(session.input, left) >= Slack(old(session.input), timeout)
  {
    var m, line, left2 := ReadUntil(session, "\n", timeout);
    left := left2;
    if m == -1 {
      return NoFrame, left;
    }
    if m > INT_MAX {
      return UndeterminedFrame, left;
    }
    if line == "#\n" {
      return EndOfChunks, left;
    }
    var size := Strtoul(line);
    if size == 0 {
      return BadFrame, left;
    }
    var r, chunk, left3 := ReadChunk(session, size, left);
    left := left3;
    if r == -1 {
      return NoFrame, left;
    }
    if r > INT_MAX {
      return UndeterminedFrame, left;
    }
    f := Body(chunk);
  }

  method ReadChunks(session: Session) returns (r: Received)
    requires session.Sound() && session.Live()
    modifies session`status, session`reason, session`input
    ensures session.Sound() && Degraded(old(session.status), session.status)
    ensures Idles(session.input) <= Idles(old(session.input))
    ensures Agrees(Decode(V11, Pending(old(session.input))), r, Pending(session.input))
    ensures r.Failed? ==> !session.Live() || !session.attached
    ensures r.Text? || r.Refused? ==> session.status == old(session.status) && session.reason == old(session.reason)
    ensures session.attached && Prompt(old(session.input), READ_TIMEOUT) ==>
              (r.Failed? <==> Decode(V11, Pending(old(session.input))) == Starved)
  {
    var msg: Option<string> := None;
    var left := READ_TIMEOUT;
    ghost var whole := DecodeChunks(Pending(session.input), None);
    while true
      invariant session.Sound() && Idles(session.input) <= Idles(old(session.input))
      invariant session.status == old(session.status) && session.reason == old(session.reason)
      invariant DecodeChunks(Pending(session.input), msg) == whole
      invariant Slack(session.input, left) >= Slack(old(session.input), READ_TIMEOUT)
      decreases |Pending(session.input)|
    {
      var f, rest := ReadFrame(session, left, msg);
      match f {
        case Body(chunk) => msg, left := Some(Extend(msg, chunk)), rest;
        case EndOfChunks => return if msg.None? then Refused else Text(msg.value);
        case BadFrame => return Refused;
        case NoFrame => return Failed;
        case UndeterminedFrame => return Undetermined;
      }
    }
  }
}
