/** Writing the hello, rpc and rpc-reply messages. */
module Messages {
  import opened Text
  import opened Framing
  import opened SessionState
  import opened Transport
  import opened Escaping
  import opened Sender

  // ---------------------------------------------------------------- one message

  /** The bytes sent are the text cut into non-empty frames, followed by the end mark. */
  ghost predicate Transmits(v: Version, sent: string, text: string) {
    exists chunks :: Sendable(chunks) && Flatten(chunks) == text && sent == Wire(v, chunks)
  }

  /**
   * What a writer transmits, the peer's reader recovers as the same text, whatever follows on the
   * stream: always with chunks, and with end-of-message tags exactly when the text is tag free.
   */
  lemma TransmittedIsReceived(v: Version, sent: string, text: string, suffix: string)
    requires Transmits(v, sent, text) && text != ""
    ensures Decode(v, sent + suffix) == Message(text, suffix)
       <==> v.V11? || (TagFree(text) && |text| + 6 <= INT_MAX)
  {
    var chunks :| Sendable(chunks) && Flatten(chunks) == text && sent == Wire(v, chunks);
    WireRoundTrip(v, chunks, suffix);
  }

  predicate Printable(pieces: seq<Piece>) {
    forall i :: 0 <= i < |pieces| && pieces[i].Raw? ==> |pieces[i].raw| <= INT_MAX
  }

  /**
   * A message put piece by piece through a fresh buffer. The result is 0 if and only if the session
   * is still live, whatever the write calls did. The frames and the end mark then went out whole if
   * and only if every write call took all its bytes, and in that case they spell the message. Before
   * a tag, the message was then transmitted if and only if every write call took all its bytes.
   */
  method WriteMessage(session: Session, pieces: seq<Piece>) returns (r: int, ghost frames: seq<string>)
    requires session.Sound() && Printable(pieces)
    modifies session`status, session`reason, session`output, session`writes, session`losses
    ensures session.Sound() && Degraded(old(session.status), session.status) && old(session.output) <= session.output
    ensures (r == 0 || r == -1) && (r == 0 <==> session.Live())
    ensures r == 0 ==> (session.output == old(session.output) + Wire(session.version, frames) <==>
                          session.losses == old(session.losses))
    ensures r == 0 ==> Sendable(frames) && |Flatten(frames)| <= |RenderAll(pieces)|
    ensures r == 0 && session.losses == old(session.losses) ==> Flatten(frames) == RenderAll(pieces)
    ensures r == 0 && session.version == V10 ==>
              (Transmits(V10, session.output[|old(session.output)|..], RenderAll(pieces)) <==>
                 session.losses == old(session.losses))
    ensures old(session.Failing()) && IsShort(pieces) ==> r == 0 && session.output == old(session.output)
    ensures !old(session.Live()) ==> unchanged(session)
    ensures Wears(old(session.Live()), old(session.Cut()), old(session.losses),
                  session.Live(), session.Cut(), session.losses)
  {
    if !session.Live() {
      return -1, [];
    }
    var writer := new Writer(session);
    PutAll(writer, pieces);
    var _ := writer.Finish();
    frames := writer.chunks;
    r := if session.Live() then 0 else -1;
    if r == 0 && session.version == V10 {
      LossShows(old(session.output), session.output, frames, RenderAll(pieces), session.losses > old(session.losses));
    }
  }

  /** Before a tag, a loss leaves fewer bytes than the message and the tag have. */
  lemma LossShows(before: string, now: string, frames: seq<string>, text: string, lost: bool)
    requires Sendable(frames) && Sent(before, now, Wire(V10, frames), lost)
    requires |Flatten(frames)| <= |text| && (!lost ==> Flatten(frames) == text)
    ensures Transmits(V10, now[|before|..], text) <==> !lost
  {
    PlainFrames(frames);
    var sent := now[|before|..];
    if !lost {
      assert sent == Wire(V10, frames);
    }
    forall chunks | Sendable(chunks) && Flatten(chunks) == text && sent == Wire(V10, chunks) ensures !lost {
      PlainFrames(chunks);
    }
  }

  /** Puts the pieces one after the other, whatever becomes of each. */
  method PutAll(writer: Writer, pieces: seq<Piece>)
    requires writer.Valid() && writer.Body() == "" && writer.len == 0 && Printable(pieces)
    modifies writer, writer.buf
    modifies writer.session`status, writer.session`reason, writer.session`output
    modifies writer.session`writes, writer.session`losses
    ensures writer.Valid()
    ensures Degraded(old(writer.session.status), writer.session.status)
    ensures Wears(old(writer.session.Live()), old(writer.session.Cut()), old(writer.session.losses),
                  writer.session.Live(), writer.session.Cut(), writer.session.losses)
    ensures Accepted("", writer.Body(), RenderAll(pieces),
                     writer.session.Live() && writer.session.losses == old(writer.session.losses))
    ensures IsShort(pieces) && old(writer.session.Failing()) ==>
              writer.session.Failing() && writer.session.output == old(writer.session.output) && writer.len > 0
  {
    var session := writer.session;
    ghost var text := "";
    assert pieces[..0] == [];
    for i := 0 to |pieces|
      invariant writer.Valid() && Degraded(old(session.status), session.status)
      invariant Wears(old(session.Live()), old(session.Cut()), old(session.losses),
                      session.Live(), session.Cut(), session.losses)
      invariant text == RenderAll(pieces[..i])
      invariant Accepted("", writer.Body(), text, session.Live() && session.losses == old(session.losses))
      invariant IsShort(pieces) && old(session.Failing()) ==>
                  && session.Failing() && session.output == old(session.output)
                  && writer.len == if i == 0 then 0 else |pieces[0].raw|
    {
      PutNext(writer, pieces[i], text, old(session.losses));
      RenderTo(pieces, i);
      text := text + Render(pieces[i]);
    }
    assert pieces[..|pieces|] == pieces;
  }

  lemma RenderTo(pieces: seq<Piece>, i: nat)
    requires i < |pieces|
    ensures RenderAll(pieces[..i + 1]) == RenderAll(pieces[..i]) + Render(pieces[i])
  {
    var prefix := pieces[..i + 1];
    assert prefix[..i] == pieces[..i] && prefix[i] == pieces[i];
  }

  /** One piece more. */
  method PutNext(writer: Writer, piece: Piece, ghost text: string, ghost mark: nat)
    requires writer.Valid() && (piece.Raw? ==> |piece.raw| <= INT_MAX) && mark <= writer.session.losses
    requires Accepted("", writer.Body(), text, writer.session.Live() && writer.session.losses == mark)
    modifies writer, writer.buf
    modifies writer.session`status, writer.session`reason, writer.session`output
    modifies writer.session`writes, writer.session`losses
    ensures writer.Valid()
    ensures Degraded(old(writer.session.status), writer.session.status)
    ensures Wears(old(writer.session.Live()), old(writer.session.Cut()), old(writer.session.losses),
                  writer.session.Live(), writer.session.Cut(), writer.session.losses)
    ensures Accepted("", writer.Body(), text + Render(piece),
                     writer.session.Live() && writer.session.losses == mark)
    ensures piece.Raw? && old(writer.len) + |piece.raw| <= BUFSIZE && old(writer.session.Failing()) ==>
              && writer.session.Failing() && writer.session.output == old(writer.session.output)
              && writer.len == old(writer.len) + |piece.raw|
  {
    ghost var before, losses := writer.Body(), writer.session.losses;
    ghost var well := writer.session.Live() && losses == mark;
    var _ := writer.Put(piece);
    AcceptedBoth("", before, writer.Body(), text, Render(piece), well,
                 writer.session.Live() && writer.session.losses == losses);
  }

  /** A message that goes out in one frame if all goes well. */
  predicate IsShort(pieces: seq<Piece>) {
    |pieces| == 1 && pieces[0].Raw? && 0 < |pieces[0].raw| <= BUFSIZE
  }

  /** A write call that fails goes unnoticed: nothing of a short message is sent, and the result is 0. */
  method LostMessageIsSuccess(text: string) returns (session: Session, r: int)
    requires 0 < |text| <= BUFSIZE
    ensures r == 0 && session.output == ""
  {
    session := new Session(true, [], [Fails]);
    ghost var frames;
    r, frames := WriteMessage(session, [Raw(text)]);
  }

  function RpcStart(msgid: nat, attrs: string): string {
    "<rpc xmlns=\"" + NS_BASE + "\" message-id=\"" + Decimal(msgid) + "\"" + attrs + ">"
  }

  function Raws(parts: seq<string>): (pieces: seq<Piece>)
    ensures |pieces| == |parts| && forall i :: 0 <= i < |parts| ==> pieces[i] == Raw(parts[i])
  {
    seq(|parts|, i requires 0 <= i < |parts| => Raw(parts[i]))
  }

  lemma {:induction false} RenderRaws(parts: seq<string>)
    ensures RenderAll(Raws(parts)) == Flatten(parts)
  {
    if parts == [] {
    } else {
      var init, last := parts[..|parts| - 1], parts[|parts| - 1];
      assert parts == init + [last] && Raws(parts) == Raws(init) + [Raw(last)];
      RenderSnoc(Raws(init), Raw(last));
      FlattenSnoc(init, last);
      RenderRaws(init);
    }
  }

  lemma {:induction false} RenderConcat(a: seq<Piece>, b: seq<Piece>)
    ensures RenderAll(a + b) == RenderAll(a) + RenderAll(b)
  {
    if b == [] {
      assert a + b == a;
    } else {
      var init, last := b[..|b| - 1], b[|b| - 1];
      calc {
        RenderAll(a + b);
        { assert a + b == (a + init) + [last]; RenderSnoc(a + init, last); }
        RenderAll(a + init) + Render(last);
        { RenderConcat(a, init); }
        (RenderAll(a) + RenderAll(init)) + Render(last);
        { ConcatAssoc(RenderAll(a), RenderAll(init), Render(last)); }
        RenderAll(a) + RenderAll(b);
      }
    }
  }

  lemma RenderOne(p: Piece)
    ensures RenderAll([p]) == Render(p)
  {
    assert [p][..0] == [];
  }

  /** Markup, printed content, markup: the shape of rpc and rpc-reply. */
  lemma RenderEnvelope(start: string, body: seq<Piece>, end: string)
    ensures RenderAll([Raw(start)] + body + [Raw(end)]) == start + RenderAll(body) + end
  {
    RenderConcat([Raw(start)], body);
    RenderConcat([Raw(start)] + body, [Raw(end)]);
    RenderOne(Raw(start));
    RenderOne(Raw(end));
  }

  lemma PrintableConcat(a: seq<Piece>, b: seq<Piece>)
    requires Printable(a) && Printable(b)
    ensures Printable(a + b)
  {
  }

  lemma PrintableEnvelope(start: string, body: seq<Piece>, end: string)
    requires |start| <= INT_MAX && Printable(body) && |end| <= INT_MAX
    ensures Printable([Raw(start)] + body + [Raw(end)])
  {
    PrintableConcat([Raw(start)], body);
    PrintableConcat([Raw(start)] + body, [Raw(end)]);
  }

  function RpcPieces(start: string, content: seq<string>): seq<Piece> {
    [Raw(start)] + Raws(content) + [Raw("</rpc>")]
  }

  lemma RenderRpc(start: string, content: seq<string>)
    requires |start| <= INT_MAX && Printable(Raws(content))
    ensures Printable(RpcPieces(start, content))
    ensures RenderAll(RpcPieces(start, content)) == start + Flatten(content) + "</rpc>"
  {
    PrintableEnvelope(start, Raws(content), "</rpc>");
    RenderEnvelope(start, Raws(content), "</rpc>");
    RenderRaws(content);
  }

  /** The message-id advances modulo 2^64. */
  function NextId(msgid: nat): nat {
    (msgid + 1) % (ULONG_MAX + 1)
  }

  /** Sends an rpc under the next message-id, which is used up even if the write fails. */
  method WriteRpc(session: Session, attrs: string, content: seq<string>) returns (r: int)
    requires session.Sound() && session.msgid <= ULONG_MAX
    requires forall i :: 0 <= i < |content| ==> |content[i]| <= INT_MAX
    modifies session`status, session`reason, session`output, session`writes, session`losses, session`msgid
    ensures session.Sound() && Degraded(old(session.status), session.status)
    ensures old(session.output) <= session.output && (r == 0 || r == -1)
    ensures !old(session.Live()) ==> r == -1 && unchanged(session)
    ensures Wears(old(session.Live()), old(session.Cut()), old(session.losses),
                  session.Live(), session.Cut(), session.losses)
    ensures old(session.Live()) ==>
              session.msgid == if |RpcStart(NextId(old(session.msgid)), attrs)| > INT_MAX
                               then old(session.msgid) else NextId(old(session.msgid))
    ensures r == 0 ==> session.status == old(session.status)
    ensures r == 0 && session.losses == old(session.losses) ==>
              Transmits(session.version, session.output[|old(session.output)|..],
                        RpcStart(session.msgid, attrs) + Flatten(content) + "</rpc>")
    ensures r == -1 && session.Live() ==> |RpcStart(NextId(old(session.msgid)), attrs)| > INT_MAX
  {
    if !session.Live() {
      return -1;
    }
    var start := RpcStart(NextId(session.msgid), attrs);
    if |start| > INT_MAX {
      return -1;
    }
    RenderRpc(start, content);
    ghost var frames;
    r, frames := WriteMessage(session, RpcPieces(start, content));
    session.msgid := NextId(session.msgid);
  }

  // ---------------------------------------------------------------- rpc-reply

  function ReplyPieces(attrs: seq<string>, body: seq<Piece>): seq<Piece> {
    ([Raw("<rpc-reply")] + Raws(attrs) + [Raw(">")]) + (body + [Raw("</rpc-reply>")])
  }

  function ReplyText(attrs: seq<string>, body: seq<Piece>): string {
    ("<rpc-reply" + Flatten(attrs) + ">") + (RenderAll(body) + "</rpc-reply>")
  }

  lemma RenderReply(attrs: seq<string>, body: seq<Piece>)
    requires Printable(Raws(attrs)) && Printable(body)
    ensures Printable(ReplyPieces(attrs, body))
    ensures RenderAll(ReplyPieces(attrs, body)) == ReplyText(attrs, body)
  {
    var open := [Raw("<rpc-reply")] + Raws(attrs) + [Raw(">")];
    PrintableEnvelope("<rpc-reply", Raws(attrs), ">");
    PrintableConcat(body, [Raw("</rpc-reply>")]);
    PrintableConcat(open, body + [Raw("</rpc-reply>")]);
    RenderEnvelope("<rpc-reply", Raws(attrs), ">");
    RenderRaws(attrs);
    RenderSnoc(body, Raw("</rpc-reply>"));
    RenderConcat(open, body + [Raw("</rpc-reply>")]);
  }

  /** Sends a reply that carries the attributes of the rpc it answers, as they were printed. */
  method WriteReply(session: Session, attrs: seq<string>, body: seq<Piece>) returns (r: int)
    requires session.Sound() && Printable(body)
    requires forall i :: 0 <= i < |attrs| ==> |attrs[i]| <= INT_MAX
    modifies session`status, session`reason, session`output, session`writes, session`losses
    ensures session.Sound() && Degraded(old(session.status), session.status) && old(session.output) <= session.output
    ensures (r == 0 || r == -1) && (r == 0 <==> session.Live())
    ensures !old(session.Live()) ==> unchanged(session)
    ensures Wears(old(session.Live()), old(session.Cut()), old(session.losses),
                  session.Live(), session.Cut(), session.losses)
    ensures r == 0 ==> session.status == old(session.status)
    ensures r == 0 && session.losses == old(session.losses) ==>
              Transmits(session.version, session.output[|old(session.output)|..], ReplyText(attrs, body))
  {
    RenderReply(attrs, body);
    ghost var frames;
    r, frames := WriteMessage(session, ReplyPieces(attrs, body));
  }

  // ---------------------------------------------------------------- hello

  function OneCapability(capability: string): seq<Piece> {
    [Raw("<capability>"), Content(capability), Raw("</capability>")]
  }

  function CapabilityPieces(capabilities: seq<string>): (pieces: seq<Piece>)
    ensures Printable(pieces)
  {
    if capabilities == [] then [] else
    var last := |capabilities| - 1;
    CapabilityPieces(capabilities[..last]) + OneCapability(capabilities[last])
  }

  lemma {:induction false} RenderCapabilities(capabilities: seq<string>)
    ensures RenderAll(CapabilityPieces(capabilities)) == CapabilityTexts(capabilities)
  {
    if capabilities != [] {
      var last := |capabilities| - 1;
      RenderConcat(CapabilityPieces(capabilities[..last]), OneCapability(capabilities[last]));
      var c := Content(capabilities[last]);
      assert OneCapability(capabilities[last]) == [Raw("<capability>")] + [c] + [Raw("</capability>")];
      RenderEnvelope("<capability>", [c], "</capability>");
      RenderOne(c);
      RenderCapabilities(capabilities[..last]);
    }
  }

  function HelloPieces(capabilities: seq<string>, sid: Option<nat>): seq<Piece> {
    [Raw(HELLO_START)] + CapabilityPieces(capabilities) + [Raw(HelloEnd(sid))]
  }

  lemma RenderHello(capabilities: seq<string>, sid: Option<nat>)
    requires sid.Some? ==> sid.value < 0x1_0000_0000
    ensures Printable(HelloPieces(capabilities, sid))
    ensures RenderAll(HelloPieces(capabilities, sid)) == HelloText(capabilities, sid)
  {
    if sid.Some? { DecimalIsShort(sid.value); }
    PrintableEnvelope(HELLO_START, CapabilityPieces(capabilities), HelloEnd(sid));
    RenderEnvelope(HELLO_START, CapabilityPieces(capabilities), HelloEnd(sid));
    RenderCapabilities(capabilities);
  }

  /** Sends a hello; a session that already speaks chunks refuses to. */
  method WriteHello(session: Session, capabilities: seq<string>, sid: Option<nat>) returns (r: int)
    requires session.Sound() && (sid.Some? ==> sid.value < 0x1_0000_0000)
    modifies session`status, session`reason, session`output, session`writes, session`losses
    ensures session.Sound() && Degraded(old(session.status), session.status)
    ensures old(session.output) <= session.output && (r == 0 || r == -1)
    ensures !old(session.Live()) || session.version == V11 ==> r == -1 && unchanged(session)
    ensures Wears(old(session.Live()), old(session.Cut()), old(session.losses),
                  session.Live(), session.Cut(), session.losses)
    ensures session.version == V10 ==> (r == 0 <==> session.Live())
    ensures r == 0 ==> session.status == old(session.status)
    ensures r == 0 && session.losses == old(session.losses) ==>
              Transmits(V10, session.output[|old(session.output)|..], HelloText(capabilities, sid))
  {
    if !session.Live() || session.version != V10 {
      return -1;
    }
    RenderHello(capabilities, sid);
    ghost var frames;
    r, frames := WriteMessage(session, HelloPieces(capabilities, sid));
  }

  /** The peer recovers the hello text whatever the capability strings are, if its length fits an int. */
  lemma HelloIsReceived(sent: string, capabilities: seq<string>, sid: Option<nat>, suffix: string)
    requires Transmits(V10, sent, HelloText(capabilities, sid))
    ensures Decode(V10, sent + suffix) == Message(HelloText(capabilities, sid), suffix)
       <==> |HelloText(capabilities, sid)| + 6 <= INT_MAX
  {
    HelloIsTagFree(capabilities, sid);
    HelloIsNotEmpty(capabilities, sid);
    TransmittedIsReceived(V10, sent, HelloText(capabilities, sid), suffix);
  }

  /** Whatever chunks the writer cuts it into, a hello goes out as its text and the tag. */
  lemma HelloOnTheWire(sent: string, capabilities: seq<string>, sid: Option<nat>)
    requires Transmits(V10, sent, HelloText(capabilities, sid))
    ensures sent == HelloText(capabilities, sid) + END_TAG
  {
    var chunks :| Sendable(chunks) && Flatten(chunks) == HelloText(capabilities, sid) && sent == Wire(V10, chunks);
    PlainFrames(chunks);
  }

  lemma HelloIsNotEmpty(capabilities: seq<string>, sid: Option<nat>)
    ensures HelloText(capabilities, sid) != ""
  {
    assert |HelloText(capabilities, sid)| >= |HELLO_START|;
  }
}
