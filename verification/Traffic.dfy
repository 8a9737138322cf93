/**
 * Whole conversations: sessions that write any number of messages, sessions that read them off any
 * fragmentation of those bytes, and two ends of this library from the handshake on.
 */
module Traffic {
  import opened Text
  import opened Framing
  import opened SessionState
  import opened Transport
  import opened Receiver
  import opened Escaping
  import opened Messages
  import opened Handshake

  // ---------------------------------------------------------------- writing

  /** Each message is cut into frames that spell its text. */
  ghost predicate Framed(frames: seq<seq<string>>, messages: seq<seq<Piece>>) {
    && |frames| == |messages|
    && forall i :: 0 <= i < |frames| ==> Sendable(frames[i]) && Flatten(frames[i]) == RenderAll(messages[i])
  }

  function AllTexts(messages: seq<seq<Piece>>): (texts: seq<string>)
    ensures |texts| == |messages| && forall i :: 0 <= i < |texts| ==> texts[i] == RenderAll(messages[i])
  {
    seq(|messages|, i requires 0 <= i < |messages| => RenderAll(messages[i]))
  }

  lemma {:induction false} FramedTexts(frames: seq<seq<string>>, messages: seq<seq<Piece>>)
    requires Framed(frames, messages)
    ensures Texts(frames) == AllTexts(messages)
  {
    if frames != [] {
      FramedTexts(frames[1..], messages[1..]);
      assert AllTexts(messages) == [RenderAll(messages[0])] + AllTexts(messages[1..]);
    }
  }

  lemma {:induction false} WireAllSnoc(v: Version, frames: seq<seq<string>>, last: seq<string>)
    ensures WireAll(v, frames + [last]) == WireAll(v, frames) + Wire(v, last)
  {
    var longer := frames + [last];
    if frames == [] {
      assert longer[1..] == [] && longer[0] == last;
    } else {
      WireAllSnoc(v, frames[1..], last);
      assert longer[0] == frames[0] && longer[1..] == frames[1..] + [last];
      ConcatAssoc(Wire(v, frames[0]), WireAll(v, frames[1..]), Wire(v, last));
    }
  }

  /** Writes messages one after the other; on success all of them went out whole, in order. */
  method WriteAll(session: Session, messages: seq<seq<Piece>>) returns (r: int, ghost frames: seq<seq<string>>)
    requires session.Sound() && AllPrintable(messages)
    modifies session`status, session`reason, session`output, session`writes, session`losses
    ensures session.Sound() && Degraded(old(session.status), session.status)
    ensures old(session.output) <= session.output
    ensures (r == 0 || r == -1) && (r == 0 <==> session.Live())
    ensures Wears(old(session.Live()), old(session.Cut()), old(session.losses),
                  session.Live(), session.Cut(), session.losses)
    ensures r == 0 && session.losses == old(session.losses) ==>
              Framed(frames, messages) && session.output == old(session.output) + WireAll(session.version, frames)
  {
    frames := [];
    for i := 0 to |messages|
      invariant session.Sound() && Degraded(old(session.status), session.status)
      invariant old(session.output) <= session.output
      invariant Wears(old(session.Live()), old(session.Cut()), old(session.losses),
                      session.Live(), session.Cut(), session.losses)
      invariant session.Live() && session.losses == old(session.losses) ==>
                  && Framed(frames, messages[..i])
                  && session.output == old(session.output) + WireAll(session.version, frames)
    {
      frames := WriteNext(session, messages[i], frames, messages[..i], old(session.output), old(session.losses));
      assert messages[..i + 1] == messages[..i] + [messages[i]];
    }
    assert messages[..|messages|] == messages;
    r := if session.Live() then 0 else -1;
  }

  /** One message more. */
  method WriteNext(session: Session, message: seq<Piece>, ghost frames: seq<seq<string>>,
                   ghost before: seq<seq<Piece>>, ghost start: string, ghost mark: nat)
    returns (ghost frames': seq<seq<string>>)
    requires session.Sound() && Printable(message)
    requires mark <= session.losses
    requires session.Live() && session.losses == mark ==>
               Framed(frames, before) && session.output == start + WireAll(session.version, frames)
    modifies session`status, session`reason, session`output, session`writes, session`losses
    ensures session.Sound() && Degraded(old(session.status), session.status)
    ensures old(session.output) <= session.output
    ensures Wears(old(session.Live()), old(session.Cut()), old(session.losses),
                  session.Live(), session.Cut(), session.losses)
    ensures !old(session.Live()) ==> unchanged(session)
    ensures session.Live() && session.losses == mark ==>
              Framed(frames', before + [message]) && session.output == start + WireAll(session.version, frames')
  {
    frames' := frames;
    var r;
    ghost var last;
    r, last := WriteMessage(session, message);
    if r == 0 && session.losses == mark {
      frames' := frames + [last];
      WireAllSnoc(session.version, frames, last);
      ConcatAssoc(start, WireAll(session.version, frames), Wire(session.version, last));
    }
  }

  // ---------------------------------------------------------------- reading

  ghost predicate AllReadable(polls: seq<Polled>) {
    forall i :: 0 <= i < |polls| ==> polls[i].Readable?
  }

  /**
   * Reads messages one after the other. What it returns is what decoding the pending bytes that
   * many times returns, however the transport splits them. It fails only if the bytes do not
   * decode, if poll() reports something else than input, or if the session becomes invalid, which
   * it does not if the bytes come promptly.
   */
  method ReadAll(session: Session, polls: seq<Polled>) returns (ok: bool, texts: seq<string>)
    requires session.Sound()
    modifies session`status, session`reason, session`input
    ensures session.Sound() && Degraded(old(session.status), session.status)
    ensures ok ==> session.status == old(session.status)
    ensures var decoded := DecodeAll(session.version, Pending(old(session.input)), |polls|);
            && (ok ==> decoded == Some((texts, Pending(session.input))))
            && (old(session.Live()) && session.attached && AllReadable(polls) && decoded.Some?
                && (Prompt(old(session.input), READ_TIMEOUT) || session.Live()) ==>
                  ok)
  {
    texts := [];
    StillToCome(session.version, Pending(session.input), |polls|);
    for i := 0 to |polls|
      invariant session.Sound() && session.status == old(session.status)
      invariant Idles(session.input) <= Idles(old(session.input))
      invariant ToCome(session.version, Pending(old(session.input)), |polls|, [])
             == ToCome(session.version, Pending(session.input), |polls| - i, texts)
    {
      var m := ReadNext(session, polls[i], |polls| - i, texts);
      if !m.Text? {
        return false, texts;
      }
      texts := texts + [m.text];
    }
    assert texts + [] == texts;
    return true, texts;
  }

  /** The texts read, followed by those that are still to be decoded. */
  function ToCome(v: Version, bytes: string, count: nat, texts: seq<string>): Option<(seq<string>, string)> {
    match DecodeAll(v, bytes, count)
    case None => None
    case Some(more) => Some((texts + more.0, more.1))
  }

  lemma StillToCome(v: Version, bytes: string, count: nat)
    ensures ToCome(v, bytes, count, []) == DecodeAll(v, bytes, count)
  {
    var more := DecodeAll(v, bytes, count);
    if more.Some? {
      assert [] + more.value.0 == more.value.0;
    }
  }

  /** One message more. */
  method ReadNext(session: Session, polled: Polled, ghost count: nat, ghost texts: seq<string>) returns (m: Received)
    requires session.Sound() && count > 0
    modifies session`status, session`reason, session`input
    ensures session.Sound() && Degraded(old(session.status), session.status)
    ensures Idles(session.input) <= Idles(old(session.input))
    ensures m.Text? ==> session.status == old(session.status)
    ensures m.Text? ==>
              ToCome(session.version, Pending(old(session.input)), count, texts)
              == ToCome(session.version, Pending(session.input), count - 1, texts + [m.text])
    ensures !m.Text? && old(session.Live()) && session.attached && polled.Readable?
            && (Prompt(old(session.input), READ_TIMEOUT) || session.Live()) ==>
              ToCome(session.version, Pending(old(session.input)), count, texts).None?
  {
    m := PollMessage(session, polled);
    if m.Text? {
      DecodesOneMore(session.version, Pending(old(session.input)), m.text, Pending(session.input), count, texts);
    }
  }

  lemma DecodesOneMore(v: Version, bytes: string, text: string, rest: string, count: nat, texts: seq<string>)
    requires Decode(v, bytes) == Message(text, rest) && count > 0
    ensures ToCome(v, bytes, count, texts) == ToCome(v, rest, count - 1, texts + [text])
  {
    var more := DecodeAll(v, rest, count - 1);
    if more.Some? {
      ConcatAssoc(texts, [text], more.value.0);
    }
  }

  // ---------------------------------------------------------------- one direction

  /** A text that a version can carry: not empty in chunks, tag free before a tag. */
  ghost predicate CarriableText(v: Version, text: string) {
    if v.V11? then text != "" else TagFree(text) && |text| + 6 <= INT_MAX
  }

  ghost predicate AllPrintable(messages: seq<seq<Piece>>) {
    forall i :: 0 <= i < |messages| ==> Printable(messages[i])
  }

  ghost predicate AllCarriable(v: Version, messages: seq<seq<Piece>>) {
    forall i :: 0 <= i < |messages| ==> CarriableText(v, RenderAll(messages[i]))
  }

  lemma FramedDecode(v: Version, frames: seq<seq<string>>, messages: seq<seq<Piece>>, later: string)
    requires Framed(frames, messages) && AllCarriable(v, messages)
    ensures DecodeAll(v, WireAll(v, frames) + later, |messages|) == Some((AllTexts(messages), later))
  {
    forall i | 0 <= i < |frames| ensures Carriable(v, frames[i]) {
      assert CarriableText(v, RenderAll(messages[i]));
    }
    TrafficRoundTrip(v, frames, later);
    FramedTexts(frames, messages);
  }

  /**
   * One end writes messages, the other reads as many. If what comes in there is what was written,
   * in whatever pieces, the texts read are the texts written, in order, and what comes later is
   * left; unless the reader's session dies, and it does not if the bytes come promptly.
   */
  method Pass(sender: Session, receiver: Session, messages: seq<seq<Piece>>, polls: seq<Polled>, ghost later: string)
    returns (ok: bool, texts: seq<string>)
    requires sender != receiver && sender.Sound() && receiver.Sound() && |polls| == |messages|
    requires AllPrintable(messages)
    modifies sender`status, sender`reason, sender`output, sender`writes, sender`losses
    modifies receiver`status, receiver`reason, receiver`input
    ensures sender.Sound() && Degraded(old(sender.status), sender.status)
    ensures receiver.Sound() && Degraded(old(receiver.status), receiver.status)
    ensures old(sender.output) <= sender.output
    ensures Wears(old(sender.Live()), old(sender.Cut()), old(sender.losses), sender.Live(), sender.Cut(), sender.losses)
    ensures Pending(old(receiver.input)) == sender.output[|old(sender.output)|..] + later && AllReadable(polls)
            && sender.version == receiver.version && AllCarriable(sender.version, messages)
            && sender.Live() && sender.losses == old(sender.losses) && old(receiver.Live()) && receiver.attached
            && (Prompt(old(receiver.input), READ_TIMEOUT) || receiver.Live()) ==>
              ok && receiver.Live() && texts == AllTexts(messages) && Pending(receiver.input) == later
  {
    var w;
    ghost var frames;
    w, frames := WriteAll(sender, messages);
    if w == 0 && sender.losses == old(sender.losses) && AllCarriable(sender.version, messages) {
      FramedDecode(sender.version, frames, messages, later);
    }
    ok, texts := ReadAll(receiver, polls);
  }

  // ---------------------------------------------------------------- two ends of this library

  /** A session as created, before its handshake. */
  ghost predicate Created(s: Session)
    reads s
  {
    s.Sound() && s.status == Starting && s.version == V10 && s.attached && s.id < 0x1_0000_0000
  }

  /** What was written since then is what comes in first at the other end. */
  ghost predicate Hears(pending: string, before: string, now: string) {
    before <= now && now[|before|..] <= pending
  }

  /** A hello comes in first. */
  ghost predicate HelloFirst(pending: string, peer: seq<string>, peerId: Option<nat>) {
    HelloText(peer, peerId) + END_TAG <= pending
  }

  ghost function AfterHello(pending: string, peer: seq<string>, peerId: Option<nat>): string {
    var n := |HelloText(peer, peerId) + END_TAG|;
    if n <= |pending| then pending[n..] else ""
  }

  lemma FirstIsPeerSent(pending: string, client: bool, peer: seq<string>, peerId: Option<nat>)
    requires |HelloText(peer, peerId)| + 6 <= INT_MAX && AcceptablePeer(client, peer, peerId)
    ensures HelloFirst(pending, peer, peerId) ==>
              PeerSent(pending, client, peer, peerId, AfterHello(pending, peer, peerId))
  {
  }

  /** Either end: the handshake succeeds if the peer's hello comes in first and no transport fails. */
  method Greet(s: Session, client: bool, own: seq<string>, ownId: Option<nat>, parse: Parser, polled: Polled,
               ghost peer: seq<string>, ghost peerId: Option<nat>)
    returns (r: HelloResult)
    requires Created(s) && ReadsHellos(parse) && (ownId.Some? ==> ownId.value < 0x1_0000_0000)
    requires |HelloText(peer, peerId)| + 6 <= INT_MAX && AcceptablePeer(client, peer, peerId)
    modifies s
    ensures s.Sound() && s.attached && Idles(s.input) <= Idles(old(s.input)) && old(s.output) <= s.output
    ensures s.status == Running <==> r == HelloOk
    ensures old(s.losses) <= s.losses
    ensures s.losses == old(s.losses) ==> Said(old(s.output), s.output, own, ownId) || (!s.Live() && s.Cut())
    ensures HelloFirst(Pending(old(s.input)), peer, peerId) && polled.Readable? ==>
              && (s.Live() || s.Cut() || !Prompt(old(s.input), READ_TIMEOUT))
              && (s.Live() ==> r == HelloOk && Pending(s.input) == AfterHello(Pending(old(s.input)), peer, peerId)
                               && Learned(s.version, s.id, s.cpblts, client, peer, peerId))
  {
    ghost var later := AfterHello(Pending(s.input), peer, peerId);
    FirstIsPeerSent(Pending(s.input), client, peer, peerId);
    PeerHelloIsDecoded(Pending(s.input), client, peer, peerId, later);
    r := ExchangeHellos(s, client, own, ownId, parse, polled, peer, peerId, later);
  }

  /** The two hellos can be read, and each names a version the other end can use. */
  ghost predicate Compatible(clients: seq<string>, servers: seq<string>, sid: nat) {
    && AcceptablePeer(true, servers, Some(sid)) && |HelloText(servers, Some(sid))| + 6 <= INT_MAX
    && AcceptablePeer(false, clients, None) && |HelloText(clients, None)| + 6 <= INT_MAX
  }

  /**
   * The handshake of two ends. If each is sent what the other writes, both come out running with
   * the highest version of the other's list, unless a transport fails, and it does not if the
   * bytes come promptly and writing is not cut off. Neither reads further than the other's hello.
   */
  method Meet(client: Session, server: Session, clients: seq<string>, servers: seq<string>, parse: Parser,
              atClient: Polled, atServer: Polled)
    returns (rc: HelloResult, rs: HelloResult)
    requires client != server && Created(client) && Created(server) && ReadsHellos(parse)
    requires Compatible(clients, servers, server.id)
    modifies client, server
    ensures client.Sound() && client.attached && Idles(client.input) <= Idles(old(client.input))
    ensures server.Sound() && server.attached && Idles(server.input) <= Idles(old(server.input))
    ensures old(client.output) <= client.output && old(server.output) <= server.output
    ensures old(client.losses) <= client.losses && old(server.losses) <= server.losses
    ensures (client.status == Running <==> rc == HelloOk) && (server.status == Running <==> rs == HelloOk)
    ensures Hears(Pending(old(client.input)), old(server.output), server.output) && atClient.Readable?
            && Hears(Pending(old(server.input)), old(client.output), client.output) && atServer.Readable?
            && client.losses == old(client.losses) && server.losses == old(server.losses) ==>
              && (client.Live() && server.Live() ==>
                    && rc == rs == HelloOk && client.id == old(server.id) && client.cpblts == servers
                    && client.version == AsVersion(Highest(servers)) && server.version == AsVersion(Highest(clients))
                    && Pending(old(client.input)) == server.output[|old(server.output)|..] + Pending(client.input)
                    && Pending(old(server.input)) == client.output[|old(client.output)|..] + Pending(server.input))
              && (Prompt(old(client.input), READ_TIMEOUT) && Prompt(old(server.input), READ_TIMEOUT)
                  && !client.Cut() && !server.Cut() ==>
                    client.Live() && server.Live())
  {
    ghost var sid := server.id;
    rc := Greet(client, true, clients, None, parse, atClient, servers, Some(sid));
    rs := Greet(server, false, servers, Some(server.id), parse, atServer, clients, None);
    HeardIf(Pending(old(client.input)), old(server.output), server.output, servers, Some(sid));
    HeardIf(Pending(old(server.input)), old(client.output), client.output, clients, None);
  }

  lemma HeardIf(pending: string, before: string, now: string, peer: seq<string>, peerId: Option<nat>)
    ensures Said(before, now, peer, peerId) && Hears(pending, before, now) ==>
              && HelloFirst(pending, peer, peerId)
              && pending == now[|before|..] + AfterHello(pending, peer, peerId)
  {
  }

  /** Exactly what was written since then comes in at the other end. */
  ghost predicate Carried(pending: string, before: string, now: string) {
    before <= now && pending == now[|before|..]
  }

  /** What is still to come in after the first part is what was written after it. */
  lemma CarriedOn(pending: string, before: string, middle: string, now: string, rest: string)
    requires before <= middle <= now
    ensures Carried(pending, before, now) ==> Hears(pending, before, middle)
    ensures Carried(pending, before, now) && pending == middle[|before|..] + rest ==> rest == now[|middle|..]
  {
    if Carried(pending, before, now) {
      assert now[|before|..] == middle[|before|..] + now[|middle|..];
      assert pending[..|middle| - |before|] == middle[|before|..];
      assert pending == middle[|before|..] + rest ==> rest == pending[|middle| - |before|..];
    }
  }

  /**
   * Two ends with lists that have the same highest version: what they write to each other after the
   * handshake is what they read.
   */
  method Converse(client: Session, server: Session, clients: seq<string>, servers: seq<string>, parse: Parser,
                  atClient: Polled, atServer: Polled, fromClient: seq<seq<Piece>>, fromServer: seq<seq<Piece>>,
                  clientPolls: seq<Polled>, serverPolls: seq<Polled>)
    returns (serverRead: seq<string>, clientRead: seq<string>)
    requires client != server && Created(client) && Created(server) && ReadsHellos(parse)
    requires Compatible(clients, servers, server.id) && Highest(clients) == Highest(servers)
    requires AllPrintable(fromClient) && AllPrintable(fromServer)
    requires |clientPolls| == |fromServer| && |serverPolls| == |fromClient|
    modifies client, server
    ensures Carried(Pending(old(client.input)), old(server.output), server.output)
            && Carried(Pending(old(server.input)), old(client.output), client.output)
            && client.losses == old(client.losses) && server.losses == old(server.losses)
            && atClient.Readable? && atServer.Readable? && AllReadable(clientPolls) && AllReadable(serverPolls)
            && AllCarriable(AsVersion(Highest(clients)), fromClient)
            && AllCarriable(AsVersion(Highest(clients)), fromServer) ==>
              && (client.Live() && server.Live() ==>
                    && client.status == server.status == Running
                    && client.version == server.version == AsVersion(Highest(clients))
                    && client.id == old(server.id) && client.cpblts == servers
                    && serverRead == AllTexts(fromClient) && clientRead == AllTexts(fromServer))
              && (Prompt(old(client.input), READ_TIMEOUT) && Prompt(old(server.input), READ_TIMEOUT)
                  && !client.Cut() && !server.Cut() ==>
                    client.Live() && server.Live())
  {
    serverRead, clientRead := [], [];
    var rc, rs := Meet(client, server, clients, servers, parse, atClient, atServer);
    ghost var cout, sout, cin, sin := client.output, server.output, Pending(client.input), Pending(server.input);
    if rc == HelloOk && rs == HelloOk {
      serverRead, clientRead := Talk(client, server, fromClient, fromServer, clientPolls, serverPolls);
    }
    CarriedOn(Pending(old(client.input)), old(server.output), sout, server.output, cin);
    CarriedOn(Pending(old(server.input)), old(client.output), cout, client.output, sin);
  }

  /** Both directions after the handshake. */
  method Talk(client: Session, server: Session, fromClient: seq<seq<Piece>>, fromServer: seq<seq<Piece>>,
              clientPolls: seq<Polled>, serverPolls: seq<Polled>)
    returns (serverRead: seq<string>, clientRead: seq<string>)
    requires client != server && client.Sound() && server.Sound() && client.attached && server.attached
    requires client.Live() && server.Live() && AllPrintable(fromClient) && AllPrintable(fromServer)
    requires |clientPolls| == |fromServer| && |serverPolls| == |fromClient|
    modifies client`status, client`reason, client`input, client`output, client`writes, client`losses
    modifies server`status, server`reason, server`input, server`output, server`writes, server`losses
    ensures Degraded(old(client.status), client.status) && Degraded(old(server.status), server.status)
    ensures old(client.output) <= client.output && old(server.output) <= server.output
    ensures old(client.losses) <= client.losses && old(server.losses) <= server.losses
    ensures (old(client.Cut()) ==> client.Cut()) && (old(server.Cut()) ==> server.Cut())
    ensures Carried(Pending(old(client.input)), old(server.output), server.output)
            && Carried(Pending(old(server.input)), old(client.output), client.output)
            && client.losses == old(client.losses) && server.losses == old(server.losses)
            && AllReadable(clientPolls) && AllReadable(serverPolls) && client.version == server.version
            && AllCarriable(client.version, fromClient) && AllCarriable(client.version, fromServer) ==>
              && (client.Live() && server.Live() ==>
                    serverRead == AllTexts(fromClient) && clientRead == AllTexts(fromServer))
              && (Prompt(old(client.input), READ_TIMEOUT) && Prompt(old(server.input), READ_TIMEOUT)
                  && !client.Cut() && !server.Cut() ==>
                    client.Live() && server.Live())
  {
    var oks, okc;
    oks, serverRead := Pass(client, server, fromClient, serverPolls, "");
    okc, clientRead := Pass(server, client, fromServer, clientPolls, "");
  }

  lemma {:induction false} EscapeBound(s: string)
    ensures |Escape(s)| <= 5 * |s|
  {
    if s != "" { EscapeBound(s[1..]); }
  }

  lemma CapabilityTextBound(c: string)
    ensures |CapabilityText(c)| <= 5 * |c| + 25
  {
    EscapeBound(c);
  }

  lemma {:induction false} TwoCapabilities(a: string, b: string)
    ensures CapabilityTexts([a, b]) == CapabilityText(a) + CapabilityText(b)
  {
    assert [a, b][..1] == [a] && [a][..0] == [];
    assert CapabilityTexts([a]) == CapabilityText(a);
  }

  /** The client's hello is short. */
  lemma ClientHelloFits()
    ensures |HelloText(CLIENT_CAPABILITIES, None)| + 6 <= INT_MAX
  {
    CapabilityTextBound(BASE_10);
    CapabilityTextBound(BASE_11);
    TwoCapabilities(BASE_10, BASE_11);
  }

  /** Both ends of this library go up to version 1.1. */
  lemma LibraryVersion(extra: seq<string>)
    ensures Highest(CLIENT_CAPABILITIES) == Highest(ServerCapabilities(extra)) == 1
    ensures Common(CLIENT_CAPABILITIES, ServerCapabilities(extra)) == 1
  {
    assert CLIENT_CAPABILITIES[1] == BASE_11 && ServerCapabilities(extra)[1] == BASE_11;
  }

  /** They can use each other's hello. */
  lemma LibraryIsCompatible(extra: seq<string>, sid: nat)
    requires 1 <= sid <= 0xFFFF_FFFF && |HelloText(ServerCapabilities(extra), Some(sid))| + 6 <= INT_MAX
    ensures Compatible(CLIENT_CAPABILITIES, ServerCapabilities(extra), sid)
  {
    LibraryVersion(extra);
    ClientHelloFits();
  }

  /** Both ends run with the highest version both have, and each has learned what the other said. */
  ghost predicate Agreed(client: Session, server: Session, extra: seq<string>, sid: nat)
    reads client, server
  {
    && client.status == server.status == Running
    && client.version == server.version == AsVersion(Common(CLIENT_CAPABILITIES, ServerCapabilities(extra)))
    && client.id == sid && client.cpblts == ServerCapabilities(extra)
  }

  /**
   * A client and a server of this library, from the handshake on. If what each end writes is what
   * comes in at the other, in whatever pieces and with whatever delays, then unless a transport
   * fails both run with the highest version both have, and the texts each reads are the texts the
   * other wrote, in order. No transport fails if the bytes come promptly, every write call takes
   * all its bytes, and writing is not cut off.
   */
  method HandshakeThenTraffic(client: Session, server: Session, extra: seq<string>, parse: Parser,
                              atClient: Polled, atServer: Polled,
                              fromClient: seq<seq<Piece>>, fromServer: seq<seq<Piece>>,
                              clientPolls: seq<Polled>, serverPolls: seq<Polled>)
    returns (serverRead: seq<string>, clientRead: seq<string>)
    requires client != server && Created(client) && Created(server) && ReadsHellos(parse)
    requires 1 <= server.id && |HelloText(ServerCapabilities(extra), Some(server.id))| + 6 <= INT_MAX
    requires AllPrintable(fromClient) && AllPrintable(fromServer)
    requires AllCarriable(V11, fromClient) && AllCarriable(V11, fromServer)
    requires |clientPolls| == |fromServer| && |serverPolls| == |fromClient|
    modifies client, server
    ensures Carried(Pending(old(client.input)), old(server.output), server.output)
            && Carried(Pending(old(server.input)), old(client.output), client.output)
            && client.losses == old(client.losses) && server.losses == old(server.losses)
            && atClient.Readable? && atServer.Readable? && AllReadable(clientPolls) && AllReadable(serverPolls) ==>
              && (client.Live() && server.Live() ==>
                    && Agreed(client, server, extra, old(server.id))
                    && serverRead == AllTexts(fromClient) && clientRead == AllTexts(fromServer))
              && (Prompt(old(client.input), READ_TIMEOUT) && Prompt(old(server.input), READ_TIMEOUT)
                  && !client.Cut() && !server.Cut() ==>
                    client.Live() && server.Live())
  {
    LibraryVersion(extra);
    LibraryIsCompatible(extra, server.id);
    serverRead, clientRead := Converse(client, server, CLIENT_CAPABILITIES, ServerCapabilities(extra), parse,
                                       atClient, atServer, fromClient, fromServer, clientPolls, serverPolls);
  }
}
