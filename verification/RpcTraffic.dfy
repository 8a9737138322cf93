/**
 * Remote calls end to end, down to the bytes: a client writes rpcs, a server reads each of them and
 * writes a reply with its attributes, and the client reads the replies. What the XML library reads
 * and prints of the two start tags is a parameter.
 */
module RpcTraffic {
  import opened Text
  import opened Framing
  import opened SessionState
  import opened Transport
  import opened Receiver
  import opened Escaping
  import opened Messages
  import opened Traffic
  import Demux

  // ---------------------------------------------------------------- texts and parsers

  function AttrText(id: nat): string {
    ATTR_START + Decimal(id) + "\""
  }

  const ATTR_START := " xmlns=\"" + NS_BASE + "\" message-id=\""

  function RpcText(id: nat, content: string): string {
    RpcStart(id, "") + content + "</rpc>"
  }

  function AnswerText(id: nat, body: string): string {
    ("<rpc-reply" + AttrText(id) + ">") + (body + "</rpc-reply>")
  }

  /** A piece of markup as the XML library hands it to the writer. */
  type Printed = s: string | |s| <= INT_MAX witness ""

  /** Reads an rpc and prints its attributes; None if the text is no rpc. */
  type RpcParser = string -> Option<seq<Printed>>

  /** Reads a reply and gives its message-id. */
  type ReplyParser = string -> Option<string>

  /** What is expected of the XML library for rpcs with the given content. */
  ghost predicate ReadsRpc(parse: RpcParser, content: string) {
    forall id: nat :: id <= ULONG_MAX ==>
      parse(RpcText(id, content)).Some? && Flatten(parse(RpcText(id, content)).value) == AttrText(id)
  }

  /** And for replies with the given body. */
  ghost predicate ReadsReply(parse: ReplyParser, body: string) {
    forall id: nat :: id <= ULONG_MAX ==> parse(AnswerText(id, body)) == Some(Decimal(id))
  }

  ghost predicate ReadsContent(parse: RpcParser, rpc: seq<string>) {
    ReadsRpc(parse, Flatten(rpc))
  }

  ghost predicate ReadsBody(parse: ReplyParser, body: seq<Piece>) {
    ReadsReply(parse, RenderAll(body))
  }

  function Power10(d: nat): nat {
    if d == 0 then 1 else 10 * Power10(d - 1)
  }

  lemma {:induction false} DecimalDigits(n: nat, d: nat)
    requires d > 0 && n < Power10(d)
    ensures |Decimal(n)| <= d
  {
    if n >= 10 { DecimalDigits(n / 10, d - 1); }
  }

  lemma IdIsShort(id: nat)
    requires id <= ULONG_MAX
    ensures |Decimal(id)| <= 20 && |AttrText(id)| <= 200
  {
    assert Power10(5) == 100000;
    assert Power10(10) == 100000 * 100000;
    assert Power10(20) == 10000000000 * 10000000000;
    DecimalDigits(id, 20);
  }

  lemma StartIsShort(id: nat)
    requires id <= ULONG_MAX
    ensures RpcStart(id, "") == "<rpc" + AttrText(id) + ">" && |RpcStart(id, "")| <= INT_MAX
  {
    IdIsShort(id);
    assert "<rpc xmlns=\"" == "<rpc" + " xmlns=\"";
  }

  // ---------------------------------------------------------------- parsers that meet the expectations

  /** The attributes of the first tag of an rpc. */
  function FirstTag(text: string): Option<seq<Printed>> {
    if !("<rpc" <= text) then None else
    match Find(text[4..], ">")
    case Some(k) => if k <= INT_MAX then Some([text[4..][..k]]) else None
    case None => None
  }

  const REPLY_START := "<rpc-reply" + ATTR_START

  /** The id of a reply that starts as this library's do. */
  function FirstId(text: string): Option<string> {
    if REPLY_START <= text then Some(LeadingDigits(text[|REPLY_START|..])) else None
  }

  lemma NoTagEnd(id: nat)
    ensures '>' !in AttrText(id)
  {
    NoTagEndBefore();
    assert AllDigits(Decimal(id));
    assert '>' !in Decimal(id);
  }

  lemma NoTagEndBefore()
    ensures '>' !in ATTR_START
  {
    assert '>' !in " xmlns=\"" && '>' !in NS_BASE && '>' !in "\" message-id=\"";
  }

  /** The expectations on the XML library can be met, for all contents. */
  lemma SomeParserReadsRpcs(content: string)
    ensures ReadsRpc(FirstTag, content)
  {
    forall id: nat | id <= ULONG_MAX
      ensures FirstTag(RpcText(id, content)).Some?
      ensures Flatten(FirstTag(RpcText(id, content)).value) == AttrText(id)
    {
      StartIsShort(id);
      IdIsShort(id);
      NoTagEnd(id);
      var attrs, after := AttrText(id), content + "</rpc>";
      assert RpcText(id, content) == "<rpc" + (attrs + ">" + after);
      FindAfter(attrs, ">", after);
      assert (attrs + ">" + after)[..|attrs|] == attrs;
      assert Flatten([attrs]) == attrs;
    }
  }

  lemma SomeParserReadsReplies(body: string)
    ensures ReadsReply(FirstId, body)
  {
    forall id: nat | id <= ULONG_MAX ensures FirstId(AnswerText(id, body)) == Some(Decimal(id)) {
      var rest := "\"" + ">" + (body + "</rpc-reply>");
      AnswerSplits(id, body);
      LeadingDigitsAre(Decimal(id), rest);
    }
  }

  lemma AnswerSplits(id: nat, body: string)
    ensures var rest := "\"" + ">" + (body + "</rpc-reply>");
            REPLY_START <= AnswerText(id, body) && AnswerText(id, body)[|REPLY_START|..] == Decimal(id) + rest
  {
    var rest := "\"" + ">" + (body + "</rpc-reply>");
    Regroup("<rpc-reply", ATTR_START, Decimal(id), "\"", ">", body + "</rpc-reply>");
    assert AnswerText(id, body) == REPLY_START + (Decimal(id) + rest);
  }

  lemma Regroup(a: string, b: string, c: string, d: string, e: string, f: string)
    ensures (a + ((b + c) + d) + e) + f == (a + b) + (c + (d + e + f))
  {
  }

  // ---------------------------------------------------------------- the client sends

  /** A frame list that spells the rpc with this id and content. */
  ghost predicate Asks(frame: seq<string>, id: nat, rpc: seq<string>) {
    id <= ULONG_MAX && Sendable(frame) && Flatten(frame) == RpcText(id, Flatten(rpc))
  }

  ghost predicate Asked(frames: seq<seq<string>>, ids: seq<nat>, rpcs: seq<seq<string>>) {
    |frames| == |ids| == |rpcs| && forall i :: 0 <= i < |frames| ==> Asks(frames[i], ids[i], rpcs[i])
  }

  function IdBefore(last: nat, ids: seq<nat>, i: nat): nat
    requires i <= |ids|
  {
    if i == 0 then last else ids[i - 1]
  }

  /** Every id is the successor of the one before it modulo 2^64, beginning behind the given one. */
  predicate Numbered(last: nat, ids: seq<nat>) {
    forall i :: 0 <= i < |ids| ==> ids[i] == NextId(IdBefore(last, ids, i))
  }

  lemma NumberedSnoc(last: nat, ids: seq<nat>, id: nat)
    requires Numbered(last, ids) && id == NextId(IdBefore(last, ids, |ids|))
    ensures Numbered(last, ids + [id])
  {
    var longer := ids + [id];
    forall i | 0 <= i < |longer| ensures longer[i] == NextId(IdBefore(last, longer, i)) {
      assert IdBefore(last, longer, i) == IdBefore(last, ids, i);
    }
  }

  predicate Contents(rpcs: seq<seq<string>>) {
    forall i, j :: 0 <= i < |rpcs| && 0 <= j < |rpcs[i]| ==> |rpcs[i][j]| <= INT_MAX
  }

  /** nc_send_rpc(): writes an rpc and returns its id. */
  method SendOne(client: Session, content: seq<string>) returns (id: nat, ghost frame: seq<string>)
    requires client.Sound() && client.msgid <= ULONG_MAX
    requires forall j :: 0 <= j < |content| ==> |content[j]| <= INT_MAX
    modifies client`status, client`reason, client`output, client`writes, client`losses, client`msgid
    ensures client.Sound() && Degraded(old(client.status), client.status) && client.msgid <= ULONG_MAX
    ensures Wears(old(client.Live()), old(client.Cut()), old(client.losses), client.Live(), client.Cut(), client.losses)
    ensures old(client.output) <= client.output && id == client.msgid
    ensures client.Live() ==> id == NextId(old(client.msgid))
    ensures client.Live() && client.losses == old(client.losses) ==>
              Asks(frame, id, content) && client.output == old(client.output) + Wire(client.version, frame)
  {
    ghost var before := client.output;
    StartIsShort(NextId(client.msgid));
    var r := WriteRpc(client, "", content);
    id, frame := client.msgid, [];
    if client.Live() && client.losses == old(client.losses) {
      ghost var sent, text := client.output[|before|..], RpcText(id, Flatten(content));
      assert Transmits(client.version, sent, text);
      frame :| Sendable(frame) && Flatten(frame) == text && sent == Wire(client.version, frame);
    }
  }

  /** The first i rpcs have gone out. */
  ghost predicate SentSoFar(v: Version, start: string, output: string, frames: seq<seq<string>>, ids: seq<nat>,
                            rpcs: seq<seq<string>>, i: nat) {
    i <= |rpcs| && Asked(frames, ids, rpcs[..i]) && output == start + WireAll(v, frames)
  }

  lemma OutputSnoc(v: Version, start: string, output: string, frames: seq<seq<string>>, frame: seq<string>)
    requires output == start + WireAll(v, frames)
    ensures output + Wire(v, frame) == start + WireAll(v, frames + [frame])
  {
    WireAllSnoc(v, frames, frame);
    ConcatAssoc(start, WireAll(v, frames), Wire(v, frame));
  }

  lemma Prefixes<T>(s: seq<T>, i: nat)
    requires i < |s|
    ensures s[..i + 1] == s[..i] + [s[i]]
  {
  }

  lemma AskedSnoc(frames: seq<seq<string>>, ids: seq<nat>, rpcs: seq<seq<string>>,
                  frame: seq<string>, id: nat, rpc: seq<string>)
    requires Asked(frames, ids, rpcs) && Asks(frame, id, rpc)
    ensures Asked(frames + [frame], ids + [id], rpcs + [rpc])
  {
  }

  lemma SentOneMore(v: Version, start: string, output: string, frames: seq<seq<string>>, ids: seq<nat>,
                    rpcs: seq<seq<string>>, i: nat, frame: seq<string>, id: nat)
    requires SentSoFar(v, start, output, frames, ids, rpcs, i) && i < |rpcs| && Asks(frame, id, rpcs[i])
    ensures SentSoFar(v, start, output + Wire(v, frame), frames + [frame], ids + [id], rpcs, i + 1)
  {
    OutputSnoc(v, start, output, frames, frame);
    AskedSnoc(frames, ids, rpcs[..i], frame, id, rpcs[i]);
    Prefixes(rpcs, i);
  }

  /** Sends rpcs one after the other. */
  method SendAll(client: Session, rpcs: seq<seq<string>>) returns (ids: seq<nat>, ghost frames: seq<seq<string>>)
    requires client.Sound() && client.msgid <= ULONG_MAX && Contents(rpcs)
    modifies client`status, client`reason, client`output, client`writes, client`losses, client`msgid
    ensures client.Sound() && Degraded(old(client.status), client.status)
    ensures Wears(old(client.Live()), old(client.Cut()), old(client.losses), client.Live(), client.Cut(), client.losses)
    ensures old(client.output) <= client.output && |ids| == |frames| == |rpcs|
    ensures client.Live() ==> Numbered(old(client.msgid), ids)
    ensures client.Live() && client.losses == old(client.losses) ==>
              SentSoFar(client.version, old(client.output), client.output, frames, ids, rpcs, |rpcs|)
  {
    ids, frames := [], [];
    ghost var start := client.output;
    assert start + WireAll(client.version, []) == start;
    for i := 0 to |rpcs|
      invariant client.Sound() && Degraded(old(client.status), client.status) && client.msgid <= ULONG_MAX
      invariant Wears(old(client.Live()), old(client.Cut()), old(client.losses),
                      client.Live(), client.Cut(), client.losses)
      invariant start <= client.output && |ids| == |frames| == i
      invariant client.msgid == IdBefore(old(client.msgid), ids, i)
      invariant client.Live() ==> Numbered(old(client.msgid), ids)
      invariant client.Live() && client.losses == old(client.losses) ==>
                  SentSoFar(client.version, start, client.output, frames, ids, rpcs, i)
    {
      ghost var sofar := client.output;
      var id;
      ghost var frame;
      id, frame := SendOne(client, rpcs[i]);
      if client.Live() {
        NumberedSnoc(old(client.msgid), ids, id);
        if client.losses == old(client.losses) {
          SentOneMore(client.version, start, sofar, frames, ids, rpcs, i, frame, id);
        }
      }
      ids, frames := ids + [id], frames + [frame];
    }
  }

  // ---------------------------------------------------------------- the server answers

  /** A frame list that spells a reply to the rpc with this id. */
  ghost predicate Answers(frame: seq<string>, id: nat, body: seq<Piece>) {
    id <= ULONG_MAX && Sendable(frame) && Flatten(frame) == AnswerText(id, RenderAll(body))
  }

  ghost predicate Answered(frames: seq<seq<string>>, ids: seq<nat>, bodies: seq<seq<Piece>>) {
    |frames| == |ids| == |bodies| && forall i :: 0 <= i < |frames| ==> Answers(frames[i], ids[i], bodies[i])
  }

  lemma AnsweredSnoc(frames: seq<seq<string>>, ids: seq<nat>, bodies: seq<seq<Piece>>,
                     frame: seq<string>, id: nat, body: seq<Piece>)
    requires Answered(frames, ids, bodies) && Answers(frame, id, body)
    ensures Answered(frames + [frame], ids + [id], bodies + [body])
  {
  }

  /** An rpc comes in that the XML library can read, followed by the rest. */
  ghost predicate RpcComes(v: Version, pending: string, parse: RpcParser, id: nat, content: string, rest: string) {
    && Decode(v, pending) == Message(RpcText(id, content), rest)
    && id <= ULONG_MAX && ReadsRpc(parse, content)
  }

  /** Reads an rpc and writes a reply with its attributes, as nc_ps_poll() does for a session with input. */
  method ServeOne(server: Session, parse: RpcParser, body: seq<Piece>, polled: Polled,
                  ghost id: nat, ghost content: string, ghost rest: string)
    returns (ok: bool, ghost frame: seq<string>)
    requires server.Sound() && Printable(body)
    modifies server`status, server`reason, server`input, server`output, server`writes, server`losses
    ensures server.Sound() && Degraded(old(server.status), server.status)
    ensures Idles(server.input) <= Idles(old(server.input)) && old(server.output) <= server.output
    ensures (old(server.Cut()) ==> server.Cut()) && old(server.losses) <= server.losses
    ensures RpcComes(server.version, Pending(old(server.input)), parse, id, content, rest) && polled.Readable?
            && old(server.Live()) && server.attached && server.losses == old(server.losses) ==>
              && (server.Live() ==>
                    && ok && Pending(server.input) == rest
                    && Answers(frame, id, body) && server.output == old(server.output) + Wire(server.version, frame))
              && (Prompt(old(server.input), READ_TIMEOUT) && !server.Cut() ==> server.Live())
  {
    ok, frame := false, [];
    var m := PollMessage(server, polled);
    if !m.Text? {
      return;
    }
    var attrs := parse(m.text);
    if attrs.None? {
      return;
    }
    ok, frame := Answer(server, attrs.value, body, id);
  }

  /** Writes the reply. */
  method Answer(server: Session, attrs: seq<Printed>, body: seq<Piece>, ghost id: nat)
    returns (ok: bool, ghost frame: seq<string>)
    requires server.Sound() && Printable(body)
    modifies server`status, server`reason, server`output, server`writes, server`losses
    ensures server.Sound() && Degraded(old(server.status), server.status) && old(server.output) <= server.output
    ensures Wears(old(server.Live()), old(server.Cut()), old(server.losses), server.Live(), server.Cut(), server.losses)
    ensures ok == server.Live()
    ensures ok && server.losses == old(server.losses) && Flatten(attrs) == AttrText(id) && id <= ULONG_MAX ==>
              && Answers(frame, id, body)
              && server.output == old(server.output) + Wire(server.version, frame)
  {
    ghost var before := server.output;
    var r := WriteReply(server, attrs, body);
    ok, frame := r == 0, [];
    if ok && server.losses == old(server.losses) {
      ghost var sent, text := server.output[|before|..], ReplyText(attrs, body);
      frame :| Sendable(frame) && Flatten(frame) == text && sent == Wire(server.version, frame);
    }
  }

  /** A frame list that spells an rpc which the version can carry and the XML library can read. */
  ghost predicate AsksWell(v: Version, frame: seq<string>, id: nat, rpc: seq<string>, parse: RpcParser) {
    Asks(frame, id, rpc) && Carriable(v, frame) && ReadsContent(parse, rpc)
  }

  ghost predicate Askable(v: Version, asked: seq<seq<string>>, ids: seq<nat>, rpcs: seq<seq<string>>,
                          parse: RpcParser)
  {
    |asked| == |ids| == |rpcs| && forall i :: 0 <= i < |asked| ==> AsksWell(v, asked[i], ids[i], rpcs[i], parse)
  }

  lemma NextRpcComes(v: Version, frames: seq<seq<string>>, ids: seq<nat>, rpcs: seq<seq<string>>, i: nat,
                     parse: RpcParser)
    requires i < |frames| && Askable(v, frames, ids, rpcs, parse)
    ensures RpcComes(v, WireAll(v, frames[i..]), parse, ids[i], Flatten(rpcs[i]), WireAll(v, frames[i + 1..]))
  {
    var rest, more := frames[i..], WireAll(v, frames[i + 1..]);
    assert AsksWell(v, frames[i], ids[i], rpcs[i], parse);
    assert rest[0] == frames[i] && rest[1..] == frames[i + 1..];
    FirstMessage(v, rest, "");
    assert WireAll(v, rest) + "" == WireAll(v, rest) && more + "" == more;
    WireRoundTrip(v, frames[i], more);
  }

  /** The first i rpcs are answered. */
  ghost predicate ServedSoFar(v: Version, start: string, output: string, frames: seq<seq<string>>, ids: seq<nat>,
                              bodies: seq<seq<Piece>>, i: nat) {
    i <= |ids| == |bodies| && Answered(frames, ids[..i], bodies[..i]) && output == start + WireAll(v, frames)
  }

  /** The i-th string begins with the i-th rpc, and the next one is the rest of it. */
  ghost predicate Coming(v: Version, unread: seq<string>, ids: seq<nat>, rpcs: seq<seq<string>>, parse: RpcParser) {
    && |unread| == |ids| + 1 == |rpcs| + 1
    && forall i :: 0 <= i < |ids| ==> Comes(v, unread[i], parse, ids[i], rpcs[i], unread[i + 1])
  }

  ghost predicate Comes(v: Version, pending: string, parse: RpcParser, id: nat, rpc: seq<string>, rest: string) {
    RpcComes(v, pending, parse, id, Flatten(rpc), rest)
  }

  lemma ServedOneMore(v: Version, start: string, output: string, frames: seq<seq<string>>, ids: seq<nat>,
                      bodies: seq<seq<Piece>>, i: nat, frame: seq<string>)
    requires ServedSoFar(v, start, output, frames, ids, bodies, i) && i < |ids|
    requires Answers(frame, ids[i], bodies[i])
    ensures ServedSoFar(v, start, output + Wire(v, frame), frames + [frame], ids, bodies, i + 1)
  {
    OutputSnoc(v, start, output, frames, frame);
    AnsweredSnoc(frames, ids[..i], bodies[..i], frame, ids[i], bodies[i]);
    Prefixes(ids, i);
    Prefixes(bodies, i);
  }

  lemma NothingServed(v: Version, start: string, ids: seq<nat>, bodies: seq<seq<Piece>>)
    requires |ids| == |bodies|
    ensures ServedSoFar(v, start, start, [], ids, bodies, 0)
  {
    assert start + WireAll(v, []) == start;
  }

  lemma AllServed(v: Version, start: string, output: string, frames: seq<seq<string>>, ids: seq<nat>,
                  bodies: seq<seq<Piece>>)
    requires ServedSoFar(v, start, output, frames, ids, bodies, |bodies|)
    ensures Answered(frames, ids, bodies) && output == start + WireAll(v, frames)
  {
    assert ids[..|ids|] == ids && bodies[..|bodies|] == bodies;
  }

  /** One rpc more. */
  method ServeNext(server: Session, parse: RpcParser, body: seq<Piece>, polled: Polled,
                   ghost bodies: seq<seq<Piece>>, ghost unread: seq<string>, ghost ids: seq<nat>,
                   ghost rpcs: seq<seq<string>>, ghost start: string,
                   ghost frames: seq<seq<string>>, ghost i: nat, ghost comes: bool, ghost mark: nat)
    returns (ok: bool, ghost frames': seq<seq<string>>)
    requires server.Sound() && Printable(body) && i < |bodies| && body == bodies[i] && mark <= server.losses
    requires comes ==> Coming(server.version, unread, ids, rpcs, parse) && polled.Readable? && server.attached
    requires comes && server.losses == mark && server.Live() ==>
               && ServedSoFar(server.version, start, server.output, frames, ids, bodies, i)
               && Pending(server.input) == unread[i]
    modifies server`status, server`reason, server`input, server`output, server`writes, server`losses
    ensures server.Sound() && Idles(server.input) <= Idles(old(server.input))
    ensures (old(server.Cut()) ==> server.Cut()) && old(server.losses) <= server.losses
    ensures comes && server.losses == mark && server.Live() ==>
              && ok && ServedSoFar(server.version, start, server.output, frames', ids, bodies, i + 1)
              && Pending(server.input) == unread[i + 1]
    ensures comes && server.losses == mark && old(server.Live()) && Prompt(old(server.input), READ_TIMEOUT)
            && !server.Cut() ==>
              server.Live()
  {
    ghost var v, output := server.version, server.output;
    ghost var well := comes && server.losses == mark && server.Live();
    assert well ==> Comes(v, unread[i], parse, ids[i], rpcs[i], unread[i + 1]);
    ghost var frame;
    ok, frame := ServeOne(server, parse, body, polled, if well then ids[i] else 0,
                          if well then Flatten(rpcs[i]) else "", if well then unread[i + 1] else "");
    frames' := frames + [frame];
    if well && server.losses == mark && server.Live() {
      ServedOneMore(v, start, output, frames, ids, bodies, i, frame);
    }
  }

  /**
   * Serves rpcs one after the other. If what comes in are rpcs with certain ids, the replies go out
   * in the same order with the same ids.
   */
  method ServeAll(server: Session, parse: RpcParser, bodies: seq<seq<Piece>>, polls: seq<Polled>,
                  ghost unread: seq<string>, ghost ids: seq<nat>, ghost rpcs: seq<seq<string>>)
    returns (ok: bool, ghost frames: seq<seq<string>>)
    requires server.Sound() && server.Live() && server.attached && AllPrintable(bodies)
    requires |polls| == |bodies| == |ids|
    modifies server`status, server`reason, server`input, server`output, server`writes, server`losses
    ensures server.Sound() && old(server.losses) <= server.losses
    ensures Coming(server.version, unread, ids, rpcs, parse) && Pending(old(server.input)) == unread[0]
            && AllReadable(polls) && server.losses == old(server.losses) ==>
              && (server.Live() ==>
                    ok && ServedSoFar(server.version, old(server.output), server.output, frames, ids, bodies, |bodies|))
              && (Prompt(old(server.input), READ_TIMEOUT) && !server.Cut() ==> server.Live())
  {
    ok, frames := true, [];
    ghost var v, start := server.version, server.output;
    ghost var comes := Coming(v, unread, ids, rpcs, parse) && Pending(server.input) == unread[0] && AllReadable(polls);
    NothingServed(v, start, ids, bodies);
    for i := 0 to |bodies|
      invariant ok && server.Sound() && (old(server.Cut()) ==> server.Cut()) && old(server.losses) <= server.losses
      invariant Idles(server.input) <= Idles(old(server.input))
      invariant comes && server.losses == old(server.losses) && server.Live() ==>
                  && ServedSoFar(v, start, server.output, frames, ids, bodies, i)
                  && Pending(server.input) == unread[i]
      invariant comes && server.losses == old(server.losses) && Prompt(old(server.input), READ_TIMEOUT)
                && !server.Cut() ==>
                  server.Live()
    {
      ok, frames := ServeNext(server, parse, bodies[i], polls[i], bodies, unread, ids, rpcs, start, frames, i,
                              comes, old(server.losses));
      if !ok {
        return;
      }
    }
  }

  // ---------------------------------------------------------------- the client receives

  /** The texts are the replies to these ids, with these bodies. */
  ghost predicate AllAnswers(texts: seq<string>, ids: seq<nat>, bodies: seq<seq<Piece>>) {
    && |texts| == |ids| == |bodies|
    && forall i :: 0 <= i < |texts| ==> texts[i] == AnswerText(ids[i], RenderAll(bodies[i]))
  }

  /** What nc_recv_reply() makes of the texts it reads when it asks for these ids. */
  function Kinds(texts: seq<string>, ids: seq<nat>, parse: ReplyParser): (kinds: seq<Demux.MsgType>)
    requires |texts| == |ids|
    ensures |kinds| == |ids|
  {
    seq(|ids|, i requires 0 <= i < |ids| == |texts| => KindOf(texts[i], ids[i], parse))
  }

  /** Every reply has the id asked for. */
  predicate AllMatch(kinds: seq<Demux.MsgType>, count: nat) {
    |kinds| == count && forall i :: 0 <= i < |kinds| ==> kinds[i] == Demux.GotReply
  }

  function KindOf(text: string, id: nat, parse: ReplyParser): Demux.MsgType {
    Demux.MatchingKind(Demux.ReplyMsg(parse(text), text), id)
  }

  lemma AnswerMatches(id: nat, body: string, parse: ReplyParser)
    requires id <= ULONG_MAX && ReadsReply(parse, body)
    ensures KindOf(AnswerText(id, body), id, parse) == Demux.GotReply
  {
    assert parse(AnswerText(id, body)) == Some(Decimal(id));
    assert Decimal(id) + "" == Decimal(id);
    PrintedNumberIsScanned(id, "");
  }

  /** Texts that the version can carry; in chunks all of them are. */
  ghost predicate CarriableCalls(v: Version, ids: seq<nat>, rpcs: seq<seq<string>>, bodies: seq<seq<Piece>>)
    requires |ids| == |rpcs| == |bodies|
  {
    forall i :: 0 <= i < |ids| ==> CarriableCall(v, ids[i], rpcs[i], bodies[i])
  }

  ghost predicate CarriableCall(v: Version, id: nat, rpc: seq<string>, body: seq<Piece>) {
    CarriableText(v, RpcText(id, Flatten(rpc))) && CarriableText(v, AnswerText(id, RenderAll(body)))
  }

  lemma ChunksCarryCalls(ids: seq<nat>, rpcs: seq<seq<string>>, bodies: seq<seq<Piece>>)
    requires |ids| == |rpcs| == |bodies|
    ensures CarriableCalls(V11, ids, rpcs, bodies)
  {
    forall i | 0 <= i < |ids| ensures CarriableCall(V11, ids[i], rpcs[i], bodies[i]) {
    }
  }

  lemma CarriableFrame(v: Version, frame: seq<string>, text: string)
    requires Sendable(frame) && Flatten(frame) == text && CarriableText(v, text)
    ensures Carriable(v, frame)
  {
  }

  /** The XML library can read the contents and the bodies. */
  ghost predicate Readables(parseRpc: RpcParser, parseReply: ReplyParser, rpcs: seq<seq<string>>,
                            bodies: seq<seq<Piece>>)
  {
    && (forall i :: 0 <= i < |rpcs| ==> ReadsContent(parseRpc, rpcs[i]))
    && (forall i :: 0 <= i < |bodies| ==> ReadsBody(parseReply, bodies[i]))
  }

  lemma AskedIsAskable(v: Version, asked: seq<seq<string>>, ids: seq<nat>, rpcs: seq<seq<string>>,
                       bodies: seq<seq<Piece>>, parseRpc: RpcParser, parseReply: ReplyParser)
    requires Asked(asked, ids, rpcs) && |rpcs| == |bodies| && CarriableCalls(v, ids, rpcs, bodies)
    requires Readables(parseRpc, parseReply, rpcs, bodies)
    ensures Askable(v, asked, ids, rpcs, parseRpc)
  {
    forall i | 0 <= i < |asked| ensures AsksWell(v, asked[i], ids[i], rpcs[i], parseRpc) {
      assert Asks(asked[i], ids[i], rpcs[i]) && CarriableCall(v, ids[i], rpcs[i], bodies[i]);
      CarriableFrame(v, asked[i], RpcText(ids[i], Flatten(rpcs[i])));
    }
  }

  lemma {:induction false} TextsAt(frames: seq<seq<string>>, i: nat)
    requires i < |frames|
    ensures |Texts(frames)| == |frames| && Texts(frames)[i] == Flatten(frames[i])
  {
    if |frames| > 1 { TextsAt(frames[1..], if i == 0 then 0 else i - 1); }
  }

  lemma AnsweredIsDecoded(v: Version, frames: seq<seq<string>>, ids: seq<nat>, rpcs: seq<seq<string>>,
                          bodies: seq<seq<Piece>>)
    requires Answered(frames, ids, bodies) && |rpcs| == |bodies| && CarriableCalls(v, ids, rpcs, bodies)
    ensures DecodeAll(v, WireAll(v, frames), |bodies|) == Some((Texts(frames), ""))
  {
    forall i | 0 <= i < |frames| ensures Carriable(v, frames[i]) {
      assert Answers(frames[i], ids[i], bodies[i]) && CarriableCall(v, ids[i], rpcs[i], bodies[i]);
      CarriableFrame(v, frames[i], AnswerText(ids[i], RenderAll(bodies[i])));
    }
    TrafficRoundTrip(v, frames, "");
    assert WireAll(v, frames) + "" == WireAll(v, frames);
  }

  lemma AnsweredMatches(frames: seq<seq<string>>, ids: seq<nat>, bodies: seq<seq<Piece>>, parse: ReplyParser)
    requires Answered(frames, ids, bodies)
    requires forall i :: 0 <= i < |bodies| ==> ReadsBody(parse, bodies[i])
    ensures AllAnswers(Texts(frames), ids, bodies) && AllMatch(Kinds(Texts(frames), ids, parse), |ids|)
  {
    if frames != [] { TextsAt(frames, 0); }
    forall i | 0 <= i < |ids| ensures Texts(frames)[i] == AnswerText(ids[i], RenderAll(bodies[i])) {
      TextsAt(frames, i);
      assert Answers(frames[i], ids[i], bodies[i]);
    }
    forall i | 0 <= i < |ids| ensures Kinds(Texts(frames), ids, parse)[i] == Demux.GotReply {
      TextsAt(frames, i);
      assert Answers(frames[i], ids[i], bodies[i]) && ReadsBody(parse, bodies[i]);
      AnswerMatches(ids[i], RenderAll(bodies[i]), parse);
    }
  }

  /** The client's rpcs go out. */
  method CallAll(client: Session, rpcs: seq<seq<string>>) returns (ids: seq<nat>, ghost asked: seq<seq<string>>)
    requires client.Sound() && client.Live() && client.msgid <= ULONG_MAX && Contents(rpcs)
    modifies client`status, client`reason, client`output, client`writes, client`losses, client`msgid
    ensures client.Sound() && |ids| == |asked| == |rpcs| && old(client.losses) <= client.losses
    ensures (client.Live() || client.Cut()) && (client.Live() ==> Numbered(old(client.msgid), ids))
    ensures client.Live() && client.losses == old(client.losses) ==>
              Asked(asked, ids, rpcs) && client.output == old(client.output) + WireAll(client.version, asked)
  {
    ids, asked := SendAll(client, rpcs);
    assert rpcs[..|rpcs|] == rpcs;
  }

  /** The server answers them. */
  method AnswerAll(server: Session, parse: RpcParser, bodies: seq<seq<Piece>>, polls: seq<Polled>,
                   ghost asked: seq<seq<string>>, ghost ids: seq<nat>, ghost rpcs: seq<seq<string>>)
    returns (ghost answered: seq<seq<string>>)
    requires server.Sound() && server.Live() && server.attached && AllPrintable(bodies)
    requires |polls| == |bodies| == |asked| == |ids|
    modifies server`status, server`reason, server`input, server`output, server`writes, server`losses
    ensures server.Sound() && old(server.losses) <= server.losses
    ensures Pending(old(server.input)) == WireAll(server.version, asked) && AllReadable(polls)
            && Askable(server.version, asked, ids, rpcs, parse) && server.losses == old(server.losses) ==>
              && (server.Live() ==>
                    && Answered(answered, ids, bodies)
                    && server.output == old(server.output) + WireAll(server.version, answered))
              && (Prompt(old(server.input), READ_TIMEOUT) && !server.Cut() ==> server.Live())
  {
    ghost var start := server.output;
    ghost var unread := Unread(server.version, asked);
    ComingIf(server.version, asked, ids, rpcs, parse);
    AllUnread(server.version, asked);
    var served;
    served, answered := ServeAll(server, parse, bodies, polls, unread, ids, rpcs);
    AllServedIf(server.version, start, server.output, answered, ids, bodies);
  }

  /** What is still to be read after each rpc. */
  function Unread(v: Version, asked: seq<seq<string>>): (unread: seq<string>)
    ensures |unread| == |asked| + 1
  {
    seq(|asked| + 1, i requires 0 <= i <= |asked| => WireAll(v, asked[i..]))
  }

  lemma ComesAt(v: Version, asked: seq<seq<string>>, ids: seq<nat>, rpcs: seq<seq<string>>, i: nat, parse: RpcParser)
    requires i < |asked| && Askable(v, asked, ids, rpcs, parse)
    ensures Comes(v, Unread(v, asked)[i], parse, ids[i], rpcs[i], Unread(v, asked)[i + 1])
  {
    NextRpcComes(v, asked, ids, rpcs, i, parse);
    assert Unread(v, asked)[i] == WireAll(v, asked[i..]) && Unread(v, asked)[i + 1] == WireAll(v, asked[i + 1..]);
  }

  lemma ComingIf(v: Version, asked: seq<seq<string>>, ids: seq<nat>, rpcs: seq<seq<string>>, parse: RpcParser)
    ensures Askable(v, asked, ids, rpcs, parse) ==> Coming(v, Unread(v, asked), ids, rpcs, parse)
  {
    var unread := Unread(v, asked);
    if Askable(v, asked, ids, rpcs, parse) {
      forall i | 0 <= i < |ids| ensures Comes(v, unread[i], parse, ids[i], rpcs[i], unread[i + 1]) {
        ComesAt(v, asked, ids, rpcs, i, parse);
      }
    }
  }

  lemma AllUnread(v: Version, asked: seq<seq<string>>)
    ensures Unread(v, asked)[0] == WireAll(v, asked)
  {
    assert asked[0..] == asked;
  }

  lemma AllServedIf(v: Version, start: string, output: string, frames: seq<seq<string>>, ids: seq<nat>,
                    bodies: seq<seq<Piece>>)
    ensures ServedSoFar(v, start, output, frames, ids, bodies, |bodies|) ==>
              Answered(frames, ids, bodies) && output == start + WireAll(v, frames)
  {
    if ServedSoFar(v, start, output, frames, ids, bodies, |bodies|) {
      AllServed(v, start, output, frames, ids, bodies);
    }
  }

  /** The replies come in that spell answers to these ids. */
  ghost predicate RepliesCome(v: Version, pending: string, answered: seq<seq<string>>, ids: seq<nat>,
                              rpcs: seq<seq<string>>, bodies: seq<seq<Piece>>, parse: ReplyParser) {
    && pending == WireAll(v, answered) && Answered(answered, ids, bodies)
    && |ids| == |rpcs| == |bodies| && CarriableCalls(v, ids, rpcs, bodies)
    && forall i :: 0 <= i < |bodies| ==> ReadsBody(parse, bodies[i])
  }

  lemma RepliesMatch(v: Version, pending: string, answered: seq<seq<string>>, ids: seq<nat>,
                     rpcs: seq<seq<string>>, bodies: seq<seq<Piece>>, parse: ReplyParser)
    ensures RepliesCome(v, pending, answered, ids, rpcs, bodies, parse) ==>
              && DecodeAll(v, pending, |ids|) == Some((Texts(answered), "")) && AllAnswers(Texts(answered), ids, bodies)
              && AllMatch(Kinds(Texts(answered), ids, parse), |ids|)
  {
    if RepliesCome(v, pending, answered, ids, rpcs, bodies, parse) {
      AnsweredIsDecoded(v, answered, ids, rpcs, bodies);
      AnsweredMatches(answered, ids, bodies, parse);
    }
  }

  /** The client reads the replies. */
  method ReceiveAll(client: Session, parse: ReplyParser, ids: seq<nat>, polls: seq<Polled>,
                    ghost answered: seq<seq<string>>, ghost rpcs: seq<seq<string>>, ghost bodies: seq<seq<Piece>>,
                    ghost come: bool)
    returns (texts: seq<string>, kinds: seq<Demux.MsgType>)
    requires client.Sound() && |polls| == |ids|
    requires come ==> RepliesCome(client.version, Pending(client.input), answered, ids, rpcs, bodies, parse)
    modifies client`status, client`reason, client`input
    ensures client.Sound() && Degraded(old(client.status), client.status)
    ensures come && AllReadable(polls) && old(client.Live()) && client.attached
            && (Prompt(old(client.input), READ_TIMEOUT) || client.Live()) ==>
              client.Live() && AllMatch(kinds, |ids|) && AllAnswers(texts, ids, bodies)
  {
    RepliesMatch(client.version, Pending(client.input), answered, ids, rpcs, bodies, parse);
    var ok;
    ok, texts := ReadAll(client, polls);
    kinds := if |texts| == |ids| then Kinds(texts, ids, parse) else [];
  }

  /** Two running sessions with the same version. */
  ghost predicate Connected(client: Session, server: Session)
    reads client, server
  {
    && client != server && client.Sound() && server.Sound() && client.Live() && server.Live()
    && client.attached && server.attached && client.version == server.version && client.msgid <= ULONG_MAX
  }

  /**
   * A client sends any number of rpcs, a server reads and answers them one by one, and the client
   * reads the replies in the order of sending. If what each end writes is what comes in at the
   * other, in whatever pieces, the id the client asks for is each time the one in the bytes it
   * reads, and the reply is the one to that rpc, unless a transport fails; and none does if the
   * bytes come promptly, every write call takes all its bytes, and writing is not cut off.
   */
  method RpcsAreAnswered(client: Session, server: Session, parseRpc: RpcParser, parseReply: ReplyParser,
                         rpcs: seq<seq<string>>, bodies: seq<seq<Piece>>,
                         serverPolls: seq<Polled>, clientPolls: seq<Polled>)
    returns (ids: seq<nat>, texts: seq<string>, kinds: seq<Demux.MsgType>)
    requires Connected(client, server) && Contents(rpcs) && AllPrintable(bodies)
    requires |rpcs| == |bodies| == |serverPolls| == |clientPolls|
    requires Readables(parseRpc, parseReply, rpcs, bodies)
    modifies client, server
    ensures |ids| == |rpcs|
    ensures Carried(Pending(old(server.input)), old(client.output), client.output)
            && Carried(Pending(old(client.input)), old(server.output), server.output)
            && client.losses == old(client.losses) && server.losses == old(server.losses)
            && AllReadable(serverPolls) && AllReadable(clientPolls)
            && CarriableCalls(client.version, ids, rpcs, bodies) ==>
              && (client.Live() && server.Live() ==>
                    Numbered(old(client.msgid), ids) && AllMatch(kinds, |rpcs|) && AllAnswers(texts, ids, bodies))
              && (Prompt(old(client.input), READ_TIMEOUT) && Prompt(old(server.input), READ_TIMEOUT)
                  && !client.Cut() && !server.Cut() ==>
                    client.Live() && server.Live())
  {
    ghost var answered, come;
    ids, answered, come := CallAndAnswer(client, server, parseRpc, parseReply, rpcs, bodies, serverPolls);
    texts, kinds := ReceiveAll(client, parseReply, ids, clientPolls, answered, rpcs, bodies, come);
  }

  /** The first half: the rpcs go out and are answered. */
  method CallAndAnswer(client: Session, server: Session, parseRpc: RpcParser, parseReply: ReplyParser,
                       rpcs: seq<seq<string>>, bodies: seq<seq<Piece>>, polls: seq<Polled>)
    returns (ids: seq<nat>, ghost answered: seq<seq<string>>, ghost come: bool)
    requires Connected(client, server) && Contents(rpcs) && AllPrintable(bodies) && |rpcs| == |bodies| == |polls|
    requires Readables(parseRpc, parseReply, rpcs, bodies)
    modifies client`status, client`reason, client`output, client`writes, client`losses, client`msgid
    modifies server`status, server`reason, server`input, server`output, server`writes, server`losses
    ensures client.Sound() && |ids| == |rpcs| && (client.Live() || client.Cut())
    ensures client.Live() ==> Numbered(old(client.msgid), ids)
    ensures come ==> RepliesCome(client.version, Pending(client.input), answered, ids, rpcs, bodies, parseReply)
    ensures Carried(Pending(old(server.input)), old(client.output), client.output)
            && Carried(Pending(client.input), old(server.output), server.output)
            && client.losses == old(client.losses) && server.losses == old(server.losses)
            && client.Live() && AllReadable(polls) && CarriableCalls(client.version, ids, rpcs, bodies) ==>
              && (server.Live() ==> come)
              && (Prompt(old(server.input), READ_TIMEOUT) && !server.Cut() ==> server.Live())
  {
    ghost var asked;
    ghost var v, start := client.version, client.output;
    ids, asked := CallAll(client, rpcs);
    AskableIf(v, asked, ids, rpcs, bodies, parseRpc, parseReply);
    CarriedIs(Pending(server.input), start, client.output, WireAll(v, asked));
    ghost var sstart := server.output;
    answered := AnswerAll(server, parseRpc, bodies, polls, asked, ids, rpcs);
    RepliesComeIf(v, Pending(client.input), sstart, server.output, answered, ids, rpcs, bodies, parseRpc, parseReply);
    come := RepliesCome(v, Pending(client.input), answered, ids, rpcs, bodies, parseReply);
  }

  lemma CarriedIs(pending: string, start: string, now: string, bytes: string)
    ensures Carried(pending, start, now) && now == start + bytes ==> pending == bytes
  {
  }

  lemma RepliesComeIf(v: Version, pending: string, start: string, now: string, answered: seq<seq<string>>,
                      ids: seq<nat>, rpcs: seq<seq<string>>, bodies: seq<seq<Piece>>,
                      parseRpc: RpcParser, parseReply: ReplyParser)
    requires |ids| == |rpcs| == |bodies| && Readables(parseRpc, parseReply, rpcs, bodies)
    ensures Carried(pending, start, now) && now == start + WireAll(v, answered)
            && Answered(answered, ids, bodies) && CarriableCalls(v, ids, rpcs, bodies) ==>
              RepliesCome(v, pending, answered, ids, rpcs, bodies, parseReply)
  {
    CarriedIs(pending, start, now, WireAll(v, answered));
  }

  lemma AskableIf(v: Version, asked: seq<seq<string>>, ids: seq<nat>, rpcs: seq<seq<string>>,
                  bodies: seq<seq<Piece>>, parseRpc: RpcParser, parseReply: ReplyParser)
    requires |ids| == |rpcs| == |bodies| && Readables(parseRpc, parseReply, rpcs, bodies)
    ensures Asked(asked, ids, rpcs) && CarriableCalls(v, ids, rpcs, bodies) ==> Askable(v, asked, ids, rpcs, parseRpc)
  {
    if Asked(asked, ids, rpcs) && CarriableCalls(v, ids, rpcs, bodies) {
      AskedIsAskable(v, asked, ids, rpcs, bodies, parseRpc, parseReply);
    }
  }
}
