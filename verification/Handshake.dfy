/**
 * The hello exchange: capability parsing, version choice (section 8.1 of RFC 6241), and what
 * follows for two sessions of this library. The XML parser is a parameter.
 */
module Handshake {
  import opened Text
  import opened Framing
  import opened SessionState
  import opened Transport
  import opened Escaping
  import opened Receiver
  import opened Messages

  const BASE_10 := "urn:ietf:params:netconf:base:1.0"
  const BASE_11 := "urn:ietf:params:netconf:base:1.1"

  datatype Elem = Elem(name: string, ns: Option<string>, content: string)
  datatype Node = Node(name: string, ns: Option<string>, content: string, children: seq<Elem>)

  // ---------------------------------------------------------------- capabilities

  /** The highest base version advertised, -1 if there is none. */
  function Highest(capabilities: seq<string>): int {
    if BASE_11 in capabilities then 1 else if BASE_10 in capabilities then 0 else -1
  }

  function AsVersion(ver: int): Version {
    if ver == 1 then V11 else V10
  }

  predicate Unexpected(elems: seq<Elem>) {
    exists i :: 0 <= i < |elems| && elems[i].ns == Some(NS_BASE) && elems[i].name != "capability"
  }

  /** The contents of the elements in the base namespace. */
  function BaseContents(elems: seq<Elem>): seq<string> {
    if elems == [] then [] else
    var last := elems[|elems| - 1];
    BaseContents(elems[..|elems| - 1]) + if last.ns == Some(NS_BASE) then [last.content] else []
  }

  /** The version is the highest one advertised, in whatever order and however often. */
  method ParseCapabilities(elems: seq<Elem>) returns (ver: int, list: seq<string>)
    ensures Unexpected(elems) ==> ver == -1
    ensures !Unexpected(elems) ==> list == BaseContents(elems) && ver == Highest(list)
  {
    ver, list := -1, [];
    assert elems[..0] == [];
    for i := 0 to |elems|
      invariant forall j :: 0 <= j < i ==> elems[j].ns == Some(NS_BASE) ==> elems[j].name == "capability"
      invariant list == BaseContents(elems[..i]) && ver == Highest(list)
    {
      assert elems[..i + 1][..i] == elems[..i];
      var cpblt := elems[i];
      if cpblt.name != "capability" && cpblt.ns == Some(NS_BASE) {
        return -1, list;
      }
      if cpblt.ns == Some(NS_BASE) {
        if ver < 0 && cpblt.content == BASE_10 {
          ver := 0;
        } else if ver < 1 && cpblt.content == BASE_11 {
          ver := 1;
        }
        list := list + [cpblt.content];
      }
    }
    assert elems[..|elems|] == elems;
  }

  // ---------------------------------------------------------------- hello

  datatype HelloResult = HelloOk | BadHelloMsg | HelloError | HelloWouldBlock

  /** strtoll() of the whole content, within 1 .. UINT32_MAX. */
  function SessionId(content: string): Option<nat> {
    var t := SkipSpace(content);
    var u := if t != "" && (t[0] == '-' || t[0] == '+') then t[1..] else t;
    var (negative, magnitude) := ScanNumber(content);
    if u != "" && AllDigits(u) && !negative && 1 <= magnitude <= 0xFFFF_FFFF then Some(magnitude) else None
  }

  /**
   * For every content, split into white space, a sign, digits and the rest: a session-id is read if and
   * only if there are digits and nothing behind them, the sign is not a minus, and the number is from
   * 1 to 2^32 - 1; it is then that number.
   */
  lemma SessionIdIff(space: string, sign: string, digits: string, rest: string)
    requires forall i :: 0 <= i < |space| ==> IsSpace(space[i])
    requires sign == "" || sign == "+" || sign == "-"
    requires AllDigits(digits) && (rest == "" || !IsDigit(rest[0]))
    requires sign == "" && digits == "" && rest != "" ==> !IsSpace(rest[0]) && rest[0] != '+' && rest[0] != '-'
    ensures SessionId(space + (sign + (digits + rest))) ==
              if digits != "" && rest == "" && sign != "-" && 1 <= DigitsValue(digits) <= 0xFFFF_FFFF
              then Some(DigitsValue(digits)) else None
  {
    var tail := digits + rest;
    SpaceIsSkipped(space, sign + tail);
    SignIsDropped(sign, tail);
    LeadingDigitsAre(digits, rest);
    assert rest != "" ==> tail[|digits|] == rest[0];
    assert rest == "" ==> tail == digits;
  }

  lemma SignIsDropped(sign: string, tail: string)
    requires sign == "" || sign == "+" || sign == "-"
    requires sign == "" && tail != "" ==> !IsSpace(tail[0]) && tail[0] != '+' && tail[0] != '-'
    ensures var s := sign + tail;
            && SkipSpace(s) == s
            && (s != "" && (s[0] == '-' || s[0] == '+') <==> sign != "")
            && (sign != "" ==> s[0] == sign[0] && s[1..] == tail) && (sign == "" ==> s == tail)
  {
    var s := sign + tail;
    if sign == "" {
      assert s == tail;
    } else {
      assert s[0] == sign[0] && s[1..] == tail;
    }
  }

  predicate IsBase(n: Node) { n.ns == Some(NS_BASE) }
  predicate IsCapabilities(n: Node) { IsBase(n) && n.name == "capabilities" }
  predicate IsSessionId(n: Node) { IsBase(n) && n.name == "session-id" }

  /** What one child of a hello must be on its own. */
  predicate GoodNode(client: bool, n: Node) {
    && (IsBase(n) ==> n.name == "capabilities" || (client && n.name == "session-id"))
    && (IsCapabilities(n) ==> !Unexpected(n.children) && Highest(BaseContents(n.children)) >= 0)
    && (IsSessionId(n) && client ==> SessionId(n.content).Some?)
  }

  /** Good children, at most one of them the capabilities. */
  predicate GoodNodes(client: bool, nodes: seq<Node>) {
    if nodes == [] then true else
    var init, last := nodes[..|nodes| - 1], nodes[|nodes| - 1];
    GoodNodes(client, init) && GoodNode(client, last) && !(IsCapabilities(last) && Advertised(init).Some?)
  }

  /** The advertised capabilities, if any. */
  function Advertised(nodes: seq<Node>): Option<seq<string>> {
    if nodes == [] then None else
    var init, last := nodes[..|nodes| - 1], nodes[|nodes| - 1];
    if IsCapabilities(last) then Some(BaseContents(last.children)) else Advertised(init)
  }

  /** The session-id given last, if any. */
  function GivenId(nodes: seq<Node>): Option<nat> {
    if nodes == [] then None else
    var init, last := nodes[..|nodes| - 1], nodes[|nodes| - 1];
    if IsSessionId(last) then SessionId(last.content) else GivenId(init)
  }

  /** One child of a hello; `seen` says whether the capabilities came before. */
  method ReceiveNode(session: Session, client: bool, node: Node, seen: bool) returns (ok: bool)
    modifies session`version, session`cpblts, session`id
    ensures ok <==> GoodNode(client, node) && !(IsCapabilities(node) && seen)
    ensures session.version == if ok && IsCapabilities(node)
                               then AsVersion(Highest(BaseContents(node.children))) else old(session.version)
    ensures ok ==> session.cpblts == if IsCapabilities(node) && client
                                     then BaseContents(node.children) else old(session.cpblts)
    ensures session.id == if ok && IsSessionId(node) && client
                          then SessionId(node.content).value else old(session.id)
  {
    if !IsBase(node) {
      return true;
    }
    if client && node.name == "session-id" {
      var id := SessionId(node.content);
      if id.None? {
        return false;
      }
      session.id := id.value;
      return true;
    }
    if node.name != "capabilities" || seen {
      return false;
    }
    var ver, list := ParseCapabilities(node.children);
    if client {
      session.cpblts := list;
    }
    if ver < 0 {
      return false;
    }
    session.version := AsVersion(ver);
    return true;
  }

  /**
   * The peer's hello: on the client that of the server, on the server that of the client. It is
   * accepted exactly when its children are good and, on the client, a session-id is known; the
   * version is then the highest one the peer advertised.
   */
  method ReceiveHello(session: Session, client: bool, nodes: seq<Node>) returns (r: HelloResult)
    modifies session`version, session`cpblts, session`id
    ensures r == HelloOk <==>
              GoodNodes(client, nodes) && (client ==> old(session.id) != 0 || GivenId(nodes).Some?)
    ensures r == HelloOk ==>
              session.version == if Advertised(nodes).Some? then AsVersion(Highest(Advertised(nodes).value))
                                 else old(session.version)
    ensures r == HelloOk && client ==>
              session.cpblts == if Advertised(nodes).Some? then Advertised(nodes).value else old(session.cpblts)
    ensures r == HelloOk ==>
              session.id == if client && GivenId(nodes).Some? then GivenId(nodes).value else old(session.id)
    ensures r != HelloOk ==> r == if client then HelloError else BadHelloMsg
  {
    var bad := if client then HelloError else BadHelloMsg;
    var flag := false;
    assert nodes[..0] == [];
    for i := 0 to |nodes|
      invariant GoodNodes(client, nodes[..i])
      invariant flag == Advertised(nodes[..i]).Some?
      invariant session.version == if flag then AsVersion(Highest(Advertised(nodes[..i]).value))
                                   else old(session.version)
      invariant client ==> session.cpblts == if flag then Advertised(nodes[..i]).value else old(session.cpblts)
      invariant session.id == if client && GivenId(nodes[..i]).Some? then GivenId(nodes[..i]).value else old(session.id)
      invariant client && GivenId(nodes[..i]).Some? ==> GivenId(nodes[..i]).value > 0
    {
      assert nodes[..i + 1][..i] == nodes[..i];
      var ok := ReceiveNode(session, client, nodes[i], flag);
      if !ok {
        BadPrefix(client, nodes, i + 1);
        return bad;
      }
      flag := flag || IsCapabilities(nodes[i]);
    }
    assert nodes[..|nodes|] == nodes;
    if client && session.id == 0 {
      return bad;
    }
    return HelloOk;
  }

  lemma {:induction false} BadPrefix(client: bool, nodes: seq<Node>, n: nat)
    requires n <= |nodes| && !GoodNodes(client, nodes[..n])
    ensures !GoodNodes(client, nodes)
  {
    if n == |nodes| {
      assert nodes[..n] == nodes;
    } else {
      var init := nodes[..|nodes| - 1];
      assert init[..n] == nodes[..n];
      BadPrefix(client, init, n);
    }
  }

  // ---------------------------------------------------------------- hello text as XML

  function CapabilityElems(capabilities: seq<string>): (elems: seq<Elem>)
    ensures !Unexpected(elems)
  {
    if capabilities == [] then [] else
    var last := |capabilities| - 1;
    CapabilityElems(capabilities[..last]) + [Elem("capability", Some(NS_BASE), capabilities[last])]
  }

  lemma {:induction false} CapabilityElemsContents(capabilities: seq<string>)
    ensures BaseContents(CapabilityElems(capabilities)) == capabilities
  {
    if capabilities != [] {
      var init := capabilities[..|capabilities| - 1];
      CapabilityElemsContents(init);
      var elems := CapabilityElems(capabilities);
      assert elems[..|elems| - 1] == CapabilityElems(init);
      assert capabilities == init + [capabilities[|capabilities| - 1]];
    }
  }

  /** The element tree of a hello text. */
  function HelloNodes(capabilities: seq<string>, sid: Option<nat>): seq<Node> {
    var caps := [Node("capabilities", Some(NS_BASE), "", CapabilityElems(capabilities))];
    if sid.Some? then caps + [Node("session-id", Some(NS_BASE), Decimal(sid.value), [])] else caps
  }

  type Parser = string -> Option<seq<Node>>

  /** What is expected of the XML library. */
  ghost predicate ReadsHellos(parse: Parser) {
    forall capabilities, sid :: parse(HelloText(capabilities, sid)) == Some(HelloNodes(capabilities, sid))
  }

  // A small reference reader shows that the expectation can be met: the text determines the tree.

  const CAPABILITY := "<capability>"
  const CAPABILITY_END := "</capability>"
  const ID_START := "</capabilities><session-id>"

  function ReadCapabilities(s: string): (seq<string>, string) {
    if !(CAPABILITY <= s) then ([], s) else
    var body := s[|CAPABILITY|..];
    match Find(body, CAPABILITY_END)
    case None => ([], s)
    case Some(k) =>
      var (more, rest) := ReadCapabilities(body[k + |CAPABILITY_END|..]);
      ([Unescape(body[..k])] + more, rest)
  }

  function ReferenceParse(text: string): Option<seq<Node>> {
    if !(HELLO_START <= text) then None else
    var (capabilities, rest) := ReadCapabilities(text[|HELLO_START|..]);
    var caps := [Node("capabilities", Some(NS_BASE), "", CapabilityElems(capabilities))];
    if ID_START <= rest
    then Some(caps + [Node("session-id", Some(NS_BASE), LeadingDigits(rest[|ID_START|..]), [])])
    else Some(caps)
  }

  lemma {:induction false} CapabilityTextsFront(capabilities: seq<string>)
    requires capabilities != []
    ensures CapabilityTexts(capabilities) == CapabilityText(capabilities[0]) + CapabilityTexts(capabilities[1..])
  {
    var n := |capabilities| - 1;
    if n == 0 {
      assert capabilities[..0] == [] && capabilities[1..] == [];
    } else {
      var middle := capabilities[1..n];
      assert capabilities[1..][..n - 1] == middle && capabilities[..n][1..] == middle;
      CapabilityTextsFront(capabilities[..n]);
      ConcatAssoc(CapabilityText(capabilities[0]), CapabilityTexts(middle), CapabilityText(capabilities[n]));
    }
  }

  lemma ReadsOneCapability(c: string, after: string)
    ensures ReadCapabilities(CapabilityText(c) + after)
         == ([c] + ReadCapabilities(after).0, ReadCapabilities(after).1)
  {
    FourParts(CAPABILITY, Escape(c), CAPABILITY_END, after);
    EscapedHasNoMarkup(c);
    FindAfter(Escape(c), CAPABILITY_END, after);
    EscapeRoundTrip(c);
  }

  lemma FourParts(a: string, b: string, c: string, d: string)
    ensures a <= a + b + c + d && (a + b + c + d)[|a|..] == b + c + d
    ensures (b + c + d)[..|b|] == b && (b + c + d)[|b| + |c|..] == d
  {
    assert a + b + c + d == a + (b + c + d);
  }

  /** What is read from this text are these capabilities, and this remains. */
  ghost predicate ReadsAs(s: string, capabilities: seq<string>, after: string) {
    ReadCapabilities(s) == (capabilities, after)
  }

  lemma ReadsOneMore(capabilities: seq<string>, more: string, after: string)
    requires capabilities != [] && ReadsAs(more, capabilities[1..], after)
    ensures ReadsAs(CapabilityText(capabilities[0]) + more, capabilities, after)
  {
    ReadsOneCapability(capabilities[0], more);
    assert [capabilities[0]] + capabilities[1..] == capabilities;
  }

  lemma ReadsNoMore(after: string)
    requires !(CAPABILITY <= after)
    ensures ReadsAs(CapabilityTexts([]) + after, [], after)
  {
    assert "" + after == after;
  }

  lemma FirstCapabilityText(capabilities: seq<string>, after: string)
    requires capabilities != []
    ensures CapabilityTexts(capabilities) + after
         == CapabilityText(capabilities[0]) + (CapabilityTexts(capabilities[1..]) + after)
  {
    CapabilityTextsFront(capabilities);
    ConcatAssoc(CapabilityText(capabilities[0]), CapabilityTexts(capabilities[1..]), after);
  }

  lemma {:induction false} ReadsAllCapabilities(capabilities: seq<string>, after: string)
    requires !(CAPABILITY <= after)
    ensures ReadsAs(CapabilityTexts(capabilities) + after, capabilities, after)
    decreases |capabilities|
  {
    if capabilities == [] {
      ReadsNoMore(after);
    } else {
      ReadsAllCapabilities(capabilities[1..], after);
      ReadsOneMore(capabilities, CapabilityTexts(capabilities[1..]) + after, after);
      FirstCapabilityText(capabilities, after);
    }
  }

  lemma HelloEndShape(sid: Option<nat>)
    ensures !(CAPABILITY <= HelloEnd(sid))
    ensures sid.Some? <==> ID_START <= HelloEnd(sid)
    ensures sid.Some? ==> LeadingDigits(HelloEnd(sid)[|ID_START|..]) == Decimal(sid.value)
  {
    assert HelloEnd(sid)[1] == '/' && CAPABILITY[1] == 'c';
    HelloEndId(sid);
  }

  lemma HelloEndId(sid: Option<nat>)
    ensures sid.Some? <==> ID_START <= HelloEnd(sid)
    ensures sid.Some? ==> LeadingDigits(HelloEnd(sid)[|ID_START|..]) == Decimal(sid.value)
  {
    if sid.Some? {
      var close := "</session-id></hello>";
      assert HelloEnd(sid)[|ID_START|..] == Decimal(sid.value) + close;
      LeadingDigitsAre(Decimal(sid.value), close);
    } else {
      assert |HelloEnd(sid)| < |ID_START|;
    }
  }

  /** A hello text determines its capabilities and its session-id. */
  lemma HelloTextIsReadable(capabilities: seq<string>, sid: Option<nat>)
    ensures ReferenceParse(HelloText(capabilities, sid)) == Some(HelloNodes(capabilities, sid))
  {
    var text := HelloText(capabilities, sid);
    HelloIsSplit(capabilities, sid);
    HelloEndShape(sid);
    ReadsAllCapabilities(capabilities, HelloEnd(sid));
  }

  lemma HelloIsSplit(capabilities: seq<string>, sid: Option<nat>)
    ensures HELLO_START <= HelloText(capabilities, sid)
    ensures HelloText(capabilities, sid)[|HELLO_START|..] == CapabilityTexts(capabilities) + HelloEnd(sid)
  {
    ConcatAssoc(HELLO_START, CapabilityTexts(capabilities), HelloEnd(sid));
  }

  /** The expectation on the XML library can be met. */
  lemma SomeParserReadsHellos()
    ensures ReadsHellos(ReferenceParse)
  {
    forall capabilities, sid
      ensures ReferenceParse(HelloText(capabilities, sid)) == Some(HelloNodes(capabilities, sid))
    {
      HelloTextIsReadable(capabilities, sid);
    }
  }

  // ---------------------------------------------------------------- the exchange

  lemma NodesSnoc(client: bool, init: seq<Node>, last: Node)
    ensures GoodNodes(client, init + [last]) <==>
              GoodNodes(client, init) && GoodNode(client, last) && !(IsCapabilities(last) && Advertised(init).Some?)
    ensures Advertised(init + [last]) ==
              if IsCapabilities(last) then Some(BaseContents(last.children)) else Advertised(init)
    ensures GivenId(init + [last]) == if IsSessionId(last) then SessionId(last.content) else GivenId(init)
  {
    assert (init + [last])[..|init|] == init;
  }

  /** The processing of a well-formed hello. */
  lemma HelloNodesAreGood(client: bool, capabilities: seq<string>, sid: Option<nat>)
    requires AcceptablePeer(client, capabilities, sid)
    ensures GoodNodes(client, HelloNodes(capabilities, sid))
    ensures Advertised(HelloNodes(capabilities, sid)) == Some(capabilities)
    ensures GivenId(HelloNodes(capabilities, sid)) == sid
  {
    CapabilityElemsContents(capabilities);
    var caps := Node("capabilities", Some(NS_BASE), "", CapabilityElems(capabilities));
    NodesSnoc(client, [], caps);
    assert [] + [caps] == [caps];
    if sid.Some? {
      PrintedIdIsScanned(sid.value);
      NodesSnoc(client, [caps], Node("session-id", Some(NS_BASE), Decimal(sid.value), []));
    }
  }

  lemma PrintedIdIsScanned(n: nat)
    requires 1 <= n <= 0xFFFF_FFFF
    ensures SessionId(Decimal(n)) == Some(n)
  {
    var s := Decimal(n);
    assert s + "" == s && IsDigit(s[0]);
    assert SkipSpace(s) == s;
    ScanDigits(s, "");
    DecimalValue(n);
  }

  /** A peer with a base version, and with a session-id if it is the server. */
  ghost predicate AcceptablePeer(client: bool, peer: seq<string>, peerId: Option<nat>) {
    Highest(peer) >= 0 && client == peerId.Some? && (client ==> 1 <= peerId.value <= 0xFFFF_FFFF)
  }

  /** All that was sent since then is one hello. */
  ghost predicate Said(before: string, now: string, own: seq<string>, sid: Option<nat>) {
    before <= now && now[|before|..] == HelloText(own, sid) + END_TAG
  }

  /** The peer sent the acceptable hello of a list of capabilities, followed by later bytes. */
  ghost predicate PeerSent(pending: string, client: bool, peer: seq<string>, peerId: Option<nat>, later: string) {
    && pending == HelloText(peer, peerId) + END_TAG + later
    && |HelloText(peer, peerId)| + 6 <= INT_MAX
    && AcceptablePeer(client, peer, peerId)
  }

  /** The pending bytes decode as an acceptable hello, followed by later bytes. */
  ghost predicate HelloComes(pending: string, client: bool, peer: seq<string>, peerId: Option<nat>, later: string) {
    Decode(V10, pending) == Message(HelloText(peer, peerId), later) && AcceptablePeer(client, peer, peerId)
  }

  lemma PeerHelloIsDecoded(pending: string, client: bool, peer: seq<string>, peerId: Option<nat>, later: string)
    ensures PeerSent(pending, client, peer, peerId, later) ==> HelloComes(pending, client, peer, peerId, later)
  {
    HelloIsTagFree(peer, peerId);
    TaggedRoundTrip(HelloText(peer, peerId), later);
  }

  /** Reads and processes the peer's hello. */
  method AwaitHello(session: Session, client: bool, parse: Parser, polled: Polled,
                    ghost peer: seq<string>, ghost peerId: Option<nat>, ghost later: string)
    returns (r: HelloResult)
    requires session.Sound() && session.version == V10
    modifies session`status, session`reason, session`input, session`version, session`cpblts, session`id
    ensures session.Sound() && Degraded(old(session.status), session.status)
    ensures Idles(session.input) <= Idles(old(session.input))
    ensures r == HelloOk ==> session.status == old(session.status)
    ensures polled.HungUp? && old(session.Live()) && session.attached ==>
              session.status == Invalid && session.input == old(session.input)
    ensures HelloComes(Pending(old(session.input)), client, peer, peerId, later) && polled.Readable?
            && old(session.Live()) && session.attached && Prompt(old(session.input), READ_TIMEOUT) ==>
              session.Live()
    ensures ReadsHellos(parse) && HelloComes(Pending(old(session.input)), client, peer, peerId, later)
            && polled.Readable? && old(session.Live()) && session.Live() && session.attached ==>
              && r == HelloOk && Pending(session.input) == later
              && Learned(session.version, session.id, session.cpblts, client, peer, peerId)
  {
    var m := PollMessage(session, polled);
    if !m.Text? {
      return if m.Nothing? then HelloWouldBlock else HelloError;
    }
    r := TakeHello(session, client, parse, m.text, peer, peerId);
  }

  /** A hello of the peer's capabilities is accepted and remembered. */
  method TakeHello(session: Session, client: bool, parse: Parser, text: string,
                   ghost peer: seq<string>, ghost peerId: Option<nat>)
    returns (r: HelloResult)
    modifies session`version, session`cpblts, session`id
    ensures ReadsHellos(parse) && text == HelloText(peer, peerId) && AcceptablePeer(client, peer, peerId) ==>
              r == HelloOk && Learned(session.version, session.id, session.cpblts, client, peer, peerId)
  {
    var nodes := parse(text);
    if nodes.None? {
      return HelloError;
    }
    if AcceptablePeer(client, peer, peerId) {
      HelloNodesAreGood(client, peer, peerId);
    }
    r := ReceiveHello(session, client, nodes.value);
  }

  // ---------------------------------------------------------------- version choice

  /** nc_send_client_hello(): just the base versions. */
  const CLIENT_CAPABILITIES := [BASE_10, BASE_11]

  /** nc_server_get_cpblts(): both base versions, then whatever the context offers. */
  function ServerCapabilities(extra: seq<string>): seq<string> {
    [BASE_10, BASE_11] + extra
  }

  /** What an end of this library advertises. */
  function Offer(client: bool, extra: seq<string>): seq<string> {
    if client then CLIENT_CAPABILITIES else ServerCapabilities(extra)
  }

  /** The highest base version in both lists. */
  function Common(a: seq<string>, b: seq<string>): int {
    if BASE_11 in a && BASE_11 in b then 1 else if BASE_10 in a && BASE_10 in b then 0 else -1
  }

  /**
   * An end of this library, which looks at the peer's list only, takes the highest version of both
   * lists, whatever the peer advertises.
   */
  lemma HighestIsCommon(client: bool, extra: seq<string>, peer: seq<string>)
    ensures Highest(peer) == Common(Offer(client, extra), peer)
  {
    assert Offer(client, extra)[0] == BASE_10 && Offer(client, extra)[1] == BASE_11;
  }

  // ---------------------------------------------------------------- the exchange

  /** The session-id in the own hello: a server gives one. */
  function OwnId(client: bool, id: nat): Option<nat> {
    if client then None else Some(id)
  }

  /** Sends the own hello. */
  method SayHello(session: Session, own: seq<string>, ownId: Option<nat>) returns (w: int)
    requires session.Sound() && session.status == Starting && session.version == V10
    requires ownId.Some? ==> ownId.value < 0x1_0000_0000
    modifies session`status, session`reason, session`output, session`writes, session`losses
    ensures session.Sound() && old(session.output) <= session.output
    ensures if w == 0 then session.status == Starting else session.status == Invalid && session.Cut()
    ensures (old(session.Cut()) ==> session.Cut()) && old(session.losses) <= session.losses
    ensures w == 0 && session.losses == old(session.losses) ==> Said(old(session.output), session.output, own, ownId)
  {
    w := WriteHello(session, own, ownId);
    if w == 0 && session.losses == old(session.losses) {
      HelloOnTheWire(session.output[|old(session.output)|..], own, ownId);
    }
  }

  /** Version, id and capabilities are what the peer's hello says. */
  ghost predicate Learned(version: Version, id: nat, cpblts: seq<string>,
                          client: bool, peer: seq<string>, peerId: Option<nat>) {
    version == AsVersion(Highest(peer)) && (client ==> peerId == Some(id) && cpblts == peer)
  }

  /** nc_handshake(), with the session marked running on success. */
  method ExchangeHellos(session: Session, client: bool, own: seq<string>, ownId: Option<nat>, parse: Parser,
                        polled: Polled, ghost peer: seq<string>, ghost peerId: Option<nat>, ghost later: string)
    returns (r: HelloResult)
    requires session.Sound() && session.status == Starting && session.version == V10
    requires ownId.Some? ==> ownId.value < 0x1_0000_0000
    modifies session`status, session`reason, session`input, session`output, session`writes, session`losses
    modifies session`version, session`cpblts, session`id
    ensures session.Sound() && Idles(session.input) <= Idles(old(session.input))
    ensures session.status == Starting || session.status == Running || session.status == Invalid
    ensures session.status == Running <==> r == HelloOk
    ensures old(session.output) <= session.output && old(session.losses) <= session.losses
    ensures session.losses == old(session.losses) ==>
              Said(old(session.output), session.output, own, ownId) || (session.status == Invalid && session.Cut())
    ensures HelloComes(Pending(old(session.input)), client, peer, peerId, later) && polled.Readable?
            && Prompt(old(session.input), READ_TIMEOUT) && !session.Cut() ==>
              session.status != Invalid
    ensures ReadsHellos(parse) && HelloComes(Pending(old(session.input)), client, peer, peerId, later)
            && polled.Readable? && session.status != Invalid && session.attached ==>
              && r == HelloOk && Pending(session.input) == later
              && Learned(session.version, session.id, session.cpblts, client, peer, peerId)
  {
    var w := SayHello(session, own, ownId);
    if w != 0 {
      return HelloError;
    }
    r := AwaitHello(session, client, parse, polled, peer, peerId, later);
    if r == HelloOk {
      session.status := Running;
    }
  }

  /**
   * Sends the own hello, reads the peer's, and marks the session running on success and only
   * then. If the peer sent the hello of a list of capabilities and the transport did not fail, the
   * exchange succeeds with the highest base version both ends have, whatever the order of the
   * list and however often it names a version, and leaves unread what follows.
   */
  method Establish(session: Session, client: bool, extra: seq<string>, parse: Parser, polled: Polled,
                   ghost peer: seq<string>, ghost peerId: Option<nat>, ghost later: string)
    returns (r: HelloResult)
    requires session.Sound() && session.status == Starting && session.version == V10
    requires session.id < 0x1_0000_0000
    modifies session`status, session`reason, session`input, session`output, session`writes, session`losses
    modifies session`version, session`cpblts, session`id
    ensures session.Sound() && Idles(session.input) <= Idles(old(session.input))
    ensures session.status == Starting || session.status == Running || session.status == Invalid
    ensures session.status == Running <==> r == HelloOk
    ensures old(session.output) <= session.output && old(session.losses) <= session.losses
    ensures session.losses == old(session.losses) ==>
              || Said(old(session.output), session.output, Offer(client, extra), OwnId(client, old(session.id)))
              || (session.status == Invalid && session.Cut())
    ensures PeerSent(Pending(old(session.input)), client, peer, peerId, later) && polled.Readable?
            && Prompt(old(session.input), READ_TIMEOUT) && !session.Cut() ==>
              session.status != Invalid
    ensures ReadsHellos(parse) && PeerSent(Pending(old(session.input)), client, peer, peerId, later)
            && polled.Readable? && session.status != Invalid && session.attached ==>
              && r == HelloOk && Pending(session.input) == later
              && session.version == AsVersion(Common(Offer(client, extra), peer))
              && Learned(session.version, session.id, session.cpblts, client, peer, peerId)
  {
    PeerHelloIsDecoded(Pending(session.input), client, peer, peerId, later);
    r := ExchangeHellos(session, client, Offer(client, extra), OwnId(client, session.id), parse, polled,
                        peer, peerId, later);
    HighestIsCommon(client, extra, peer);
  }
}
