/** Escaping of text content, and the text of a hello message. */
module Escaping {
  import opened Text
  import opened Framing

  function EscapeChar(c: char): (s: string)
    ensures 0 < |s| <= 5
  {
    if c == '&' then "&amp;"
    else if c == '<' then "&lt;"
    else if c == '>' then "&gt;"
    else [c]
  }

  function Escape(s: string): string {
    if s == "" then "" else EscapeChar(s[0]) + Escape(s[1..])
  }

  /** The reader's side: the three references, everything else stands for itself. */
  function Unescape(s: string): string {
    if s == "" then ""
    else if "&amp;" <= s then "&" + Unescape(s[5..])
    else if "&lt;" <= s then "<" + Unescape(s[4..])
    else if "&gt;" <= s then ">" + Unescape(s[4..])
    else [s[0]] + Unescape(s[1..])
  }

  lemma {:induction false} EscapeConcat(a: string, b: string)
    ensures Escape(a + b) == Escape(a) + Escape(b)
  {
    if a == "" {
      assert a + b == b;
    } else {
      assert (a + b)[0] == a[0] && (a + b)[1..] == a[1..] + b;
      EscapeConcat(a[1..], b);
    }
  }

  lemma EscapeSnoc(s: string, c: char)
    ensures Escape(s + [c]) == Escape(s) + EscapeChar(c)
  {
    EscapeConcat(s, [c]);
    assert Escape([c]) == EscapeChar(c) + Escape([c][1..]);
  }

  lemma UnescapeChar(c: char, rest: string)
    ensures Unescape(EscapeChar(c) + rest) == [c] + Unescape(rest)
  {
    var e := EscapeChar(c);
    var s := e + rest;
    assert s[|e|..] == rest && e <= s && s[0] == e[0];
    if |e| > 1 {
      assert s[1] == e[1];
    }
    assert "&amp;" <= s ==> s[0] == "&amp;"[0] && s[1] == "&amp;"[1];
    assert "&lt;" <= s ==> s[0] == "&lt;"[0] && s[1] == "&lt;"[1];
    assert "&gt;" <= s ==> s[0] == "&gt;"[0];
  }

  /** Escaped text reads back as the text. */
  lemma {:induction false} EscapeRoundTrip(s: string)
    ensures Unescape(Escape(s)) == s
  {
    if s != "" {
      UnescapeChar(s[0], Escape(s[1..]));
      EscapeRoundTrip(s[1..]);
    }
  }

  /** Escaped text holds no markup. */
  lemma {:induction false} EscapedHasNoMarkup(s: string)
    ensures '<' !in Escape(s) && '>' !in Escape(s)
  {
    if s != "" { EscapedHasNoMarkup(s[1..]); }
  }

  // ---------------------------------------------------------------- pieces

  /** What one call of the printing callback is given: markup as is, or text to escape. */
  datatype Piece = Raw(raw: string) | Content(content: string)

  function Render(p: Piece): string {
    match p
    case Raw(s) => s
    case Content(s) => Escape(s)
  }

  function RenderAll(pieces: seq<Piece>): string {
    if pieces == [] then "" else RenderAll(pieces[..|pieces| - 1]) + Render(pieces[|pieces| - 1])
  }

  lemma RenderSnoc(pieces: seq<Piece>, p: Piece)
    ensures RenderAll(pieces + [p]) == RenderAll(pieces) + Render(p)
  {
    assert (pieces + [p])[..|pieces|] == pieces;
  }

  // ---------------------------------------------------------------- hello

  const NS_BASE := "urn:ietf:params:xml:ns:netconf:base:1.0"
  const HELLO_START := "<hello xmlns=\"" + NS_BASE + "\"><capabilities>"

  function HelloEnd(sid: Option<nat>): string {
    if sid.Some? then "</capabilities><session-id>" + Decimal(sid.value) + "</session-id></hello>"
    else "</capabilities></hello>"
  }

  function CapabilityText(capability: string): string {
    "<capability>" + Escape(capability) + "</capability>"
  }

  function CapabilityTexts(capabilities: seq<string>): string {
    if capabilities == [] then "" else
    var last := |capabilities| - 1;
    CapabilityTexts(capabilities[..last]) + CapabilityText(capabilities[last])
  }

  function HelloText(capabilities: seq<string>, sid: Option<nat>): string {
    HELLO_START + CapabilityTexts(capabilities) + HelloEnd(sid)
  }

  /** No ">" follows a "]" or starts the text. */
  predicate NoBracketEnd(s: string) {
    forall i :: 0 <= i < |s| && s[i] == '>' ==> i > 0 && s[i - 1] != ']'
  }

  lemma NoBracketEndConcat(a: string, b: string)
    requires NoBracketEnd(a) && NoBracketEnd(b)
    ensures NoBracketEnd(a + b)
  {
  }

  lemma NoBracketEndIsTagFree(s: string)
    requires NoBracketEnd(s)
    ensures TagFree(s)
  {
    forall i ensures !OccursAt(s, END_TAG, i) {
      if 0 <= i && i + 6 <= |s| {
        assert s[i..i + 6][1] == s[i + 1] && s[i..i + 6][2] == s[i + 2];
        assert END_TAG[1] == ']' && END_TAG[2] == '>';
      }
    }
    if |s| >= 3 {
      assert s[|s| - 3..][1] == s[|s| - 2] && s[|s| - 3..][2] == s[|s| - 1];
      assert "]]>"[1] == ']' && "]]>"[2] == '>';
    }
  }

  lemma CapabilityTextNoBracket(capability: string)
    ensures NoBracketEnd(CapabilityText(capability))
  {
    EscapedHasNoMarkup(capability);
    assert NoBracketEnd("<capability>") && NoBracketEnd("</capability>");
    NoBracketEndConcat("<capability>", Escape(capability));
    NoBracketEndConcat("<capability>" + Escape(capability), "</capability>");
  }

  lemma {:induction false} CapabilityTextsNoBracket(capabilities: seq<string>)
    ensures NoBracketEnd(CapabilityTexts(capabilities))
  {
    if capabilities != [] {
      var last := |capabilities| - 1;
      CapabilityTextsNoBracket(capabilities[..last]);
      CapabilityTextNoBracket(capabilities[last]);
      NoBracketEndConcat(CapabilityTexts(capabilities[..last]), CapabilityText(capabilities[last]));
    }
  }

  lemma HelloEndNoBracket(sid: Option<nat>)
    ensures NoBracketEnd(HelloEnd(sid))
  {
    assert NoBracketEnd("</capabilities></hello>");
    if sid.Some? {
      var number := Decimal(sid.value);
      assert NoBracketEnd(number);
      assert NoBracketEnd("</capabilities><session-id>") && NoBracketEnd("</session-id></hello>");
      NoBracketEndConcat("</capabilities><session-id>", number);
      NoBracketEndConcat("</capabilities><session-id>" + number, "</session-id></hello>");
    }
  }

  lemma HelloStartNoBracket()
    ensures NoBracketEnd(HELLO_START)
  {
    assert NoBracketEnd("<hello xmlns=\"") && '>' !in NS_BASE;
    NoBracketEndConcat("<hello xmlns=\"", NS_BASE);
    EndsInQuote("<hello xmlns=\"" + NS_BASE);
  }

  lemma EndsInQuote(s: string)
    requires NoBracketEnd(s)
    ensures NoBracketEnd(s + "\"><capabilities>")
  {
    var end := "\"><capabilities>";
    assert NoBracketEnd(end);
    NoBracketEndConcat(s, end);
  }

  lemma ThreeParts(a: string, b: string, c: string)
    requires NoBracketEnd(a) && NoBracketEnd(b) && NoBracketEnd(c)
    ensures TagFree(a + b + c)
  {
    NoBracketEndConcat(a, b);
    NoBracketEndConcat(a + b, c);
    NoBracketEndIsTagFree(a + b + c);
  }

  /**
   * Every hello, whatever the capability strings are, can be sent with the end-of-message tag:
   * it neither contains the tag nor ends in a part of it.
   */
  lemma HelloIsTagFree(capabilities: seq<string>, sid: Option<nat>)
    ensures TagFree(HelloText(capabilities, sid))
  {
    HelloStartNoBracket();
    CapabilityTextsNoBracket(capabilities);
    HelloEndNoBracket(sid);
    ThreeParts(HELLO_START, CapabilityTexts(capabilities), HelloEnd(sid));
  }
}
