/**
 * The two wire framings of NETCONF over SSH: end-of-message tags (section 4.3 of RFC 6242) and
 * chunks (section 4.2 of RFC 6242). What a sender emits for a list of chunks, and what the
 * receiving loops recover from a byte stream.
 */
module Framing {
  import opened Text

  datatype Version = V10 | V11

  const END_TAG := "]]>]]>"

  // ---------------------------------------------------------------- sender

  function Chunk(c: string): string {
    "\n#" + Decimal(|c|) + "\n" + c
  }

  function Frames(v: Version, chunks: seq<string>): string {
    if chunks == [] then ""
    else (if v.V11? then Chunk(chunks[0]) else chunks[0]) + Frames(v, chunks[1..])
  }

  function EndMark(v: Version): string {
    if v.V11? then "\n##\n" else END_TAG
  }

  function Wire(v: Version, chunks: seq<string>): string {
    Frames(v, chunks) + EndMark(v)
  }

  // ---------------------------------------------------------------- receiver

  /**
   * Starved: the stream ends before the message does. Overflow: a byte count leaves the range of
   * the C int it is stored in, so the outcome is not determined by the source.
   */
  datatype Decoded =
    | Message(text: string, rest: string)
    | Malformed(rest: string)
    | Starved
    | Overflow

  function Decode(v: Version, bytes: string): Decoded {
    if v.V11? then DecodeChunks(bytes, None) else DecodeTagged(bytes)
  }

  function DecodeTagged(bytes: string): Decoded {
    match Find(bytes, END_TAG)
    case None => Starved
    case Some(k) =>
      if k + |END_TAG| > INT_MAX then Overflow
      else Message(bytes[..k], bytes[k + |END_TAG|..])
  }

  /** One iteration per chunk header; `got` is the message so far, None before the first chunk. */
  function DecodeChunks(bytes: string, got: Option<string>): Decoded
    decreases |bytes|
  {
    match Find(bytes, "\n#")
    case None => Starved
    case Some(k) =>
      if k + 2 > INT_MAX then Overflow else DecodeHeader(bytes[k + 2..], got)
  }

  function DecodeHeader(bytes: string, got: Option<string>): Decoded
    decreases |bytes|
  {
    match Find(bytes, "\n")
    case None => Starved
    case Some(j) =>
      var line, body := bytes[..j + 1], bytes[j + 1..];
      if j + 1 > INT_MAX then Overflow
      else if line == "#\n" then (if got.None? then Malformed(body) else Message(got.value, body))
      else
        var size := Strtoul(line);
        if size == 0 then Malformed(body)
        else if size > |body| then Starved
        else if size > INT_MAX then Overflow
        else DecodeChunks(body[size..], Some(Extend(got, body[..size])))
  }

  function Extend(got: Option<string>, more: string): string {
    if got.None? then more else got.value + more
  }

  // ---------------------------------------------------------------- chunked round trip

  predicate Sendable(chunks: seq<string>) {
    forall i :: 0 <= i < |chunks| ==> 0 < |chunks[i]| <= INT_MAX
  }

  lemma ReadsChunkStart(after: string)
    ensures Find("\n#" + after, "\n#") == Some(0)
  {
    var s := "\n#" + after;
    assert s[0..0 + 2] == "\n#";
    FirstIsFound(s, "\n#", 0);
  }

  lemma ReadsHeaderLine(size: nat, body: string)
    requires size <= INT_MAX
    ensures var bytes := Decimal(size) + "\n" + body;
            var j := |Decimal(size)|;
            && Find(bytes, "\n") == Some(j)
            && bytes[..j + 1] == Decimal(size) + "\n"
            && bytes[j + 1..] == body
            && bytes[..j + 1] != "#\n"
            && Strtoul(bytes[..j + 1]) == size
            && j + 1 <= INT_MAX
  {
    var digits := Decimal(size);
    var bytes := digits + "\n" + body;
    FindAfter(digits, "\n", body);
    assert bytes[..|digits| + 1] == digits + "\n" && bytes[|digits| + 1..] == body;
    assert IsDigit(bytes[..|digits| + 1][0]);
    PrintedNumberIsScanned(size, "\n");
    DecimalIsShort(size);
  }

  lemma {:induction false} DecimalIsShort(n: nat)
    ensures |Decimal(n)| <= n / 10 + 1
  {
    if n >= 10 { DecimalIsShort(n / 10); }
  }

  lemma ReadsHeader(c: string, after: string, got: Option<string>)
    requires 0 < |c| <= INT_MAX
    ensures DecodeHeader(Decimal(|c|) + "\n" + (c + after), got) == DecodeChunks(after, Some(Extend(got, c)))
  {
    var body := c + after;
    ReadsHeaderLine(|c|, body);
    assert body[..|c|] == c && body[|c|..] == after;
  }

  lemma ReadsOneChunk(c: string, after: string, got: Option<string>)
    requires 0 < |c| <= INT_MAX
    ensures DecodeChunks(Chunk(c) + after, got) == DecodeChunks(after, Some(Extend(got, c)))
  {
    var tail := Decimal(|c|) + "\n" + (c + after);
    assert Chunk(c) + after == "\n#" + tail;
    ReadsChunkStart(tail);
    assert ("\n#" + tail)[2..] == tail;
    ReadsHeader(c, after, got);
  }

  lemma ReadsEndOfChunks(after: string, got: Option<string>)
    ensures DecodeChunks("\n##\n" + after, got)
         == if got.None? then Malformed(after) else Message(got.value, after)
  {
    var tail := "#" + "\n" + after;
    assert "\n##\n" + after == "\n#" + tail;
    ReadsChunkStart(tail);
    assert ("\n#" + tail)[2..] == tail;
    FindAfter("#", "\n", after);
    assert tail[..2] == "#\n" && tail[2..] == after;
  }

  lemma FirstChunk(chunks: seq<string>, after: string)
    requires chunks != []
    ensures Wire(V11, chunks) + after == Chunk(chunks[0]) + (Wire(V11, chunks[1..]) + after)
  {
  }

  lemma ExtendTwice(got: Option<string>, a: string, b: string)
    ensures Extend(Some(Extend(got, a)), b) == Extend(got, a + b)
  {
    if got.Some? { assert got.value + a + b == got.value + (a + b); }
  }

  lemma {:induction false} ReadsChunks(chunks: seq<string>, after: string, got: Option<string>)
    requires Sendable(chunks)
    ensures DecodeChunks(Wire(V11, chunks) + after, got)
         == if got.None? && chunks == [] then Malformed(after)
            else Message(Extend(got, Flatten(chunks)), after)
  {
    if chunks == [] {
      assert Wire(V11, chunks) + after == "\n##\n" + after;
      ReadsEndOfChunks(after, got);
    } else {
      var c, more := chunks[0], Wire(V11, chunks[1..]) + after;
      FirstChunk(chunks, after);
      ReadsOneChunk(c, more, got);
      ReadsChunks(chunks[1..], after, Some(Extend(got, c)));
      ExtendTwice(got, c, Flatten(chunks[1..]));
    }
  }

  /**
   * Whatever the chunks contain ("\n#", "\n##\n" included), the chunk loop reads back their
   * concatenation and leaves the suffix unread. A message without a single chunk is refused.
   */
  lemma ChunkedRoundTrip(chunks: seq<string>, suffix: string)
    requires Sendable(chunks)
    ensures chunks != [] ==> Decode(V11, Wire(V11, chunks) + suffix) == Message(Flatten(chunks), suffix)
    ensures chunks == [] ==> Decode(V11, Wire(V11, chunks) + suffix) == Malformed(suffix)
  {
    ReadsChunks(chunks, suffix, None);
  }

  // ---------------------------------------------------------------- any header

  /** Bytes before a chunk, which the loop skips: no "\n#" starts in them. */
  ghost predicate Skipped(junk: string) {
    !Occurs(junk + "\n", "\n#")
  }

  lemma SkipsJunk(junk: string, after: string)
    requires Skipped(junk)
    ensures Find(junk + ("\n#" + after), "\n#") == Some(|junk|)
  {
    var s, j := junk + ("\n#" + after), junk + "\n";
    assert s[|junk|..|junk| + 2] == "\n#";
    forall i | 0 <= i < |junk| ensures !OccursAt(s, "\n#", i) {
      assert !OccursAt(j, "\n#", i);
      assert s[i..i + 2] == j[i..i + 2];
    }
    FirstIsFound(s, "\n#", |junk|);
  }

  /** A header line that does not start a number. */
  predicate NoNumber(line: string) {
    line == "" || (!IsDigit(line[0]) && !IsSpace(line[0]) && line[0] != '+' && line[0] != '-')
  }

  lemma ReadsLine(line: string, body: string)
    requires '\n' !in line
    ensures var bytes := line + "\n" + body;
            && Find(bytes, "\n") == Some(|line|) && bytes[..|line| + 1] == line + "\n" && bytes[|line| + 1..] == body
    ensures line + "\n" == "#\n" <==> line == "#"
  {
    FindAfter(line, "\n", body);
    assert (line + "\n")[..|line|] == line && "#\n"[..1] == "#";
  }

  /** What the reader makes of one header with all that follows it. */
  ghost predicate Judged(line: string, body: string, got: Option<string>, r: Decoded) {
    var size := Strtoul(line + "\n");
    if line == "#" then r == if got.None? then Malformed(body) else Message(got.value, body)
    else && (size == 0 || NoNumber(line) ==> r == Malformed(body))
         && (size > |body| ==> r == Starved)
         && (0 < size <= |body| && size <= INT_MAX ==>
               r == DecodeChunks(body[size..], Some(Extend(got, body[..size]))))
  }

  lemma AnyLine(line: string, body: string, got: Option<string>)
    requires '\n' !in line && |line| < INT_MAX
    ensures Judged(line, body, got, DecodeHeader(line + "\n" + body, got))
  {
    ReadsLine(line, body);
    if NoNumber(line) { NothingToScan(line); }
  }

  /**
   * Whatever stands before a chunk header and in it: the end mark ends a message if there was a chunk;
   * a header without a number, or with the number 0, is malformed; one that announces more bytes than
   * there are starves the reader; any other number, however it is written, takes that many bytes.
   */
  lemma AnyHeader(junk: string, line: string, body: string, got: Option<string>)
    requires Skipped(junk) && '\n' !in line && |junk| + 2 <= INT_MAX && |line| < INT_MAX
    ensures Judged(line, body, got, DecodeChunks(junk + ("\n#" + (line + "\n" + body)), got))
  {
    var tail := line + "\n" + body;
    SkipsJunk(junk, tail);
    assert (junk + ("\n#" + tail))[|junk| + 2..] == tail;
    AnyLine(line, body, got);
  }

  lemma NothingToScan(line: string)
    requires NoNumber(line)
    ensures Strtoul(line + "\n") == 0
  {
    var s := line + "\n";
    if line == "" {
      assert s[1..] == "" && SkipSpace(s) == SkipSpace(s[1..]);
    } else {
      assert s[0] == line[0];
    }
  }

  /** Without the start of a header, and without the end of one, there is no message yet. */
  lemma NoHeaderStarves(bytes: string, got: Option<string>)
    ensures !Occurs(bytes, "\n#") ==> DecodeChunks(bytes, got) == Starved
    ensures '\n' !in bytes ==> DecodeHeader(bytes, got) == Starved
  {
    if '\n' !in bytes { NoChar(bytes, '\n'); }
    if !Occurs(bytes, "\n#") && Find(bytes, "\n#").Some? {
      assert false;
    }
  }

  // ---------------------------------------------------------------- end-of-message round trip

  predicate EndsWith(s: string, tail: string) {
    |s| >= |tail| && s[|s| - |tail|..] == tail
  }

  ghost predicate TagFree(text: string) {
    !Occurs(text, END_TAG) && !EndsWith(text, "]]>")
  }

  /** "]]>" is the only proper border of the tag. */
  lemma TagBorder(d: nat)
    requires 0 < d < 6
    ensures END_TAG[d..] == END_TAG[..6 - d] <==> d == 3
  {
    var tag := END_TAG;
    assert tag[1..][1] != tag[..5][1];
    assert tag[2..][0] != tag[..4][0];
    assert tag[3..] == tag[..3];
    assert tag[4..][1] != tag[..2][1];
    assert tag[5..][0] != tag[..1][0];
  }

  /** Where the tag can start before the end of the text. */
  lemma EarlyTag(text: string, suffix: string, i: nat)
    requires i < |text|
    ensures OccursAt(text + END_TAG + suffix, END_TAG, i)
       <==> OccursAt(text, END_TAG, i) || (i == |text| - 3 && EndsWith(text, "]]>"))
  {
    var s := text + END_TAG + suffix;
    var d := |text| - i;
    if d >= 6 {
      assert s[i..i + 6] == text[i..i + 6];
    } else {
      var here := s[i..i + 6];
      assert here == text[i..] + END_TAG[..6 - d];
      assert END_TAG == END_TAG[..d] + END_TAG[d..];
      assert here[..d] == text[i..] && here[d..] == END_TAG[..6 - d];
      assert here == END_TAG <==> text[i..] == END_TAG[..d] && END_TAG[..6 - d] == END_TAG[d..];
      TagBorder(d);
      assert END_TAG[..3] == "]]>";
    }
  }

  lemma NoEarlyTag(text: string, suffix: string)
    ensures (forall i :: 0 <= i < |text| ==> !OccursAt(text + END_TAG + suffix, END_TAG, i)) <==> TagFree(text)
  {
    var s := text + END_TAG + suffix;
    forall i | 0 <= i < |text|
      ensures OccursAt(s, END_TAG, i) <==> OccursAt(text, END_TAG, i) || (i == |text| - 3 && EndsWith(text, "]]>"))
    {
      EarlyTag(text, suffix, i);
    }
    if EndsWith(text, "]]>") { assert OccursAt(s, END_TAG, |text| - 3); }
    if Occurs(text, END_TAG) {
      var i :| OccursAt(text, END_TAG, i);
      assert OccursAt(s, END_TAG, i);
    }
  }

  /**
   * Reading text followed by the tag returns exactly that text, with the suffix left unread, if
   * and only if the text neither contains the tag nor ends in "]]>" (and its length fits an int).
   */
  lemma TaggedRoundTrip(text: string, suffix: string)
    ensures Decode(V10, text + END_TAG + suffix) == Message(text, suffix)
       <==> TagFree(text) && |text| + 6 <= INT_MAX
  {
    var s := text + END_TAG + suffix;
    assert s[|text|..|text| + 6] == END_TAG;
    assert OccursAt(s, END_TAG, |text|);
    NoEarlyTag(text, suffix);
    if TagFree(text) {
      FirstIsFound(s, END_TAG, |text|);
      assert s[..|text|] == text && s[|text| + 6..] == suffix;
    } else {
      var i :| 0 <= i < |text| && OccursAt(s, END_TAG, i);
      assert Occurs(s, END_TAG);
      var k := Find(s, END_TAG).value;
      assert k <= i;
      assert |s[..k]| != |text|;
    }
  }

  lemma {:induction false} PlainFrames(chunks: seq<string>)
    ensures Frames(V10, chunks) == Flatten(chunks)
  {
    if chunks != [] { PlainFrames(chunks[1..]); }
  }

  lemma {:induction false} FramesSnoc(v: Version, chunks: seq<string>, c: string)
    ensures Frames(v, chunks + [c]) == Frames(v, chunks) + (if v.V11? then Chunk(c) else c)
  {
    if chunks == [] {
      assert [c][1..] == [];
      assert chunks + [c] == [c];
    } else {
      assert (chunks + [c])[1..] == chunks[1..] + [c];
      FramesSnoc(v, chunks[1..], c);
    }
  }

  // ---------------------------------------------------------------- traffic

  /** A chunk list whose message the given version can carry. */
  ghost predicate Carriable(v: Version, chunks: seq<string>) {
    && Sendable(chunks)
    && (v.V11? ==> chunks != [])
    && (v.V10? ==> TagFree(Flatten(chunks)) && |Flatten(chunks)| + 6 <= INT_MAX)
  }

  /** One message survives either framing exactly when it is carriable. */
  lemma WireRoundTrip(v: Version, chunks: seq<string>, suffix: string)
    requires Sendable(chunks)
    ensures Decode(v, Wire(v, chunks) + suffix) == Message(Flatten(chunks), suffix) <==> Carriable(v, chunks)
  {
    if v.V11? {
      ChunkedRoundTrip(chunks, suffix);
    } else {
      PlainFrames(chunks);
      assert Wire(v, chunks) + suffix == Flatten(chunks) + END_TAG + suffix;
      TaggedRoundTrip(Flatten(chunks), suffix);
    }
  }

  /** The bytes of a whole conversation in one direction. */
  function WireAll(v: Version, messages: seq<seq<string>>): string {
    if messages == [] then "" else Wire(v, messages[0]) + WireAll(v, messages[1..])
  }

  /** Reading `count` messages in a row: their texts and what is left, or None. */
  function DecodeAll(v: Version, bytes: string, count: nat): Option<(seq<string>, string)>
    decreases count
  {
    if count == 0 then Some(([], bytes)) else
    match Decode(v, bytes)
    case Message(text, rest) =>
      (match DecodeAll(v, rest, count - 1)
       case Some(more) => Some(([text] + more.0, more.1))
       case None => None)
    case _ => None
  }

  function Texts(messages: seq<seq<string>>): seq<string> {
    if messages == [] then [] else [Flatten(messages[0])] + Texts(messages[1..])
  }

  lemma FirstMessage(v: Version, messages: seq<seq<string>>, suffix: string)
    requires messages != []
    ensures WireAll(v, messages) + suffix == Wire(v, messages[0]) + (WireAll(v, messages[1..]) + suffix)
  {
  }

  /** Two ends with the same version: the sequence of messages read is the sequence written. */
  lemma {:induction false} TrafficRoundTrip(v: Version, messages: seq<seq<string>>, suffix: string)
    requires forall i :: 0 <= i < |messages| ==> Carriable(v, messages[i])
    ensures DecodeAll(v, WireAll(v, messages) + suffix, |messages|) == Some((Texts(messages), suffix))
  {
    if messages == [] {
      assert WireAll(v, messages) + suffix == suffix;
    } else {
      var more := WireAll(v, messages[1..]) + suffix;
      FirstMessage(v, messages, suffix);
      WireRoundTrip(v, messages[0], more);
      TrafficRoundTrip(v, messages[1..], suffix);
    }
  }
}
