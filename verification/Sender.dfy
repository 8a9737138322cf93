/** The buffered message writer. */
module Sender {
  import opened Text
  import opened Framing
  import opened SessionState
  import opened Transport
  import opened Escaping

  const BUFSIZE: nat := 1024

  function OneFrame(v: Version, body: string): string {
    if v.V11? then Chunk(body) else body
  }

  /** No more than the text was accepted, and all of it if it went well. */
  predicate Accepted(before: string, now: string, text: string, well: bool) {
    |now| <= |before| + |text| && (well ==> now == before + text)
  }

  lemma AcceptedBoth(a: string, b: string, c: string, x: string, y: string, well: bool, well': bool)
    requires Accepted(a, b, x, well) && Accepted(b, c, y, well')
    ensures Accepted(a, c, x + y, well && well')
  {
    ConcatAssoc(a, x, y);
  }

  lemma SentBoth(a: string, b: string, c: string, x: string, y: string, lost: bool, lost': bool)
    requires Sent(a, b, x, lost) && Sent(b, c, y, lost')
    ensures Sent(a, c, x + y, lost || lost')
  {
    ConcatAssoc(a, x, y);
  }

  /**
   * One header and body (chunked framing), or the bare body. Without a loss they go out whole; a
   * loss in the header does not keep the body from following, a call that fails does.
   */
  method WriteFrame(session: Session, body: string) returns (ok: bool)
    requires session.Sound() && body != ""
    modifies session`status, session`reason, session`output, session`writes, session`losses
    ensures session.Sound() && Degraded(old(session.status), session.status)
    ensures Wears(old(session.Live()), old(session.Cut()), old(session.losses),
                  session.Live(), session.Cut(), session.losses)
    ensures !old(session.Live()) ==> unchanged(session)
    ensures (ok ==> session.Live()) && (session.Live() && session.losses == old(session.losses) ==> ok)
    ensures old(session.Failing()) ==> !ok && session.Live() && session.output == old(session.output)
    ensures Sent(old(session.output), session.output, OneFrame(session.version, body),
                 !session.Live() || session.losses > old(session.losses))
  {
    var header := "\n#" + Decimal(|body|) + "\n";
    if session.version == V11 {
      var r := session.Write(header);
      if r == -1 {
        return false;
      }
    }
    ghost var middle, losses := session.output, session.losses;
    var c := session.Write(body);
    ok := c != -1;
    if session.version == V11 && old(session.Live()) {
      SentBoth(old(session.output), middle, session.output, header, body,
               losses > old(session.losses), !session.Live() || session.losses > losses);
    }
  }

  /**
   * The callback argument of nc_write_clb(): a buffer of 1024 bytes in front of a session. The
   * ghost chunks log every frame handed to the session since the writer was created, and the mark
   * is the number of losses at that time.
   */
  class Writer {
    const session: Session
    const buf: array<char>
    var len: nat
    ghost var chunks: seq<string>
    ghost const base: string
    ghost const mark: nat

    ghost predicate Valid()
      reads this, buf, session
    {
      && buf.Length == BUFSIZE && len <= BUFSIZE
      && Sendable(chunks)
      && session.Sound()
      && base <= session.output && mark <= session.losses
      && (session.Live() ==> Sent(base, session.output, Frames(session.version, chunks), session.losses > mark))
    }

    /** Everything accepted so far, flushed or not. */
    ghost function Body(): string
      reads this, buf
      requires buf.Length == BUFSIZE && len <= BUFSIZE
    {
      Flatten(chunks) + buf[..len]
    }

    constructor (session: Session)
      requires session.Sound()
      ensures Valid() && Body() == "" && chunks == [] && this.session == session
      ensures base == session.output && mark == session.losses
      ensures fresh(buf)
    {
      this.session := session;
      buf := new char[BUFSIZE](_ => ' ');
      len, chunks, base, mark := 0, [], session.output, session.losses;
    }

    /** memcpy() behind the bytes already buffered. */
    method Append(s: string)
      requires Valid() && len + |s| <= BUFSIZE
      modifies this`len, buf
      ensures Valid() && chunks == old(chunks)
      ensures Body() == old(Body()) + s && len == old(len) + |s|
    {
      ghost var before := buf[..len];
      forall i | 0 <= i < |s| {
        buf[len + i] := s[i];
      }
      len := len + |s|;
      assert buf[..len] == before + s;
    }

    /** Hands one frame to the session. */
    method Emit(body: string) returns (ok: bool)
      requires Valid() && 0 < |body| <= INT_MAX
      modifies this`chunks, session`status, session`reason, session`output, session`writes, session`losses
      ensures Valid() && Degraded(old(session.status), session.status) && chunks == old(chunks) + [body]
      ensures (ok ==> session.Live()) && (session.Live() && session.losses == old(session.losses) ==> ok)
      ensures old(session.Failing()) ==> !ok && session.Live() && session.output == old(session.output)
      ensures !old(session.Live()) ==> unchanged(session)
      ensures Wears(old(session.Live()), old(session.Cut()), old(session.losses),
                    session.Live(), session.Cut(), session.losses)
    {
      FramesSnoc(session.version, chunks, body);
      ok := WriteFrame(session, body);
      if session.Live() {
        SentBoth(base, old(session.output), session.output, Frames(session.version, chunks),
                 OneFrame(session.version, body), old(session.losses) > mark, session.losses > old(session.losses));
      }
      chunks := chunks + [body];
    }

    /** Emits the buffer as one frame, never an empty one, and empties it. */
    method Flush() returns (ok: bool)
      requires Valid()
      modifies this`len, this`chunks, session`status, session`reason, session`output, session`writes, session`losses
      ensures Valid() && Degraded(old(session.status), session.status) && len == 0
      ensures Body() == old(Body())
      ensures chunks == if old(len) == 0 then old(chunks) else old(chunks) + [old(buf[..len])]
      ensures old(session.Live()) && ok ==> session.Live()
      ensures session.Live() && session.losses == old(session.losses) ==> ok
      ensures old(len > 0 && session.Failing()) ==> !ok && session.Live() && session.output == old(session.output)
      ensures !old(session.Live()) ==> unchanged(session)
      ensures Wears(old(session.Live()), old(session.Cut()), old(session.losses),
                    session.Live(), session.Cut(), session.losses)
    {
      ok := true;
      if len > 0 {
        var body := buf[..len];
        FlattenSnoc(chunks, body);
        ok := Emit(body);
        len := 0;
      }
      assert buf[..0] == "";
    }

    /** Accepts one piece of markup or of text content; without a loss, all of it. */
    method Put(piece: Piece) returns (ok: bool)
      requires Valid()
      requires piece.Raw? ==> |piece.raw| <= INT_MAX
      modifies this, buf, session`status, session`reason, session`output, session`writes, session`losses
      ensures Valid() && Degraded(old(session.status), session.status)
      ensures Accepted(old(Body()), Body(), Render(piece), session.Live() && session.losses == old(session.losses))
      ensures piece.Raw? && old(len) + |piece.raw| <= BUFSIZE ==> unchanged(session) && len == old(len) + |piece.raw|
      ensures !old(session.Live()) ==> unchanged(session)
      ensures Wears(old(session.Live()), old(session.Cut()), old(session.losses),
                    session.Live(), session.Cut(), session.losses)
    {
      var data := if piece.Raw? then piece.raw else piece.content;
      if len > 0 && len + |data| > BUFSIZE {
        ok := Flush();
        if !ok {
          return;
        }
      }
      if piece.Raw? && |data| > BUFSIZE {
        ok := PutDirectly(data);
      } else if piece.Content? {
        ok := PutEscaped(data);
      } else {
        Append(data);
        ok := true;
      }
    }

    /** A large piece of markup bypasses the buffer, which is empty at that point. */
    method PutDirectly(data: string) returns (ok: bool)
      requires Valid() && len == 0 && 0 < |data| <= INT_MAX
      modifies this`chunks, session`status, session`reason, session`output, session`writes, session`losses
      ensures Valid() && Degraded(old(session.status), session.status) && Body() == old(Body()) + data
      ensures !old(session.Live()) ==> unchanged(session)
      ensures Wears(old(session.Live()), old(session.Cut()), old(session.losses),
                    session.Live(), session.Cut(), session.losses)
    {
      assert buf[..0] == "" && Body() == Flatten(chunks);
      FlattenSnoc(chunks, data);
      ok := Emit(data);
      assert Body() == Flatten(chunks);
    }

    /** One character of text content; five bytes are kept in reserve for it. */
    method PutChar(c: char) returns (ok: bool)
      requires Valid()
      modifies this, buf, session`status, session`reason, session`output, session`writes, session`losses
      ensures Valid() && Degraded(old(session.status), session.status)
      ensures Body() == old(Body()) + if ok then EscapeChar(c) else ""
      ensures session.Live() && session.losses == old(session.losses) ==> ok
      ensures !old(session.Live()) ==> unchanged(session)
      ensures Wears(old(session.Live()), old(session.Cut()), old(session.losses),
                    session.Live(), session.Cut(), session.losses)
    {
      ok := true;
      if len + 5 >= BUFSIZE {
        ok := Flush();
      }
      if ok {
        Append(EscapeChar(c));
      }
    }

    method PutEscaped(data: string) returns (ok: bool)
      requires Valid()
      modifies this, buf, session`status, session`reason, session`output, session`writes, session`losses
      ensures Valid() && Degraded(old(session.status), session.status)
      ensures Accepted(old(Body()), Body(), Escape(data), session.Live() && session.losses == old(session.losses))
      ensures !old(session.Live()) ==> unchanged(session)
      ensures Wears(old(session.Live()), old(session.Cut()), old(session.losses),
                    session.Live(), session.Cut(), session.losses)
    {
      ok := true;
      ghost var start := Body();
      assert data[..0] == "";
      for l := 0 to |data|
        invariant Valid() && Degraded(old(session.status), session.status)
        invariant Body() == start + Escape(data[..l])
        invariant !old(session.Live()) ==> unchanged(session)
        invariant Wears(old(session.Live()), old(session.Cut()), old(session.losses),
                        session.Live(), session.Cut(), session.losses)
      {
        ok := PutChar(data[l]);
        if !ok {
          EscapeConcat(data[..l], data[l..]);
          assert data == data[..l] + data[l..];
          return;
        }
        EscapeSnoc(data[..l], data[l]);
        ConcatAssoc(start, Escape(data[..l]), EscapeChar(data[l]));
        assert data[..l + 1] == data[..l] + [data[l]];
      }
      assert data[..|data|] == data;
    }

    /**
     * The final call with no data: flushes and ends the message. The frames and the end mark have
     * gone out whole if and only if there was no loss since the writer was created.
     */
    method Finish() returns (ok: bool)
      requires Valid()
      modifies this`len, this`chunks, session`status, session`reason, session`output, session`writes, session`losses
      ensures session.Sound() && Degraded(old(session.status), session.status) && base <= session.output
      ensures Flatten(chunks) == old(Body()) && Sendable(chunks)
      ensures session.Live() ==> Sent(base, session.output, Wire(session.version, chunks), session.losses > mark)
      ensures old(len > 0 && session.Failing()) ==> session.Live() && session.output == old(session.output)
      ensures !old(session.Live()) ==> unchanged(session)
      ensures Wears(old(session.Live()), old(session.Cut()), old(session.losses),
                    session.Live(), session.Cut(), session.losses)
    {
      ok := Flush();
      assert buf[..0] == "";
      if ok {
        ghost var middle, losses := session.output, session.losses;
        var r := session.Write(EndMark(session.version));
        ok := r != -1;
        if session.Live() {
          SentBoth(base, middle, session.output, Frames(session.version, chunks), EndMark(session.version),
                   losses > mark, session.losses > losses);
        }
      }
    }
  }
}
