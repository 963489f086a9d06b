/** The receiving side of the video stream: `SocketVideoClient` keeps a byte
    buffer across calls and `ReadFrame` reassembles one length-prefixed frame
    from the chunks the connection delivers. The peer is a queue of pending
    chunks; JPEG decoding of the payload is outside the model. */
module SocketVideo {
  import opened Wire
  import VideoSender

  /** The `bufsize` argument of every `recv` call. */
  const RecvSize: nat := 4096

  /** A chunk the connection can deliver: one `recv(4096)` returns between 1
      and 4096 bytes while the peer is connected. */
  predicate ValidChunks(chunks: seq<seq<byte>>)
  {
    forall k :: 0 <= k < |chunks| ==> 0 < |chunks[k]| <= RecvSize
  }

  /** The state after receiving into a buffer: the buffer, how many chunks
      were received, and whether the buffer reached the needed length. */
  datatype Filled = Filled(buf: seq<byte>, taken: nat, complete: bool)

  /** One receive loop of `read_frame`: while the buffer holds fewer than
      `need` bytes, receive the next chunk and append it; an exhausted queue
      is a zero-byte `recv`, which ends the loop incomplete. */
  function Fill(buf: seq<byte>, chunks: seq<seq<byte>>, need: nat): (f: Filled)
    ensures f.taken <= |chunks|
    ensures f.complete ==> need <= |f.buf|
    ensures !f.complete ==> f.taken == |chunks| && |f.buf| < need
    decreases |chunks|
  {
    if need <= |buf| then Filled(buf, 0, true)
    else if chunks == [] then Filled(buf, 0, false)
    else
      var f := Fill(buf + chunks[0], chunks[1..], need);
      Filled(f.buf, f.taken + 1, f.complete)
  }

  lemma FlattenTakeFirst(chunks: seq<seq<byte>>, k: nat)
    requires 0 < k <= |chunks|
    ensures Flatten(chunks[..k]) == chunks[0] + Flatten(chunks[1..][..k - 1])
  {
    assert chunks[..k][0] == chunks[0];
    assert chunks[..k][1..] == chunks[1..][..k - 1];
  }

  /** One iteration of a receive loop that still needs bytes. */
  lemma FillStep(buf: seq<byte>, chunks: seq<seq<byte>>, need: nat)
    requires |buf| < need
    ensures chunks == [] ==> Fill(buf, chunks, need) == Filled(buf, 0, false)
    ensures chunks != [] ==>
      var g := Fill(buf + chunks[0], chunks[1..], need);
      Fill(buf, chunks, need) == Filled(g.buf, g.taken + 1, g.complete)
  {
  }

  /** A receive loop appends the chunks it receives to the buffer, in order,
      and receives no chunk once the buffer holds `need` bytes: before the
      last chunk it received, the buffer was still short. */
  lemma {:induction false} FillReceives(buf: seq<byte>, chunks: seq<seq<byte>>, need: nat)
    ensures var f := Fill(buf, chunks, need);
      f.buf == buf + Flatten(chunks[..f.taken]) &&
      (f.taken > 0 ==> |buf + Flatten(chunks[..f.taken - 1])| < need)
    decreases |chunks|
  {
    var f := Fill(buf, chunks, need);
    if need <= |buf| || chunks == [] {
      assert chunks[..0] == [];
    } else {
      var g := Fill(buf + chunks[0], chunks[1..], need);
      FillReceives(buf + chunks[0], chunks[1..], need);
      FlattenTakeFirst(chunks, g.taken + 1);
      if g.taken > 0 {
        FlattenTakeFirst(chunks, g.taken);
      } else {
        assert chunks[..0] == [];
      }
    }
  }

  /** A receive loop loses no bytes: the filled buffer followed by the chunks
      it did not receive is the old buffer followed by all chunks. So it
      completes exactly when the old buffer and all chunks together hold
      `need` bytes. */
  lemma FillConserves(buf: seq<byte>, chunks: seq<seq<byte>>, need: nat)
    ensures var f := Fill(buf, chunks, need);
      f.buf + Flatten(chunks[f.taken..]) == buf + Flatten(chunks) &&
      (f.complete <==> need <= |buf + Flatten(chunks)|)
  {
    var f := Fill(buf, chunks, need);
    FillReceives(buf, chunks, need);
    FlattenSplit(chunks, f.taken);
    assert f.taken == |chunks| ==> chunks[f.taken..] == [];
  }

  /** The outcome of one `read_frame` call: the payload (`None` at end of
      stream), the buffer left behind, and how many chunks were received. */
  datatype Read = Read(frame: Option<seq<byte>>, buf: seq<byte>, taken: nat)

  /** What `read_frame` does to a buffer `buf` and the pending chunks:
      fill to 4 bytes, parse and strip the header, fill to the payload length,
      split the payload off and keep the surplus. */
  function ReadFrameSpec(buf: seq<byte>, chunks: seq<seq<byte>>): (r: Read)
    ensures r.taken <= |chunks|
  {
    var h := Fill(buf, chunks, 4);
    if !h.complete then Read(None, h.buf, h.taken)
    else
      var len := FromBigEndian32(h.buf[..4]);
      var p := Fill(h.buf[4..], chunks[h.taken..], len);
      if !p.complete then Read(None, p.buf, h.taken + p.taken)
      else Read(Some(p.buf[..len]), p.buf[len..], h.taken + p.taken)
  }

  /** The length announced by the header at the front of the byte stream `s`. */
  function HeaderLength(s: seq<byte>): nat
    requires 4 <= |s|
  {
    FromBigEndian32(s[..4])
  }

  /** Splitting a prefix `x` of `t` at `n` splits `t` at `n`. */
  lemma SplitPrefix(x: seq<byte>, y: seq<byte>, t: seq<byte>, n: nat)
    requires x + y == t && n <= |x|
    ensures x[..n] == t[..n] && x[n..] + y == t[n..]
  {
  }

  lemma CancelRight(x: seq<byte>, y: seq<byte>, u: seq<byte>)
    requires x + u == y + u
    ensures x == y
  {
    assert |x| == |y|;
    assert x == (x + u)[..|x|];
    assert y == (y + u)[..|y|];
  }

  /** A complete receive loop leaves the first `need` available bytes at the
      front of the buffer; the rest of the buffer followed by the chunks not
      received is the rest of the available bytes. */
  lemma FillSplits(buf: seq<byte>, chunks: seq<seq<byte>>, need: nat)
    ensures var f := Fill(buf, chunks, need); var t := buf + Flatten(chunks);
      f.complete ==>
        need <= |t| && f.buf[..need] == t[..need] && f.buf[need..] + Flatten(chunks[f.taken..]) == t[need..]
  {
    var f := Fill(buf, chunks, need);
    FillConserves(buf, chunks, need);
    if f.complete {
      SplitPrefix(f.buf, Flatten(chunks[f.taken..]), buf + Flatten(chunks), need);
    }
  }

  /** The header phase of `read_frame`: it completes exactly when 4 bytes
      are available, and then the buffer starts with the first 4 available
      bytes, and its remainder followed by the chunks not received is the
      available stream after them. */
  lemma HeaderPhase(buf: seq<byte>, chunks: seq<seq<byte>>)
    ensures var h := Fill(buf, chunks, 4); var s := buf + Flatten(chunks);
      (h.complete <==> 4 <= |s|) &&
      (h.complete ==>
        h.buf[..4] == s[..4] && h.buf[4..] + Flatten(chunks[h.taken..]) == s[4..])
  {
    FillConserves(buf, chunks, 4);
    FillSplits(buf, chunks, 4);
  }

  /** `read_frame` returns a frame exactly when the buffered and pending bytes
      hold a whole header and the payload it announces; the frame is the bytes
      after the header, and the buffer plus the chunks not yet received hold
      exactly the bytes after the frame. */
  lemma ReadFrameTakesFirstFrame(buf: seq<byte>, chunks: seq<seq<byte>>)
    ensures var s := buf + Flatten(chunks); var r := ReadFrameSpec(buf, chunks);
      (r.frame.Some? <==> 4 <= |s| && 4 + HeaderLength(s) <= |s|) &&
      (r.frame.Some? ==>
        r.frame.value == s[4..4 + HeaderLength(s)] &&
        r.buf + Flatten(chunks[r.taken..]) == s[4 + HeaderLength(s)..])
  {
    var s := buf + Flatten(chunks);
    var h := Fill(buf, chunks, 4);
    HeaderPhase(buf, chunks);
    if !h.complete {
      assert ReadFrameSpec(buf, chunks).frame == None;
    } else {
      var rest := chunks[h.taken..];
      var len := FromBigEndian32(h.buf[..4]);
      assert HeaderLength(s) == len;
      var p := Fill(h.buf[4..], rest, len);
      PayloadPhase(h.buf[4..], rest, len, s[4..]);
      if !p.complete {
        assert ReadFrameSpec(buf, chunks).frame == None;
      } else {
        var r := Read(Some(p.buf[..len]), p.buf[len..], h.taken + p.taken);
        assert ReadFrameSpec(buf, chunks) == r;
        DropDrop(chunks, h.taken, p.taken);
        var unreceived := Flatten(chunks[r.taken..]);
        assert unreceived == Flatten(rest[p.taken..]);
        SliceOfSlice(s, 4, len);
      }
    }
  }

  lemma DropDrop(chunks: seq<seq<byte>>, a: nat, b: nat)
    requires a + b <= |chunks|
    ensures chunks[a..][b..] == chunks[a + b..]
  {
  }

  lemma SliceOfSlice(s: seq<byte>, a: nat, n: nat)
    requires a + n <= |s|
    ensures s[a..][..n] == s[a..a + n] && s[a..][n..] == s[a + n..]
  {
  }

  /** The payload phase of `read_frame`, on the stream `t` after the header. */
  lemma PayloadPhase(b: seq<byte>, rest: seq<seq<byte>>, len: nat, t: seq<byte>)
    requires b + Flatten(rest) == t
    ensures var p := Fill(b, rest, len);
      (p.complete <==> len <= |t|) &&
      (p.complete ==>
        p.buf[..len] == t[..len] && p.buf[len..] + Flatten(rest[p.taken..]) == t[len..])
  {
    FillConserves(b, rest, len);
    FillSplits(b, rest, len);
  }

  /** No bytes are lost or reordered by a successful call: the old buffer and
      the received chunks are the header, the payload and the new buffer. The
      header announces the payload's length. */
  lemma ReadFrameConserves(buf: seq<byte>, chunks: seq<seq<byte>>)
    ensures var r := ReadFrameSpec(buf, chunks);
      r.frame.Some? ==>
        var received := buf + Flatten(chunks[..r.taken]);
        4 <= |received| &&
        received == received[..4] + r.frame.value + r.buf &&
        FromBigEndian32(received[..4]) == |r.frame.value|
  {
    var r := ReadFrameSpec(buf, chunks);
    if r.frame.Some? {
      var s := buf + Flatten(chunks);
      ReadFrameTakesFirstFrame(buf, chunks);
      FlattenSplit(chunks, r.taken);
      var received := buf + Flatten(chunks[..r.taken]);
      SplitFrame(received, Flatten(chunks[r.taken..]), s, r.frame.value, r.buf);
    }
  }

  /** The byte-level step of `ReadFrameConserves`. */
  lemma SplitFrame(received: seq<byte>, unreceived: seq<byte>, s: seq<byte>, frame: seq<byte>, rest: seq<byte>)
    requires s == received + unreceived && 4 + |frame| <= |s|
    requires frame == s[4..4 + |frame|] && rest + unreceived == s[4 + |frame|..]
    ensures 4 <= |received| && received[..4] == s[..4]
    ensures received == s[..4] + frame + rest
  {
    assert s == s[..4] + frame + s[4 + |frame|..];
    assert received + unreceived == (s[..4] + frame + rest) + unreceived;
    CancelRight(received, s[..4] + frame + rest, unreceived);
  }

  /** A zero-byte receive ends the call with `None`: then every pending chunk
      has been received, and the buffer keeps the bytes received so far, minus
      the header when one had been parsed. */
  lemma ReadFrameEndOfStream(buf: seq<byte>, chunks: seq<seq<byte>>)
    ensures var s := buf + Flatten(chunks); var r := ReadFrameSpec(buf, chunks);
      r.frame.None? ==>
        r.taken == |chunks| && r.buf == (if |s| < 4 then s else s[4..])
  {
    var s := buf + Flatten(chunks);
    var h := Fill(buf, chunks, 4);
    FillConserves(buf, chunks, 4);
    if h.complete {
      var rest := chunks[h.taken..];
      SplitPrefix(h.buf, Flatten(rest), s, 4);
      var len := FromBigEndian32(h.buf[..4]);
      var p := Fill(h.buf[4..], rest, len);
      FillConserves(h.buf[4..], rest, len);
      assert rest[|rest|..] == [];
    } else {
      assert chunks[|chunks|..] == [];
    }
  }

  /** Receives stop as soon as the frame is complete: without the last chunk
      received, the bytes would not have held the header and the payload. */
  lemma ReadFrameReceivesNoMore(buf: seq<byte>, chunks: seq<seq<byte>>)
    ensures var r := ReadFrameSpec(buf, chunks);
      r.frame.Some? && r.taken > 0 ==>
        |buf + Flatten(chunks[..r.taken - 1])| < 4 + |r.frame.value|
  {
    var h := Fill(buf, chunks, 4);
    if !h.complete {
      assert ReadFrameSpec(buf, chunks).frame == None;
    } else {
      var len := FromBigEndian32(h.buf[..4]);
      var rest := chunks[h.taken..];
      var p := Fill(h.buf[4..], rest, len);
      if !p.complete {
        assert ReadFrameSpec(buf, chunks).frame == None;
      } else {
        var r := Read(Some(p.buf[..len]), p.buf[len..], h.taken + p.taken);
        assert ReadFrameSpec(buf, chunks) == r;
        if p.taken > 0 {
          var x, y := Flatten(chunks[..h.taken]), Flatten(rest[..p.taken - 1]);
          assert Flatten(chunks[..r.taken - 1]) == x + y by {
            assert chunks[..h.taken + p.taken - 1] == chunks[..h.taken] + rest[..p.taken - 1];
            FlattenAppend(chunks[..h.taken], rest[..p.taken - 1]);
          }
          assert h.buf == buf + x by {
            FillReceives(buf, chunks, 4);
          }
          assert |h.buf[4..] + y| < len by {
            FillReceives(h.buf[4..], rest, len);
          }
        } else if h.taken > 0 {
          FillReceives(buf, chunks, 4);
        }
      }
    }
  }

  /** A header announcing length 0 yields the empty payload, and no chunk is
      received after the header is complete. */
  lemma ReadFrameZeroLength(buf: seq<byte>, chunks: seq<seq<byte>>)
    requires 4 <= |buf + Flatten(chunks)| && HeaderLength(buf + Flatten(chunks)) == 0
    ensures var r := ReadFrameSpec(buf, chunks);
      r.frame == Some([]) && r.taken == Fill(buf, chunks, 4).taken
  {
    var s := buf + Flatten(chunks);
    var h := Fill(buf, chunks, 4);
    FillConserves(buf, chunks, 4);
    assert h.buf[..4] == s[..4];
  }

  /** Decoding a stream that starts with the encoding of `payload` returns
      `payload` and leaves exactly the bytes that followed it. */
  lemma ReadFrameRoundTrip(payload: seq<byte>, rest: seq<byte>, buf: seq<byte>, chunks: seq<seq<byte>>)
    requires ValidChunks(chunks)
    requires |payload| < Uint32Limit
    requires buf + Flatten(chunks) == VideoSender.EncodeFrame(payload).value + rest
    ensures var r := ReadFrameSpec(buf, chunks);
      r.frame == Some(payload) && r.buf + Flatten(chunks[r.taken..]) == rest
  {
    var s := buf + Flatten(chunks);
    var msg := VideoSender.EncodeFrame(payload).value;
    assert s[..4] == msg[..4];
    assert s[4..4 + |payload|] == msg[4..];
    assert s[4 + |payload|..] == rest;
    ReadFrameTakesFirstFrame(buf, chunks);
  }

  /** The connection's receiving end: the chunks the peer has sent that
      have not been received yet. Once they are all received the peer has
      closed, and every further `recv` returns zero bytes. */
  class Connection {
    var pending: seq<seq<byte>>

    ghost predicate Valid()
      reads this
    {
      ValidChunks(pending)
    }

    constructor (chunks: seq<seq<byte>>)
      requires ValidChunks(chunks)
      ensures Valid() && pending == chunks
    {
      pending := chunks;
    }

    /** `conn.recv(4096)`: the next chunk, or zero bytes when the peer has closed. */
    method Recv() returns (packet: seq<byte>)
      requires Valid()
      modifies this
      ensures Valid()
      ensures old(pending) == [] ==> packet == [] && pending == []
      ensures old(pending) != [] ==>
        packet == old(pending)[0] && pending == old(pending)[1..]
      ensures |packet| <= RecvSize
    {
      if pending == [] {
        packet := [];
      } else {
        packet := pending[0];
        pending := pending[1..];
      }
    }
  }

  /** Listens for one sender and reads length-prefixed frames from it. */
  class SocketVideoClient {
    const host: string
    const port: int
    var conn: Connection?
    /** Bytes received and not yet consumed by a frame. */
    var data: seq<byte>

    constructor (host: string := "0.0.0.0", port: int := 5000)
      ensures this.host == host && this.port == port
      ensures conn == null && data == []
    {
      this.host := host;
      this.port := port;
      conn := null;
      data := [];
    }

    /** `connect`: the connection accepted from the sender becomes `conn`;
        the buffer is left as it is. */
    method Connect(accepted: Connection)
      modifies this`conn
      ensures conn == accepted && data == old(data)
    {
      conn := accepted;
    }

    /** One of the two receive loops of `read_frame`: receive chunks into
        the buffer until it holds `need` bytes; `false` when a receive
        returned zero bytes first. */
    method ReceiveUntil(need: nat) returns (complete: bool)
      requires conn != null && conn.Valid()
      modifies this`data, conn
      ensures conn == old(conn) && conn.Valid()
      ensures var f := Fill(old(data), old(conn.pending), need);
        complete == f.complete && data == f.buf && conn.pending == old(conn.pending)[f.taken..]
    {
      ghost var chunks := conn.pending;
      ghost var f := Fill(data, chunks, need);
      ghost var k := 0;
      while |data| < need
        invariant 0 <= k <= f.taken && conn.pending == chunks[k..]
        invariant conn.Valid()
        invariant Fill(data, conn.pending, need) == Filled(f.buf, f.taken - k, f.complete)
        decreases |conn.pending|
      {
        FillStep(data, conn.pending, need);
        var packet := conn.Recv();
        if packet == [] {
          return false;
        }
        assert chunks[k..][1..] == chunks[k + 1..];
        data := data + packet;
        k := k + 1;
      }
      return true;
    }

    /** `read_frame`: the next frame's payload, or `None` once the sender
        has closed the connection before a whole frame arrived. */
    method ReadFrame() returns (frame: Option<seq<byte>>)
      requires conn != null && conn.Valid()
      modifies this`data, conn
      ensures conn == old(conn) && conn.Valid()
      ensures var r := ReadFrameSpec(old(data), old(conn.pending));
        frame == r.frame && data == r.buf && conn.pending == old(conn.pending)[r.taken..]
    {
      ghost var chunks := conn.pending;
      ghost var h := Fill(data, chunks, 4);
      var headerComplete := ReceiveUntil(4);
      if !headerComplete {
        return None;
      }
      var msgLen := FromBigEndian32(data[..4]);
      data := data[4..];
      var payloadComplete := ReceiveUntil(msgLen);
      assert chunks[h.taken..][|chunks[h.taken..]| - |conn.pending|..] == conn.pending;
      if !payloadComplete {
        return None;
      }
      frame := Some(data[..msgLen]);
      data := data[msgLen..];
    }

    /** The consumer loop of a session: read frames until `read_frame`
        returns `None`. The frames are those `ReadAll` decodes. */
    method ReadUntilEnd() returns (frames: seq<seq<byte>>)
      requires conn != null && conn.Valid()
      modifies this`data, conn
      ensures conn.Valid() && conn.pending == []
      ensures frames == ReadAll(old(data), old(conn.pending))
      ensures data == ReadAllRest(old(data), old(conn.pending))
    {
      frames := [];
      ghost var all := ReadAll(data, conn.pending);
      ghost var rest := ReadAllRest(data, conn.pending);
      while true
        invariant conn.Valid()
        invariant frames + ReadAll(data, conn.pending) == all
        invariant ReadAllRest(data, conn.pending) == rest
        decreases |data| + |Flatten(conn.pending)|
      {
        ghost var before, pendingBefore := data, conn.pending;
        var frame := ReadFrame();
        ReadFrameEndOfStream(before, pendingBefore);
        if frame.None? {
          break;
        }
        ReadFrameShortens(before, pendingBefore);
        frames := frames + [frame.value];
      }
    }
  }

  /** A successful read consumes at least the 4 header bytes of the stream. */
  lemma ReadFrameShortens(buf: seq<byte>, chunks: seq<seq<byte>>)
    ensures var r := ReadFrameSpec(buf, chunks);
      r.frame.Some? ==>
        |r.buf| + |Flatten(chunks[r.taken..])| + 4 <= |buf| + |Flatten(chunks)|
  {
    ReadFrameTakesFirstFrame(buf, chunks);
  }

  /** Every frame `read_frame` returns when called until it returns `None`. */
  function ReadAll(buf: seq<byte>, chunks: seq<seq<byte>>): (frames: seq<seq<byte>>)
    ensures 4 * |frames| <= |buf| + |Flatten(chunks)|
    decreases |buf| + |Flatten(chunks)|
  {
    var r := ReadFrameSpec(buf, chunks);
    if r.frame.None? then []
    else
      ReadFrameShortens(buf, chunks);
      [r.frame.value] + ReadAll(r.buf, chunks[r.taken..])
  }

  /** The buffer `read_frame` leaves behind when called until it returns
      `None`: a suffix of the available stream, namely the bytes after the
      last whole frame, minus a header that had been parsed. */
  function ReadAllRest(buf: seq<byte>, chunks: seq<seq<byte>>): (rest: seq<byte>)
    ensures var s := buf + Flatten(chunks); |rest| <= |s| && rest == s[|s| - |rest|..]
    decreases |buf| + |Flatten(chunks)|
  {
    var r := ReadFrameSpec(buf, chunks);
    ReadFrameEndOfStream(buf, chunks);
    if r.frame.None? then
      assert chunks[r.taken..] == [];
      r.buf
    else
      ReadFrameShortens(buf, chunks);
      ReadFrameTakesFirstFrame(buf, chunks);
      ReadAllRest(r.buf, chunks[r.taken..])
  }

  /** Reading until end of stream from a stream made of the messages of
      `payloads` (however the bytes are split into chunks) gives back the
      payloads, in order. */
  lemma {:induction false} ReadAllRoundTrip(payloads: seq<seq<byte>>, buf: seq<byte>, chunks: seq<seq<byte>>)
    requires ValidChunks(chunks) && VideoSender.AllFit(payloads)
    requires buf + Flatten(chunks) == VideoSender.Messages(payloads)
    ensures ReadAll(buf, chunks) == payloads && ReadAllRest(buf, chunks) == []
    decreases |payloads|
  {
    var r := ReadFrameSpec(buf, chunks);
    if payloads == [] {
      ReadFrameTakesFirstFrame(buf, chunks);
      ReadFrameEndOfStream(buf, chunks);
    } else {
      var rest := VideoSender.Messages(payloads[1..]);
      ReadFrameRoundTrip(payloads[0], rest, buf, chunks);
      ReadAllRoundTrip(payloads[1..], r.buf, chunks[r.taken..]);
    }
  }

  /** A stream cut inside its last message, as a send interrupted part-way
      leaves it: reading until end of stream gives back the payloads of the
      whole messages before the cut, and then `None`. */
  lemma {:induction false} ReadAllTruncated(payloads: seq<seq<byte>>, last: seq<byte>, cut: nat, buf: seq<byte>, chunks: seq<seq<byte>>)
    requires ValidChunks(chunks) && VideoSender.AllFit(payloads) && |last| < Uint32Limit
    requires cut < 4 + |last|
    requires buf + Flatten(chunks) == VideoSender.Messages(payloads) + VideoSender.EncodeFrame(last).value[..cut]
    ensures ReadAll(buf, chunks) == payloads
    ensures var partial := VideoSender.EncodeFrame(last).value[..cut];
      ReadAllRest(buf, chunks) == if cut < 4 then partial else partial[4..]
    decreases |payloads|
  {
    var r := ReadFrameSpec(buf, chunks);
    var partial := VideoSender.EncodeFrame(last).value[..cut];
    if payloads == [] {
      var s := buf + Flatten(chunks);
      assert s == partial;
      if 4 <= |s| {
        assert s[..4] == VideoSender.EncodeFrame(last).value[..4];
      }
      ReadFrameTakesFirstFrame(buf, chunks);
      ReadFrameEndOfStream(buf, chunks);
    } else {
      var rest := VideoSender.Messages(payloads[1..]) + partial;
      assert buf + Flatten(chunks) == VideoSender.EncodeFrame(payloads[0]).value + rest;
      ReadFrameRoundTrip(payloads[0], rest, buf, chunks);
      ReadAllTruncated(payloads[1..], last, cut, r.buf, chunks[r.taken..]);
    }
  }

  /** End to end: whatever the send loop writes, split into chunks in any
      way, the receiver reads back the encoded frames in capture order up to
      where the sender stopped, and then reports end of stream. */
  lemma SenderToReceiver(cs: seq<VideoSender.Capture>, chunks: seq<seq<byte>>)
    requires ValidChunks(chunks)
    requires Flatten(chunks) == VideoSender.Messages(VideoSender.FitPrefix(VideoSender.Payloads(cs)))
    ensures ReadAll([], chunks) == VideoSender.FitPrefix(VideoSender.Payloads(cs))
  {
    ReadAllRoundTrip(VideoSender.FitPrefix(VideoSender.Payloads(cs)), [], chunks);
  }
}
