/** The sending side of the video stream: each captured and JPEG-encoded frame
    is written to the socket as a 4-byte big-endian length followed by the
    encoded bytes. The camera and the JPEG encoder are outside the model: each
    loop iteration is given as a `Capture` saying how reading and encoding went. */
module VideoSender {
  import opened Wire

  /** `struct.pack(">I", len(data)) + data`, or `None` where `struct.pack`
      raises because the length does not fit 32 bits. */
  function EncodeFrame(data: seq<byte>): (msg: Option<seq<byte>>)
    ensures msg.Some? <==> |data| < Uint32Limit
    ensures msg.Some? ==> |msg.value| == 4 + |data|
    ensures msg.Some? ==> FromBigEndian32(msg.value[..4]) == |data|
    ensures msg.Some? ==> msg.value[4..] == data
  {
    if |data| < Uint32Limit then
      var header := BigEndian32(|data|);
      BigEndian32RoundTrip(|data|);
      assert (header + data)[..4] == header;
      Some(header + data)
    else
      None
  }

  /** Every payload in `ps` can be framed. */
  predicate AllFit(ps: seq<seq<byte>>)
  {
    forall k :: 0 <= k < |ps| ==> |ps[k]| < Uint32Limit
  }

  /** The bytes written for the payloads `ps`, one message each, in order. */
  function Messages(ps: seq<seq<byte>>): seq<byte>
    requires AllFit(ps)
  {
    if ps == [] then [] else EncodeFrame(ps[0]).value + Messages(ps[1..])
  }

  lemma {:induction false} MessagesSnoc(ps: seq<seq<byte>>, p: seq<byte>)
    requires AllFit(ps) && |p| < Uint32Limit
    ensures AllFit(ps + [p])
    ensures Messages(ps + [p]) == Messages(ps) + EncodeFrame(p).value
  {
    if ps != [] {
      MessagesSnoc(ps[1..], p);
      assert (ps + [p])[1..] == ps[1..] + [p];
    } else {
      assert ps + [p] == [p];
    }
  }

  /** The outcome of one iteration of the capture loop: `cap.read()` failed,
      `cv2.imencode` failed, or the frame was encoded to `data`. */
  datatype Capture = ReadFailed | EncodeFailed | Encoded(data: seq<byte>)

  /** How the send loop ended: the capture failed (the `break`), or
      `struct.pack` raised on an over-long payload and the error left the loop. */
  datatype SenderExit = CaptureStopped | PackRaised

  /** The encoded payloads the loop reaches, in capture order: those of the
      captures before the first failed read, skipping failed encodings. */
  function Payloads(cs: seq<Capture>): (ps: seq<seq<byte>>)
    ensures |ps| <= |cs|
    ensures forall p :: p in ps ==> Encoded(p) in cs
  {
    if cs == [] || cs[0].ReadFailed? then []
    else if cs[0].EncodeFailed? then Payloads(cs[1..])
    else [cs[0].data] + Payloads(cs[1..])
  }

  /** No capture of `cs` failed to read. */
  predicate NoReadFailure(cs: seq<Capture>)
  {
    forall k :: 0 <= k < |cs| ==> !cs[k].ReadFailed?
  }

  /** The payloads of a run of successful reads followed by more captures are
      those of the run followed by those of the rest. */
  lemma {:induction false} PayloadsAppend(a: seq<Capture>, b: seq<Capture>)
    requires NoReadFailure(a)
    ensures Payloads(a + b) == Payloads(a) + Payloads(b)
  {
    if a == [] {
      assert a + b == b;
    } else {
      assert (a + b)[0] == a[0];
      assert (a + b)[1..] == a[1..] + b;
      PayloadsAppend(a[1..], b);
    }
  }

  /** A capture whose encoding fails sends nothing and the loop carries on. */
  lemma {:induction false} EncodeFailureSkipped(a: seq<Capture>, b: seq<Capture>)
    requires NoReadFailure(a)
    ensures Payloads(a + [EncodeFailed] + b) == Payloads(a + b)
  {
    assert a + [EncodeFailed] + b == a + ([EncodeFailed] + b);
    PayloadsAppend(a, [EncodeFailed] + b);
    PayloadsAppend(a, b);
    assert ([EncodeFailed] + b)[1..] == b;
  }

  /** The first failed read stops the loop: nothing captured after it is sent. */
  lemma {:induction false} ReadFailureStops(a: seq<Capture>, b: seq<Capture>)
    requires NoReadFailure(a)
    ensures Payloads(a + [ReadFailed] + b) == Payloads(a)
  {
    assert a + [ReadFailed] + b == a + ([ReadFailed] + b);
    PayloadsAppend(a, [ReadFailed] + b);
  }

  /** The longest prefix of `ps` whose payloads can all be framed: what is sent
      before `struct.pack` raises. */
  function FitPrefix(ps: seq<seq<byte>>): (fit: seq<seq<byte>>)
    ensures |fit| <= |ps| && fit == ps[..|fit|]
    ensures AllFit(fit)
    ensures |fit| < |ps| ==> |ps[|fit|]| >= Uint32Limit
  {
    if ps == [] || |ps[0]| >= Uint32Limit then []
    else
      var tail := FitPrefix(ps[1..]);
      assert [ps[0]] + tail == ps[..|tail| + 1];
      [ps[0]] + tail
  }

  /** The send loop of `main`: one message per encoded frame, in capture order,
      until the first failed read (or the end of `cs`, which reads as one) or
      until `struct.pack` raises. `sent` is every byte passed to `sendall`. */
  method RunSender(cs: seq<Capture>) returns (sent: seq<byte>, exit: SenderExit)
    ensures sent == Messages(FitPrefix(Payloads(cs)))
    ensures exit == PackRaised <==> !AllFit(Payloads(cs))
  {
    sent := [];
    exit := CaptureStopped;
    var i := 0;
    while i < |cs|
      invariant 0 <= i <= |cs|
      invariant NoReadFailure(cs[..i])
      invariant AllFit(Payloads(cs[..i]))
      invariant sent == Messages(Payloads(cs[..i]))
    {
      var capture := cs[i];
      if capture.ReadFailed? {
        break;
      }
      PayloadsStep(cs, i);
      i := i + 1;
      if capture.EncodeFailed? {
        continue;
      }
      var msg := EncodeFrame(capture.data);
      if msg.None? {
        exit := PackRaised;
        PackFailureStops(cs, i - 1);
        return;
      }
      MessagesSnoc(Payloads(cs[..i - 1]), capture.data);
      sent := sent + msg.value;
    }
    LoopEndPayloads(cs, i);
    FitPrefixAll(Payloads(cs));
  }

  /** One more successful read adds its payload, if it encoded, to the payloads so far. */
  lemma PayloadsStep(cs: seq<Capture>, i: nat)
    requires i < |cs| && NoReadFailure(cs[..i]) && !cs[i].ReadFailed?
    ensures NoReadFailure(cs[..i + 1])
    ensures cs[i].EncodeFailed? ==> Payloads(cs[..i + 1]) == Payloads(cs[..i])
    ensures cs[i].Encoded? ==> Payloads(cs[..i + 1]) == Payloads(cs[..i]) + [cs[i].data]
  {
    assert cs[..i + 1] == cs[..i] + [cs[i]];
    PayloadsAppend(cs[..i], [cs[i]]);
    assert [cs[i]][1..] == [];
  }

  /** A payload `struct.pack` rejects ends the loop: what was sent is the
      messages of the payloads before it, which is the fitting prefix. */
  lemma PackFailureStops(cs: seq<Capture>, i: nat)
    requires i < |cs| && NoReadFailure(cs[..i]) && AllFit(Payloads(cs[..i]))
    requires cs[i].Encoded? && |cs[i].data| >= Uint32Limit
    ensures FitPrefix(Payloads(cs)) == Payloads(cs[..i])
    ensures !AllFit(Payloads(cs))
  {
    assert cs == cs[..i] + cs[i..];
    PayloadsAppend(cs[..i], cs[i..]);
    assert cs[i..][0] == cs[i];
    assert Payloads(cs[i..]) == [cs[i].data] + Payloads(cs[i + 1..]) by {
      assert cs[i..][1..] == cs[i + 1..];
    }
    FitPrefixAfterFit(Payloads(cs[..i]), Payloads(cs[i..]));
    assert Payloads(cs)[|Payloads(cs[..i])|] == cs[i].data;
  }

  /** When the loop runs out of captures or meets a failed read, the payloads
      reached so far are all the payloads of `cs`. */
  lemma LoopEndPayloads(cs: seq<Capture>, i: nat)
    requires i <= |cs| && NoReadFailure(cs[..i])
    requires i < |cs| ==> cs[i].ReadFailed?
    ensures Payloads(cs) == Payloads(cs[..i])
  {
    if i < |cs| {
      assert cs == cs[..i] + [ReadFailed] + cs[i + 1..];
      ReadFailureStops(cs[..i], cs[i + 1..]);
    } else {
      assert cs[..i] == cs;
    }
  }

  lemma {:induction false} FitPrefixAll(ps: seq<seq<byte>>)
    requires AllFit(ps)
    ensures FitPrefix(ps) == ps
  {
    if ps != [] {
      FitPrefixAll(ps[1..]);
    }
  }

  lemma {:induction false} FitPrefixAfterFit(ps: seq<seq<byte>>, qs: seq<seq<byte>>)
    requires AllFit(ps)
    ensures FitPrefix(ps + qs) == ps + FitPrefix(qs)
  {
    if ps == [] {
      assert ps + qs == qs;
    } else {
      assert (ps + qs)[1..] == ps[1..] + qs;
      FitPrefixAfterFit(ps[1..], qs);
    }
  }
}
