# Length-prefixed video frame transport

This project models the frame transport of the exercise-correction system.
A sender captures camera frames and JPEG-encodes them. It writes each one to a
TCP socket as a 4-byte big-endian unsigned length `L` followed by the `L`
encoded bytes. The receiver (`SocketVideoClient`) keeps a byte buffer across
calls. Its `read_frame` receives chunks until a header is complete, parses and
strips the header, then receives chunks until the payload is complete. It
returns the payload and keeps the surplus bytes for the next call. It returns
`None` as soon as a receive yields zero bytes.

Modules, one per source file plus a shared vocabulary:

- `Wire` (`wire.dfy`): the `byte` type, the 32-bit big-endian
  encoding of `struct.pack(">I", n)` and `struct.unpack(">I", b)` with both
  round trips, and `Flatten`, the byte stream of a sequence of chunks.
- `VideoSender` (`video_sender.dfy`): `EncodeFrame` (line 28 of the sender)
  and `RunSender`, the capture/encode/send loop of `main`. Each loop iteration
  is a `Capture` value: the read failed, the encoding failed, or the frame
  encoded to some bytes.
- `SocketVideo` (`socket_video.dfy`): the peer as a `Connection` object holding
  the chunks not yet received, and `SocketVideoClient` with its `data` buffer
  and `ReadFrame`. `ReadFrame` is proved against the specification function
  `ReadFrameSpec`, and the lemmas beside it state what the source promises.
  `ReadAll` is the sequence of frames read until end of stream. The end-to-end
  lemmas join it to the sender.

`read_frame` does not discard a partial frame at end of stream: `self.data`
keeps the bytes received so far, minus the 4 header bytes if the header had
been parsed. `ReadFrameEndOfStream` states exactly what stays buffered. The
callers in `trainer.py` and `coach.py` stop at the first `None`, so those
bytes are never read.

## Model

| member | source | states |
|---|---|---|
| `Wire.BigEndian32RoundTrip` | video_sender.py:28 | unpacking the 4 bytes that `struct.pack(">I", n)` produces gives back `n`, for every `n < 2^32` |
| `Wire.FromBigEndian32RoundTrip` | socket_video.py:44 | packing the value that `struct.unpack(">I", b)` reads from 4 bytes gives back the same 4 bytes, so every 4-byte header is some length's encoding |
| `Wire.BigEndian32` | video_sender.py:28 | `struct.pack(">I", n)` of a value below 2^32 (larger values are the `struct.pack` error of `EncodeFrame`) is 4 bytes; `BigEndian32RoundTrip` pins down their value |
| `Wire.FromBigEndian32` | socket_video.py:44 | `struct.unpack(">I", b)` on 4 bytes yields a value below 2^32; `FromBigEndian32RoundTrip` shows it is the value those bytes encode |
| `VideoSender.EncodeFrame` | video_sender.py:27-28 | a message exists exactly when the payload is shorter than 2^32 bytes (otherwise `struct.pack` raises); it is `4 + len(data)` bytes long, its first 4 bytes read big-endian give `len(data)`, and the bytes after them are the payload unchanged |
| `VideoSender.Payloads` | video_sender.py:19-27 | the payloads the loop reaches are at most one per capture, and each is the data of some successfully encoded capture; `EncodeFailureSkipped` and `ReadFailureStops` state the skip and stop rules |
| `VideoSender.EncodeFailureSkipped` | video_sender.py:24-26 | a capture whose JPEG encoding fails contributes nothing, and the captures after it are still sent |
| `VideoSender.ReadFailureStops` | video_sender.py:20-22 | the first failed `cap.read()` ends the loop: no capture after it is sent |
| `VideoSender.FitPrefix` | video_sender.py:28-29 | the payloads sent before `struct.pack` raises are the longest prefix whose payloads all fit 32 bits, and the payload right after that prefix does not fit |
| `VideoSender.RunSender` | video_sender.py:18-33 | the bytes passed to `sendall` are the messages of the encoded frames, in capture order, up to the first failed read, and up to the first payload `struct.pack` rejects; the loop ends by that exception exactly when such a payload is reached |
| `SocketVideo.Fill` | socket_video.py:38-42 | a receive loop receives at most the pending chunks; it ends complete with at least `need` bytes buffered, or incomplete after every chunk was received and with fewer than `need` bytes |
| `SocketVideo.FillReceives` | socket_video.py:48-52 | a receive loop appends the received chunks to the buffer in order, and it makes no receive once the buffer holds `need` bytes |
| `SocketVideo.FillConserves` | socket_video.py:38-42 | a receive loop loses no bytes: the buffer followed by the chunks not yet received is unchanged, so the loop completes exactly when the bytes available reach `need` |
| `SocketVideo.HeaderPhase` | socket_video.py:38-45 | the header loop completes exactly when 4 bytes are available; the length is then read from the first 4 available bytes, and those 4 bytes are stripped before the payload loop starts |
| `SocketVideo.PayloadPhase` | socket_video.py:48-55 | the payload loop completes exactly when `msg_len` bytes follow the header; the payload is the first `msg_len` of them and the rest stays buffered or pending |
| `SocketVideo.ReadFrameSpec` | socket_video.py:37-55 | `read_frame` as two receive loops around the header parse; it receives at most the pending chunks. The lemmas below state what it returns |
| `SocketVideo.ReadFrameTakesFirstFrame` | socket_video.py:37-55 | `read_frame` returns a payload exactly when the buffered and pending bytes hold a header and the whole payload it announces; the payload is the bytes after the header, and the buffer plus the pending chunks hold exactly the bytes after the frame |
| `SocketVideo.ReadFrameConserves` | socket_video.py:44-55 | on success, the old buffer followed by the received chunks equals the header, then the payload, then the new buffer; the header's big-endian value is the payload's length |
| `SocketVideo.ReadFrameEndOfStream` | socket_video.py:38-52 | a `None` result comes only after every pending chunk was received; the buffer then holds all bytes received, minus the 4 header bytes when a header had been parsed |
| `SocketVideo.ReadFrameReceivesNoMore` | socket_video.py:38-52 | on success no chunk is received beyond the one that completes the frame |
| `SocketVideo.ReadFrameZeroLength` | socket_video.py:48-54 | a header announcing length 0 yields the empty payload with no receive after the header |
| `SocketVideo.ReadFrameShortens` | socket_video.py:44-55 | a successful read consumes at least the 4 header bytes of the available stream |
| `SocketVideo.ReadFrameRoundTrip` | socket_video.py:31-55 | reading from a stream that starts with the encoding of a payload returns that payload and leaves exactly the bytes that followed the message, however the stream is split into chunks |
| `SocketVideo.ReadAll` | trainer.py:19-21 | the frames read until `read_frame` returns `None`; each one consumes at least its 4 header bytes, so there are at most a quarter as many frames as available bytes |
| `SocketVideo.ReadAllRest` | socket_video.py:38-55 | the buffer left when `read_frame` is called until it returns `None`: a suffix of the available stream (the bytes after the last whole frame, minus a header that had been parsed) |
| `SocketVideo.ReadAllRoundTrip` | socket_video.py:31-55 | reading repeatedly from a stream made of the messages of a list of payloads returns the payloads in order and then end of stream, leaving the buffer empty |
| `SocketVideo.ReadAllTruncated` | socket_video.py:38-52 | a stream that ends inside a message (fewer than its 4 header bytes, or fewer payload bytes than the header announces) yields the payloads of the whole messages before it, and then `None`; the buffer keeps the cut message's bytes, without its header if all 4 header bytes arrived |
| `SocketVideo.SenderToReceiver` | video_sender.py:19-29 | whatever the send loop writes, chunked in any way, the receiver reads back the encoded frames in capture order up to where the sender stopped |
| `SocketVideo.Connection.Recv` | socket_video.py:39 | `recv(4096)` delivers the next pending chunk of at most 4096 bytes, or zero bytes once the peer has closed |
| `SocketVideo.SocketVideoClient.constructor` | socket_video.py:12-19 | a new client keeps its host and port (defaults `"0.0.0.0"` and 5000), has no connection, and its buffer starts empty |
| `SocketVideo.SocketVideoClient.Connect` | socket_video.py:21-29 | the accepted connection becomes the client's connection; the buffer is untouched |
| `SocketVideo.SocketVideoClient.ReceiveUntil` | socket_video.py:38-42 | one receive loop of `read_frame` (the two loops are identical): the completion flag, the new buffer and the chunks still pending are those of `Fill`; the loop terminates because every iteration receives one chunk of the finite pending queue |
| `SocketVideo.SocketVideoClient.ReadFrame` | socket_video.py:31-58 | the payload, the new buffer and the chunks still pending are those of `ReadFrameSpec` |
| `SocketVideo.SocketVideoClient.ReadUntilEnd` | trainer.py:19-21 | calling `read_frame` until it returns `None` yields the frames of `ReadAll`, receives every pending chunk, and leaves in `self.data` the bytes of `ReadAllRest` |

## Left out

- Socket set-up and tear-down (`socket`, `setsockopt`, `bind`, `listen`, `accept`, `connect`, `close`) are operating-system I/O. `Connect` receives the accepted connection as a parameter.
- The peer is a finite queue of non-empty chunks of at most 4096 bytes. How the operating system splits the stream into chunks is arbitrary, and the round-trip lemmas hold for every split.
- `SocketVideo.SocketVideoClient.ReadFrame`: returns the raw payload bytes. The source passes them to `cv2.imdecode`, which is not part of this model, so a payload that does not decode (and for which the source returns `None`) is not distinguished.
- The camera (`cv2.VideoCapture`, `cap.read`) and the JPEG encoder (`cv2.imencode`) are foreign calls. Their outcomes are the `Capture` values given to `RunSender`. The end of that list counts as a failed read.
- `VideoSender.RunSender`: the `KeyboardInterrupt` handler is not modelled, because an interrupt is an asynchronous signal. An interrupt between two `sendall` calls has the effect of a shorter capture list. One that arrives inside `sendall` (video_sender.py:29) can leave a proper prefix of the next message on the wire after the messages already sent. The receiver then reads the earlier frames and returns `None` (`ReadAllTruncated`).
- `VideoSender.RunSender`: `sock.sendall(msg)` (video_sender.py:29) raises once the receiver has closed or reset the connection, which ends the loop with a third outcome besides `CaptureStopped` and `PackRaised`. The model assumes every send succeeds, so it does not capture that exit or the partial message such a send may leave.
- `SocketVideo.Connection.Recv`: `recv(4096)` (socket_video.py:39, 49) raises on a reset connection, and `read_frame` then passes the error on with `self.data` holding the bytes appended so far. The model has no reset: the peer only delivers chunks or closes.
- `time.sleep(0.05)` between frames is pacing only.
- The `print` calls (socket_video.py:13, 27, 29, 71; video_sender.py:12, 14, 33, 37) are console logging only and are not modelled.
- The `'q'` key check, pose estimation and display in the session loops of `trainer.py` and `coach.py` are user interface code. Only their read-until-`None` skeleton is modelled.
- The program has no repetition counting, scoring, baseline or reconnection code: `trainer.py:32` is a TODO. There is nothing of them to model.
- `utils.py` (floating-point angle helper, pose wrapper), `config.py` (static catalogue and JSON wrapper) and the argument-parsing entry points are not part of this model.
