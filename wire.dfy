/** Byte-level vocabulary shared by the sender and the receiver of the video
    stream: bytes, the 4-byte big-endian unsigned length used by the wire
    format, and the concatenation of received chunks. */
module Wire {

  /** An unsigned 8-bit value, as one element of a Python `bytes` object. */
  type byte = b: int | 0 <= b < 256

  /** Values that fit the `">I"` format of `struct` are below this bound. */
  const Uint32Limit: nat := 0x1_0000_0000

  datatype Option<+T> = None | Some(value: T)

  /** `struct.pack(">I", n)`: the four bytes of `n`, most significant first. */
  function BigEndian32(n: nat): (b: seq<byte>)
    requires n < Uint32Limit
    ensures |b| == 4
  {
    BoundsOfQuotients(n);
    [n / 256 / 256 / 256, n / 256 / 256 % 256, n / 256 % 256, n % 256]
  }

  /** `struct.unpack(">I", b)[0]`: four bytes read as a big-endian unsigned integer. */
  function FromBigEndian32(b: seq<byte>): (n: nat)
    requires |b| == 4
    ensures n < Uint32Limit
  {
    ((b[0] as int * 256 + b[1]) * 256 + b[2]) * 256 + b[3]
  }

  lemma BoundsOfQuotients(n: nat)
    requires n < Uint32Limit
    ensures n / 256 < 0x100_0000
    ensures n / 256 / 256 < 0x1_0000
    ensures n / 256 / 256 / 256 < 256
  {
  }

  lemma DivModByte(x: int, y: int)
    requires 0 <= y < 256
    ensures (x * 256 + y) / 256 == x
    ensures (x * 256 + y) % 256 == y
  {
  }

  /** Packing a length and unpacking it gives the length back. */
  lemma BigEndian32RoundTrip(n: nat)
    requires n < Uint32Limit
    ensures FromBigEndian32(BigEndian32(n)) == n
  {
    var q1 := n / 256;
    var q2 := q1 / 256;
    var q3 := q2 / 256;
    assert n == q1 * 256 + n % 256;
    assert q1 == q2 * 256 + q1 % 256;
    assert q2 == q3 * 256 + q2 % 256;
  }

  /** Unpacking four bytes and packing the value gives the same four bytes. */
  lemma FromBigEndian32RoundTrip(b: seq<byte>)
    requires |b| == 4
    ensures BigEndian32(FromBigEndian32(b)) == b
  {
    var x1: int := b[0] as int * 256 + b[1];
    var x2: int := x1 * 256 + b[2];
    var n: int := x2 * 256 + b[3];
    DivModByte(x2, b[3]);
    DivModByte(x1, b[2]);
    DivModByte(b[0], b[1]);
    assert n / 256 == x2 && n % 256 == b[3];
    assert n / 256 / 256 == x1 && n / 256 % 256 == b[2];
    assert n / 256 / 256 / 256 == b[0] && n / 256 / 256 % 256 == b[1];
  }

  /** The byte stream formed by a sequence of received chunks, in order. */
  function Flatten(chunks: seq<seq<byte>>): seq<byte>
  {
    if chunks == [] then [] else chunks[0] + Flatten(chunks[1..])
  }

  /** Cutting the chunk sequence anywhere cuts the byte stream at the same place. */
  lemma {:induction false} FlattenSplit(chunks: seq<seq<byte>>, k: nat)
    requires k <= |chunks|
    ensures Flatten(chunks) == Flatten(chunks[..k]) + Flatten(chunks[k..])
  {
    if k > 0 {
      FlattenSplit(chunks[1..], k - 1);
      assert chunks[..k][0] == chunks[0];
      assert chunks[..k][1..] == chunks[1..][..k - 1];
      assert chunks[1..][k - 1..] == chunks[k..];
    } else {
      assert chunks[..k] == [] && chunks[k..] == chunks;
    }
  }

  /** The stream of `a + b` is the stream of `a` followed by the stream of `b`. */
  lemma {:induction false} FlattenAppend(a: seq<seq<byte>>, b: seq<seq<byte>>)
    ensures Flatten(a + b) == Flatten(a) + Flatten(b)
  {
    FlattenSplit(a + b, |a|);
    assert (a + b)[..|a|] == a && (a + b)[|a|..] == b;
  }
}
