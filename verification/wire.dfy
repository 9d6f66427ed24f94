/**
 * The framing used on the peer-facing socket: a 4-byte big-endian length
 * (`htonl`/`ntohl`) followed by exactly that many payload bytes.
 */
module Wire {
  import opened Types

  /** Bytes of the length header. */
  const HeaderSize: nat := 4

  /** Size of the receive buffer each connection allocates (`buf_len`). */
  const BufferSize: nat := 64 * 1024

  /** `htonl`: the four bytes of `n`, most significant first. */
  function Htonl(n: uint32): (b: seq<uint8>)
    ensures |b| == HeaderSize
  {
    [n / 0x100_0000, (n / 0x1_0000) % 0x100, (n / 0x100) % 0x100, n % 0x100]
  }

  /** `ntohl`: the value of four bytes read most significant first. */
  function Ntohl(b: seq<uint8>): uint32
    requires |b| == HeaderSize
  {
    (b[0] as int) * 0x100_0000 + (b[1] as int) * 0x1_0000 + (b[2] as int) * 0x100 + b[3]
  }

  lemma PeelHigh(n: uint32)
    ensures n == (n / 0x100_0000) * 0x100_0000 + n % 0x100_0000
  {
  }

  lemma PeelMiddle(n: uint32)
    ensures n % 0x100_0000 == ((n / 0x1_0000) % 0x100) * 0x1_0000 + n % 0x1_0000
  {
  }

  lemma PeelLow(n: uint32)
    ensures n % 0x1_0000 == ((n / 0x100) % 0x100) * 0x100 + n % 0x100
  {
  }

  /** Decoding an encoded header gives back the length. */
  lemma NtohlHtonl(n: uint32)
    ensures Ntohl(Htonl(n)) == n
  {
    PeelHigh(n);
    PeelMiddle(n);
    PeelLow(n);
  }

  /** Quotient and remainder by 256 of a number built from a quotient and a remainder. */
  lemma DivMod256(q: nat, r: nat)
    requires r < 0x100
    ensures (q * 0x100 + r) / 0x100 == q && (q * 0x100 + r) % 0x100 == r
  {
  }

  lemma DivMod65536(q: nat, r: nat)
    requires r < 0x1_0000
    ensures (q * 0x1_0000 + r) / 0x1_0000 == q
  {
  }

  lemma HighOctet(b: seq<uint8>)
    requires |b| == HeaderSize
    ensures Ntohl(b) / 0x100_0000 == b[0]
  {
    var low := (b[1] as int) * 0x1_0000 + (b[2] as int) * 0x100 + b[3];
    assert Ntohl(b) == (b[0] as int) * 0x100_0000 + low && 0 <= low < 0x100_0000;
  }

  lemma SecondOctet(b: seq<uint8>)
    requires |b| == HeaderSize
    ensures Ntohl(b) / 0x1_0000 % 0x100 == b[1]
  {
    var high := (b[0] as int) * 0x100 + b[1];
    var low := (b[2] as int) * 0x100 + b[3];
    assert Ntohl(b) == high * 0x1_0000 + low;
    DivMod65536(high, low);
    DivMod256(b[0], b[1]);
  }

  lemma ThirdOctet(b: seq<uint8>)
    requires |b| == HeaderSize
    ensures Ntohl(b) / 0x100 % 0x100 == b[2]
  {
    var top := (b[0] as int) * 0x100 + b[1];
    var high := top * 0x100 + b[2];
    assert Ntohl(b) == high * 0x100 + b[3];
    DivMod256(high, b[3]);
    DivMod256(top, b[2]);
  }

  /** Every 4-byte header is the encoding of the length it decodes to. */
  lemma HtonlNtohl(b: seq<uint8>)
    requires |b| == HeaderSize
    ensures Htonl(Ntohl(b)) == b
  {
    HighOctet(b);
    SecondOctet(b);
    ThirdOctet(b);
  }

  /**
   * The bytes `writev` sends for one frame: the header built from the frame
   * length converted to `uint32_t` (so taken modulo 2^32), then the payload.
   */
  function EncodeFrame(payload: seq<uint8>): (f: seq<uint8>)
    ensures |f| == HeaderSize + |payload|
    ensures f[HeaderSize..] == payload
    ensures |payload| < 0x1_0000_0000 ==> Ntohl(f[..HeaderSize]) == |payload|
  {
    var h := Htonl(|payload| % 0x1_0000_0000);
    NtohlHtonl(|payload| % 0x1_0000_0000);
    assert (h + payload)[..HeaderSize] == h;
    h + payload
  }

  /** What a reader can make of the front of a byte stream. */
  datatype Decoded =
    | NeedMore                                       // header or body not complete yet
    | TooLarge(length: uint32)                       // header exceeds the receive buffer
    | ZeroLength                                     // header of 0: the body read gets nothing, taken for end of file
    | Frame(payload: seq<uint8>, rest: seq<uint8>)   // one whole frame and what follows it

  /**
   * Splits one frame off the front of `s`, judging its header against the
   * buffer size; a zero header yields no frame, since the reader cannot
   * tell its empty body from the end of the stream.
   */
  function DecodeFrame(s: seq<uint8>): (d: Decoded)
    ensures d.TooLarge? ==> d.length > BufferSize
    ensures d.ZeroLength? <==> |s| >= HeaderSize && Ntohl(s[..HeaderSize]) == 0
    ensures d.Frame? ==> 0 < |d.payload| <= BufferSize && |d.rest| < |s|
  {
    if |s| < HeaderSize then NeedMore
    else
      var n := Ntohl(s[..HeaderSize]);
      if n > BufferSize then TooLarge(n)
      else if n == 0 then ZeroLength
      else if |s| - HeaderSize < n then NeedMore
      else Frame(s[HeaderSize..HeaderSize + n], s[HeaderSize + n..])
  }

  /** Round trip: a non-empty frame that fits the buffer decodes to its payload, leaving the rest untouched. */
  lemma DecodeEncode(payload: seq<uint8>, rest: seq<uint8>)
    requires 0 < |payload| <= BufferSize
    ensures DecodeFrame(EncodeFrame(payload) + rest) == Frame(payload, rest)
  {
    var s := EncodeFrame(payload) + rest;
    assert s[..HeaderSize] == EncodeFrame(payload)[..HeaderSize];
    assert s[HeaderSize..HeaderSize + |payload|] == payload;
    assert s[HeaderSize + |payload|..] == rest;
  }

  /** A byte string is its three consecutive slices put back together. */
  lemma SplitAt(s: seq<uint8>, a: nat, b: nat)
    requires a <= b <= |s|
    ensures s == s[..a] + s[a..b] + s[b..]
  {
  }

  /** Converse round trip: whatever decodes to a frame is that frame's encoding followed by the rest. */
  lemma EncodeDecode(s: seq<uint8>)
    requires DecodeFrame(s).Frame?
    ensures s == EncodeFrame(DecodeFrame(s).payload) + DecodeFrame(s).rest
  {
    var d := DecodeFrame(s);
    var h := s[..HeaderSize];
    var n := Ntohl(h);
    assert d.payload == s[HeaderSize..HeaderSize + n] && d.rest == s[HeaderSize + n..];
    assert EncodeFrame(d.payload) == h + d.payload by {
      assert |d.payload| % 0x1_0000_0000 == n;
      HtonlNtohl(h);
    }
    SplitAt(s, HeaderSize, HeaderSize + n);
  }

  /** An empty frame never decodes as a frame: its zero header is refused, whatever follows. */
  lemma EmptyFrameRefused(rest: seq<uint8>)
    ensures DecodeFrame(EncodeFrame([]) + rest) == ZeroLength
  {
    assert (EncodeFrame([]) + rest)[..HeaderSize] == EncodeFrame([]);
  }

  /** A header announcing more than the buffer holds is refused before any payload is taken. */
  lemma OversizedHeaderRefused(n: uint32, rest: seq<uint8>)
    requires n > BufferSize
    ensures DecodeFrame(Htonl(n) + rest) == TooLarge(n)
  {
    assert (Htonl(n) + rest)[..HeaderSize] == Htonl(n);
    NtohlHtonl(n);
  }
}
