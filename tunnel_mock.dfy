/** `tunnel_mock.rs`: the tunnel's length-prefixed framing. A frame is the
    payload length as two big-endian bytes followed by the payload; the
    length is narrowed with Rust `as u16`, so it wraps modulo 65536. */
module TunnelMock {
  import opened Bytes
  import opened Wrappers

  /** The bytes `encode_frame` produces for `payload`. */
  function Frame(payload: seq<byte>): (r: seq<byte>)
    ensures |r| == 2 + |payload|
    ensures BeValue(r[..2]) == |payload| % 0x1_0000
    ensures r[2..] == payload
  {
    var r := U16Be(Trunc16(|payload|)) + payload;
    assert r[..2] == U16Be(Trunc16(|payload|));
    r
  }

  /** `encode_frame`: push the two length bytes, then the payload. */
  method EncodeFrame(payload: seq<byte>) returns (out: seq<byte>)
    ensures out == Frame(payload)
  {
    out := [];
    var len := Trunc16(|payload|);
    out := out + [ByteOf(len as int / 256)];
    out := out + [ByteOf(len as int)];
    out := out + payload;
  }

  /** The length a frame header at the start of `buf` declares. */
  function DeclaredLength(buf: seq<byte>): (n: nat)
    requires |buf| >= 2
    ensures n == BeValue(buf[..2]) && n < 0x1_0000
  {
    assert buf[..2] == buf[0..2];
    Be16AtValue(buf, 0);
    Be16At(buf, 0) as int
  }

  /** `decode_frame`: the declared number of bytes after the two-byte
      prefix, or None when the prefix or the payload is incomplete. */
  function DecodeFrame(buf: seq<byte>): (r: Option<seq<byte>>)
    ensures |buf| < 2 ==> r == None
    ensures |buf| >= 2 ==> (r.None? <==> |buf| < 2 + BeValue(buf[..2]))
    ensures r.Some? ==> |buf| >= 2 && r.value == buf[2..2 + BeValue(buf[..2])]
  {
    if |buf| < 2 then None
    else
      var len := (buf[0] as int) * 256 + buf[1] as int;
      BeValue2(buf[0], buf[1]);
      assert buf[..2] == [buf[0], buf[1]];
      if |buf| < 2 + len then None
      else Some(buf[2..2 + len])
  }

  /** A frame of a payload that fits in 16 bits decodes to that payload,
      whatever bytes follow it. */
  lemma DecodeEncodedFrame(payload: seq<byte>, rest: seq<byte>)
    requires |payload| <= 0xffff
    ensures DecodeFrame(Frame(payload) + rest) == Some(payload)
  {
    var f := Frame(payload);
    var buf := f + rest;
    assert buf[..2] == f[..2];
    assert buf[2..2 + |payload|] == f[2..];
  }

  /** A longer payload has its length wrapped, and decoding gives back only
      the first `|payload| mod 65536` bytes. */
  lemma DecodeWrappedFrame(payload: seq<byte>)
    requires |payload| > 0xffff
    ensures DecodeFrame(Frame(payload)) == Some(payload[..|payload| % 0x1_0000])
  {
    var f := Frame(payload);
    var n := |payload| % 0x1_0000;
    assert f[2..2 + n] == f[2..][..n];
  }

  /** What decodes came from a frame: the buffer starts with the frame of
      the decoded payload. */
  lemma DecodedIsFramePrefix(buf: seq<byte>)
    requires DecodeFrame(buf).Some?
    ensures var p := DecodeFrame(buf).value;
      |p| <= 0xffff && 2 + |p| <= |buf| && buf[..2 + |p|] == Frame(p)
  {
    var p := DecodeFrame(buf).value;
    BeValueBound(buf[..2]);
    assert Pow256(2) == 0x1_0000;
    var f := Frame(p);
    assert BeValue(f[..2]) == BeValue(buf[..2]);
    assert f[..2] == buf[..2] by {
      BeValueInjective2(f[..2], buf[..2]);
    }
    assert buf[..2 + |p|] == buf[..2] + buf[2..2 + |p|];
    assert f == f[..2] + f[2..];
  }

  /** Two bytes are determined by their big-endian value. */
  lemma BeValueInjective2(a: seq<byte>, b: seq<byte>)
    requires |a| == 2 && |b| == 2 && BeValue(a) == BeValue(b)
    ensures a == b
  {
    assert a == [a[0], a[1]] && b == [b[0], b[1]];
    BeValue2(a[0], a[1]);
    BeValue2(b[0], b[1]);
  }
}
