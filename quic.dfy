/** The heuristic QUIC reader (hello-snapshot/src/quic.rs): variable-length
    integers (section 16 of RFC 9000), skipping a long header (section 17.2
    of RFC 9000), and collecting the data of CRYPTO frames (section 19.6 of
    RFC 9000, read here without the Offset field, as the code does). */
module Quic {
  import opened Bytes
  import opened Wrappers

  /** A decoded variable-length integer and the number of bytes it took. */
  datatype Varint = Varint(value: nat, len: nat)

  /** The encoded width a first byte announces in its two top bits. */
  function VarintWidth(b: byte): (w: nat)
    ensures w == 1 || w == 2 || w == 4 || w == 8
  {
    var prefix := b as int / 64;
    if prefix == 0 then 1 else if prefix == 1 then 2 else if prefix == 2 then 4 else 8
  }

  /** `read_varint`: nothing past the end, nothing when the announced width
      runs past the end; otherwise the low six bits of the first byte
      followed by the other bytes, big-endian. */
  function ReadVarintSpec(buf: seq<byte>, pos: nat): (r: Option<Varint>)
    ensures r.Some? ==> pos < |buf| && r.value.len == VarintWidth(buf[pos]) && pos + r.value.len <= |buf|
  {
    if pos >= |buf| then None
    else
      var w := VarintWidth(buf[pos]);
      if pos + w > |buf| then None
      else Some(Varint(VarintValue(buf, pos, w), w))
  }

  /** The `k` bytes from `pos` on, big-endian, with the two tag bits of the
      first one cleared. */
  function VarintValue(buf: seq<byte>, pos: nat, k: nat): nat
    requires 1 <= k && pos + k <= |buf|
  {
    if k == 1 then (buf[pos] % 64) as nat
    else VarintValue(buf, pos, k - 1) * 256 + buf[pos + k - 1] as nat
  }

  /** The value read is the big-endian value of the first byte's low six
      bits followed by the other bytes. */
  lemma {:induction false} VarintValueBe(buf: seq<byte>, pos: nat, k: nat)
    requires 1 <= k && pos + k <= |buf|
    ensures VarintValue(buf, pos, k) == BeValue([buf[pos] % 64] + buf[pos + 1..pos + k])
  {
    var s := [buf[pos] % 64] + buf[pos + 1..pos + k];
    if k == 1 {
      assert s == [buf[pos] % 64];
      BeValue1(buf[pos] % 64);
    } else {
      VarintValueBe(buf, pos, k - 1);
      assert s[..|s| - 1] == [buf[pos] % 64] + buf[pos + 1..pos + k - 1];
    }
  }

  /** The value depends only on the `k` bytes it is read from. */
  lemma {:induction false} VarintValueAgree(a: seq<byte>, i: nat, b: seq<byte>, j: nat, k: nat)
    requires 1 <= k && i + k <= |a| && j + k <= |b|
    requires a[i..i + k] == b[j..j + k]
    ensures VarintValue(a, i, k) == VarintValue(b, j, k)
  {
    assert a[i] == a[i..i + k][0] && b[j] == b[j..j + k][0];
    if k > 1 {
      assert a[i..i + k - 1] == a[i..i + k][..k - 1];
      assert b[j..j + k - 1] == b[j..j + k][..k - 1];
      VarintValueAgree(a, i, b, j, k - 1);
      assert a[i + k - 1] == a[i..i + k][k - 1] && b[j + k - 1] == b[j..j + k][k - 1];
    }
  }

  /** `read_varint`. */
  method ReadVarint(buf: seq<byte>, pos: nat) returns (r: Option<Varint>)
    ensures r == ReadVarintSpec(buf, pos)
  {
    if pos >= |buf| {
      return None;
    }
    var b := buf[pos];
    var prefix := b as int / 64;
    var len: nat := match prefix
      case 0 => 1
      case 1 => 2
      case 2 => 4
      case 3 => 8
      case _ => 1;
    if pos + len > |buf| {
      return None;
    }
    var value: nat := (b % 64) as nat;
    for i := 1 to len
      invariant value == VarintValue(buf, pos, i)
    {
      value := value * 256 + buf[pos + i] as nat;
    }
    return Some(Varint(value, len));
  }

  lemma BeValue1(b: byte)
    ensures BeValue([b]) == b as int
  {
    assert [b][..0] == [];
  }

  /** The largest value a width can carry: six bits fewer than its bytes. */
  function VarintLimit(w: nat): (n: nat)
    requires w >= 1
    ensures n >= 64
  {
    64 * Pow256(w - 1)
  }

  /** A decoded value fits in its width less the two tag bits (below 2^62 at most). */
  lemma VarintBound(buf: seq<byte>, pos: nat)
    requires ReadVarintSpec(buf, pos).Some?
    ensures ReadVarintSpec(buf, pos).value.value < VarintLimit(ReadVarintSpec(buf, pos).value.len)
  {
    VarintValueBound(buf, pos, VarintWidth(buf[pos]));
  }

  lemma {:induction false} VarintValueBound(buf: seq<byte>, pos: nat, k: nat)
    requires 1 <= k && pos + k <= |buf|
    ensures VarintValue(buf, pos, k) < VarintLimit(k)
  {
    if k > 1 {
      VarintValueBound(buf, pos, k - 1);
      ShiftBelow(VarintValue(buf, pos, k - 1), buf[pos + k - 1] as nat, VarintLimit(k - 1));
    }
  }

  /** A digit appended below a value under `m` stays under `256 * m`. */
  lemma ShiftBelow(x: nat, b: nat, m: nat)
    requires x < m && b < 256
    ensures x * 256 + b < m * 256
  {
    MulMono(256, x + 1, m);
  }

  // ---------------------------------------------------------------------------
  // Encoding, the inverse of `read_varint`.
  // ---------------------------------------------------------------------------

  /** The two tag bits for a width. */
  function WidthTag(w: nat): nat
  {
    if w == 1 then 0 else if w == 2 then 1 else if w == 4 then 2 else 3
  }

  /** The encoding of `v` in width `w`: the tag in the two top bits, then `v`. */
  function EncodeVarint(v: nat, w: nat): (r: seq<byte>)
    requires w == 1 || w == 2 || w == 4 || w == 8
    requires v < VarintLimit(w)
    ensures |r| == w
  {
    BeBytes(WidthTag(w) * VarintLimit(w) + v, w)
  }

  /** The first byte of an encoding holds the tag and the top six bits of
      `v`; the other bytes hold the rest of `v`. */
  lemma EncodedDigits(v: nat, w: nat)
    requires w == 1 || w == 2 || w == 4 || w == 8
    requires v < VarintLimit(w)
    ensures var e := EncodeVarint(v, w);
      e[0] as int == WidthTag(w) * 64 + v / Pow256(w - 1) && BeValue(e[1..]) == v % Pow256(w - 1)
  {
    var p := Pow256(w - 1);
    var t := WidthTag(w);
    var e := EncodeVarint(v, w);
    EncodedValue(v, w);
    BeHead(e);
    TagArith(t, v, p);
    FirstDigit(t * VarintLimit(w) + v, p, e[0] as int, BeValue(e[1..]), t * 64 + v / p, v % p);
  }

  /** The encoding's big-endian value is the tagged value, which fits the width. */
  lemma EncodedValue(v: nat, w: nat)
    requires w == 1 || w == 2 || w == 4 || w == 8
    requires v < VarintLimit(w)
    ensures BeValue(EncodeVarint(v, w)) == WidthTag(w) * VarintLimit(w) + v
  {
    var n := WidthTag(w) * VarintLimit(w) + v;
    assert Pow256(w) == 256 * Pow256(w - 1);
    TagArith(WidthTag(w), v, Pow256(w - 1));
    DivModUnique(n, Pow256(w), 0, n);
  }

  /** A byte string's value is its first byte's, scaled, plus the rest's. */
  lemma BeHead(e: seq<byte>)
    requires |e| >= 1
    ensures BeValue(e) == e[0] as int * Pow256(|e| - 1) + BeValue(e[1..])
    ensures BeValue(e[1..]) < Pow256(|e| - 1)
  {
    assert e == [e[0]] + e[1..];
    BeValueAppend([e[0]], e[1..]);
    BeValue1(e[0]);
    BeValueBound(e[1..]);
  }

  /** The tagged value fits the width, and splits at the first byte. */
  lemma TagArith(t: nat, v: nat, p: nat)
    requires t <= 3 && p > 0 && v < 64 * p
    ensures t * (64 * p) + v < 256 * p
    ensures t * (64 * p) + v == (t * 64 + v / p) * p + v % p
  {
    assert t * (64 * p) + v < (t + 1) * (64 * p);
    MulMono(64 * p, t + 1, 4);
    assert v == p * (v / p) + v % p;
    assert t * (64 * p) == (t * 64) * p;
  }

  /** Two base-`p` splittings of the same value agree. */
  lemma FirstDigit(n: int, p: int, a: int, x: int, b: int, y: int)
    requires p > 0 && 0 <= x < p && 0 <= y < p
    requires n == a * p + x && n == b * p + y
    ensures a == b && x == y
  {
    DivModUnique(n, p, a, x);
    DivModUnique(n, p, b, y);
  }

  /** The fields `read_varint` takes from an encoding: the tag from the top
      two bits, and `v` from the low six bits and the other bytes. */
  lemma EncodedFields(v: nat, w: nat)
    requires w == 1 || w == 2 || w == 4 || w == 8
    requires v < VarintLimit(w)
    ensures var e := EncodeVarint(v, w);
      e[0] as int / 64 == WidthTag(w) && BeValue([e[0] % 64] + e[1..]) == v
  {
    var p := Pow256(w - 1);
    var e := EncodeVarint(v, w);
    EncodedDigits(v, w);
    var low := e[0] % 64;
    FirstByte(e[0] as int, WidthTag(w), v, p);
    BeValueAppend([low], e[1..]);
    BeValue1(low);
    DivMod(v, p);
  }

  lemma FirstByte(b: int, t: nat, v: nat, p: nat)
    requires p > 0 && t <= 3 && v < 64 * p && b == t * 64 + v / p
    ensures b / 64 == t && b % 64 == v / p
  {
    var q := v / p;
    DivMod(v, p);
    assert (64 - q) * p == 64 * p - q * p;
    DivModUnique(b, 64, t, q);
  }

  /** Reading an encoded varint gives back the value and the width, whatever follows. */
  lemma ReadEncodedVarint(v: nat, w: nat, rest: seq<byte>)
    requires w == 1 || w == 2 || w == 4 || w == 8
    requires v < VarintLimit(w)
    ensures ReadVarintSpec(EncodeVarint(v, w) + rest, 0) == Some(Varint(v, w))
  {
    var e := EncodeVarint(v, w);
    var buf := e + rest;
    EncodedFields(v, w);
    assert buf[0] == e[0];
    assert VarintWidth(buf[0]) == w;
    assert buf[1..w] == e[1..];
    VarintValueBe(buf, 0, w);
  }

  /** `read_varint` depends only on the bytes from `pos` on. */
  lemma ReadVarintShift(a: seq<byte>, b: seq<byte>, p: nat)
    ensures ReadVarintSpec(a + b, |a| + p) == ReadVarintSpec(b, p)
  {
    if p < |b| {
      assert (a + b)[|a| + p] == b[p];
      var w := VarintWidth(b[p]);
      if p + w <= |b| {
        assert (a + b)[|a| + p..|a| + p + w] == b[p..p + w];
        VarintValueAgree(a + b, |a| + p, b, p, w);
      }
    }
  }

  /** A complete varint read from a slice of a buffer reads the same from the buffer. */
  lemma ReadVarintWithin(raw: seq<byte>, p: nat, e: seq<byte>)
    requires p + |e| <= |raw| && raw[p..p + |e|] == e
    requires ReadVarintSpec(e, 0).Some? && ReadVarintSpec(e, 0).value.len == |e|
    ensures ReadVarintSpec(raw, p) == ReadVarintSpec(e, 0)
  {
    assert e[0..|e|] == e;
    VarintValueAgree(raw, p, e, 0, |e|);
  }

  /** An encoded varint reads back wherever it sits in a buffer. */
  lemma ReadEncodedVarintAt(pre: seq<byte>, v: nat, w: nat, rest: seq<byte>)
    requires w == 1 || w == 2 || w == 4 || w == 8
    requires v < VarintLimit(w)
    ensures ReadVarintSpec(pre + EncodeVarint(v, w) + rest, |pre|) == Some(Varint(v, w))
  {
    var e := EncodeVarint(v, w);
    assert pre + e + rest == pre + (e + rest);
    ReadVarintShift(pre, e + rest, 0);
    ReadEncodedVarint(v, w, rest);
  }

  lemma DivMod(v: nat, p: nat)
    requires p > 0
    ensures v == v / p * p + v % p
  {
  }

  // ---------------------------------------------------------------------------
  // `extract_crypto_from_quic_packet`
  // ---------------------------------------------------------------------------

  /** `is_long_header`: the top bit of the first byte is set. */
  predicate IsLongHeader(first: byte)
  {
    first >= 0x80
  }

  /** Where the frames of a long-header packet start, past the version, the
      connection ids, the token and the length field; nothing when the
      packet is too short for any of them, not a long header, or version 0. */
  function FramesStart(p: seq<byte>): (r: Option<nat>)
    ensures r.Some? ==> 6 <= r.value < |p|
  {
    if |p| < 6 || !IsLongHeader(p[0]) || BeValue(p[1..5]) == 0 then None
    else
      var dcidLen := p[5] as int;
      if 6 + dcidLen > |p| then None
      else if 6 + dcidLen >= |p| then None
      else
        var scidAt := 6 + dcidLen;
        var scidLen := p[scidAt] as int;
        var tokenAt := scidAt + 1 + scidLen;
        if tokenAt > |p| then None
        else match ReadVarintSpec(p, tokenAt)
          case None => None
          case Some(tok) =>
            var lengthAt := tokenAt + tok.len;
            if lengthAt + tok.value > |p| then None
            else match ReadVarintSpec(p, lengthAt + tok.value)
              case None => None
              case Some(plen) =>
                var start := lengthAt + tok.value + plen.len;
                if start >= |p| then None else Some(start)
  }

  /** The three varints of a STREAM-like frame (id, offset, length) and its data. */
  function SkipStream(p: seq<byte>, i: nat): (r: Option<nat>)
    ensures r.Some? ==> r.value > i
  {
    match ReadVarintSpec(p, i)
    case None => None
    case Some(sid) =>
      match ReadVarintSpec(p, i + sid.len)
      case None => None
      case Some(off) =>
        match ReadVarintSpec(p, i + sid.len + off.len)
        case None => None
        case Some(dlen) => Some(i + sid.len + off.len + dlen.len + dlen.value)
  }

  predicate IsStreamType(t: nat)
  {
    t == 0x10 || t == 0x1d || t == 0x1e
  }

  /** What one frame at `idx` gives: the CRYPTO data it carries (none for a
      stream-like frame) and where the next frame starts; nothing when the
      frame type is another one or the frame is truncated. */
  function FrameStep(p: seq<byte>, idx: nat): (r: Option<(seq<byte>, nat)>)
    ensures r.Some? ==> idx < r.value.1 && |r.value.0| <= r.value.1 - idx
    ensures r.Some? && r.value.0 != [] ==> r.value.1 <= |p|
  {
    match ReadVarintSpec(p, idx)
    case None => None
    case Some(ft) =>
      var i := idx + ft.len;
      if ft.value == 0x06 then
        match ReadVarintSpec(p, i)
        case None => None
        case Some(fl) =>
          var j := i + fl.len;
          if j + fl.value <= |p| then Some((p[j..j + fl.value], j + fl.value)) else None
      else if IsStreamType(ft.value) then
        match SkipStream(p, i)
        case None => None
        case Some(next) => Some(([], next))
      else None
  }

  /** The frame walk from `idx`: the data of every CRYPTO frame, in order,
      skipping stream-like frames; any other frame type, a truncated frame
      or the end of the packet stops it. */
  function FrameScan(p: seq<byte>, idx: nat): seq<byte>
    decreases |p| - idx
  {
    if idx >= |p| then []
    else match FrameStep(p, idx)
      case None => []
      case Some((data, next)) => data + FrameScan(p, next)
  }

  /** `extract_crypto_from_quic_packet`, as a function of the packet bytes. */
  function PacketCrypto(p: seq<byte>): seq<byte>
  {
    match FramesStart(p)
    case None => []
    case Some(start) => FrameScan(p, start)
  }

  /** The CRYPTO data is never longer than what the walk passed over. */
  lemma {:induction false} FrameScanBound(p: seq<byte>, idx: nat)
    ensures |FrameScan(p, idx)| <= if idx <= |p| then |p| - idx else 0
    decreases |p| - idx
  {
    if idx < |p| {
      var step := FrameStep(p, idx);
      if step.Some? {
        FrameScanBound(p, step.value.1);
      }
    }
  }

  /** The output of `extract_crypto_from_quic_packet` is never longer than
      its input, and is empty for a short packet, a short header or version 0. */
  lemma PacketCryptoBound(p: seq<byte>)
    ensures |PacketCrypto(p)| <= |p|
    ensures |p| < 6 || !IsLongHeader(p[0]) || BeValue(p[1..5]) == 0 ==> PacketCrypto(p) == []
  {
    if FramesStart(p).Some? {
      FrameScanBound(p, FramesStart(p).value);
    }
  }

  // ---------------------------------------------------------------------------
  // Packets built from their parts.
  // ---------------------------------------------------------------------------

  /** `e` is a complete varint encoding of `v`, and nothing more. */
  predicate IsVarintOf(e: seq<byte>, v: nat)
  {
    ReadVarintSpec(e, 0) == Some(Varint(v, |e|))
  }

  /** `e` is a complete varint encoding of some value. */
  predicate IsVarint(e: seq<byte>)
  {
    ReadVarintSpec(e, 0).Some? && ReadVarintSpec(e, 0).value.len == |e|
  }

  /** Every encoding made by `EncodeVarint` is one. */
  lemma EncodedIsVarint(v: nat, w: nat)
    requires w == 1 || w == 2 || w == 4 || w == 8
    requires v < VarintLimit(w)
    ensures IsVarintOf(EncodeVarint(v, w), v)
  {
    ReadEncodedVarint(v, w, [0]);
    VarintAlone(EncodeVarint(v, w), [0], Varint(v, w));
  }

  /** A varint read whole from the front of a buffer reads the same alone. */
  lemma VarintAlone(e: seq<byte>, rest: seq<byte>, x: Varint)
    requires ReadVarintSpec(e + rest, 0) == Some(x) && x.len == |e|
    ensures ReadVarintSpec(e, 0) == Some(x)
  {
    var w := x.len;
    assert (e + rest)[0] == e[0];
    assert (e + rest)[0..w] == e[0..w];
    VarintValueAgree(e + rest, 0, e, 0, w);
  }

  /** A byte below 64 is a one-byte varint of its own value. */
  lemma SmallVarint(b: byte)
    requires b < 64
    ensures IsVarintOf([b], b as nat)
  {

  }

  /** A frame as it is laid out: a CRYPTO frame (type 0x06) with its length
      field and data, or a stream-like frame with its type, id, offset and
      length fields and data. */
  datatype Frame =
    | CryptoFrame(length: seq<byte>, data: seq<byte>)
    | StreamFrame(typ: byte, id: seq<byte>, offset: seq<byte>, length: seq<byte>, data: seq<byte>)

  /** Every field is a complete varint, and the length fields give the data length. */
  predicate FrameOk(f: Frame)
  {
    match f
    case CryptoFrame(l, d) => IsVarintOf(l, |d|)
    case StreamFrame(t, i, o, l, d) =>
      IsStreamType(t as nat) && IsVarint(i) && IsVarint(o)
      && IsVarintOf(l, |d|)
  }

  function FrameBytes(f: Frame): (r: seq<byte>)
    ensures |r| > 0
  {
    match f
    case CryptoFrame(l, d) => [0x06] + l + d
    case StreamFrame(t, i, o, l, d) => [t] + i + o + l + d
  }

  /** The CRYPTO data a frame carries. */
  function FrameData(f: Frame): seq<byte>
  {
    if f.CryptoFrame? then f.data else []
  }

  function FramesBytes(fs: seq<Frame>): (r: seq<byte>)
    ensures |r| >= |fs|
  {
    if fs == [] then [] else FrameBytes(fs[0]) + FramesBytes(fs[1..])
  }

  /** The data of the CRYPTO frames, in order. */
  function CryptoData(fs: seq<Frame>): seq<byte>
  {
    if fs == [] then [] else FrameData(fs[0]) + CryptoData(fs[1..])
  }

  /** A well-formed frame is read whole wherever it sits: its CRYPTO data,
      and the next frame right after it. */
  lemma FrameStepWithin(p: seq<byte>, n: nat, f: Frame)
    requires FrameOk(f) && n + |FrameBytes(f)| <= |p| && p[n..n + |FrameBytes(f)|] == FrameBytes(f)
    ensures FrameStep(p, n) == Some((FrameData(f), n + |FrameBytes(f)|))
  {
    if f.CryptoFrame? {
      CryptoStepWithin(p, n, f.length, f.data);
    } else {
      StreamStepWithin(p, n, f.typ, f.id, f.offset, f.length, f.data);
    }
  }

  /** A CRYPTO frame yields its data. */
  lemma CryptoStepWithin(p: seq<byte>, n: nat, l: seq<byte>, d: seq<byte>)
    requires IsVarintOf(l, |d|) && n + 1 + |l| + |d| <= |p|
    requires p[n..n + 1 + |l| + |d|] == [0x06] + l + d
    ensures FrameStep(p, n) == Some((d, n + 1 + |l| + |d|))
  {
    SliceParts(p, n, [0x06], l, d);
    SmallVarint(0x06);
    ReadVarintWithin(p, n, [0x06]);
    ReadVarintWithin(p, n + 1, l);
  }

  /** A stream-like frame yields nothing and is skipped whole. */
  lemma StreamStepWithin(p: seq<byte>, n: nat, t: byte, i: seq<byte>, o: seq<byte>, l: seq<byte>, d: seq<byte>)
    requires IsStreamType(t as nat) && IsVarint(i) && IsVarint(o) && IsVarintOf(l, |d|)
    requires n + 1 + |i| + |o| + |l| + |d| <= |p|
    requires p[n..n + 1 + |i| + |o| + |l| + |d|] == [t] + i + o + l + d
    ensures FrameStep(p, n) == Some(([], n + 1 + |i| + |o| + |l| + |d|))
  {
    StreamSlices(p, n, t, i, o, l, d);
    SkipStreamWithin(p, n + 1, i, o, l, |d|);
    SmallVarint(t);
    ReadVarintWithin(p, n, [t]);
  }

  /** Where the fields of a stream-like frame lie. */
  lemma StreamSlices(p: seq<byte>, n: nat, t: byte, i: seq<byte>, o: seq<byte>, l: seq<byte>, d: seq<byte>)
    requires n + 1 + |i| + |o| + |l| + |d| <= |p|
    requires p[n..n + 1 + |i| + |o| + |l| + |d|] == [t] + i + o + l + d
    ensures p[n..n + 1] == [t] && p[n + 1..n + 1 + |i|] == i && p[n + 1 + |i|..n + 1 + |i| + |o|] == o
    ensures p[n + 1 + |i| + |o|..n + 1 + |i| + |o| + |l|] == l
  {
    SliceParts(p, n, [t] + i + o, l, d);
    SliceParts(p, n, [t], i, o);
  }

  /** The three varints of a stream-like frame are skipped together with the data. */
  lemma SkipStreamWithin(p: seq<byte>, n: nat, i: seq<byte>, o: seq<byte>, l: seq<byte>, len: nat)
    requires IsVarint(i) && IsVarint(o) && IsVarintOf(l, len)
    requires n + |i| + |o| + |l| <= |p| && p[n..n + |i|] == i && p[n + |i|..n + |i| + |o|] == o
    requires p[n + |i| + |o|..n + |i| + |o| + |l|] == l
    ensures SkipStream(p, n) == Some(n + |i| + |o| + |l| + len)
  {
    ReadVarintWithin(p, n, i);
    ReadVarintWithin(p, n + |i|, o);
    ReadVarintWithin(p, n + |i| + |o|, l);
  }

  /** A stand-in for one step of the frame walk, `FrameStep` on some packet. */
  type Stepper = nat -> Option<(seq<byte>, nat)>

  /** `step` is `FrameStep` on `p`; the link is used only where a
      `FrameStep` term on `p` already occurs. */
  ghost predicate Steps(p: seq<byte>, step: Stepper)
  {
    forall i: nat {:trigger FrameStep(p, i)} :: step(i) == FrameStep(p, i)
  }

  /** `scan` is `FrameScan` on `p`, linked the same way. */
  ghost predicate Scans(p: seq<byte>, scan: nat -> seq<byte>)
  {
    forall i: nat {:trigger FrameScan(p, i)} :: scan(i) == FrameScan(p, i)
  }

  /** Well-formed frames read one after the other from `n` on: each step
      yields the frame's CRYPTO data and lands on the next frame. */
  predicate Walk(step: Stepper, n: nat, fs: seq<Frame>)
    decreases |fs|
  {
    fs == [] || (
      var next := n + |FrameBytes(fs[0])|;
      step(n) == Some((FrameData(fs[0]), next)) && Walk(step, next, fs[1..]))
  }

  /** `scan` goes one `step` at a time: what it yields from `i` is what the
      step yields there, then what it yields from where the step lands. */
  ghost predicate Telescopic(step: Stepper, scan: nat -> seq<byte>)
  {
    forall i: nat {:trigger step(i)} :: step(i).Some? ==> scan(i) == step(i).value.0 + scan(step(i).value.1)
  }

  /** Along a walk, a `scan` that goes one step at a time telescopes into
      the CRYPTO data of the frames walked. */
  lemma {:induction false} Telescope(step: Stepper, scan: nat -> seq<byte>, n: nat, fs: seq<Frame>)
    requires Walk(step, n, fs)
    requires Telescopic(step, scan)
    ensures scan(n) == CryptoData(fs) + scan(n + |FramesBytes(fs)|)
    decreases |fs|
  {
    if fs == [] {
      assert CryptoData(fs) + scan(n) == scan(n);
    } else {
      var m := n + |FrameBytes(fs[0])|;
      var k := m + |FramesBytes(fs[1..])|;
      Telescope(step, scan, m, fs[1..]);
      FramesCons(fs);
      Chain(scan(n), scan(m), scan(k), FrameData(fs[0]), CryptoData(fs[1..]), CryptoData(fs),
            scan(n + |FramesBytes(fs)|));
    }
  }

  /** Two concatenations joined at a shared middle. */
  lemma Chain(a: seq<byte>, mid: seq<byte>, after: seq<byte>, d: seq<byte>, rest: seq<byte>,
              all: seq<byte>, after': seq<byte>)
    requires a == d + mid && mid == rest + after && all == d + rest && after' == after
    ensures a == all + after'
  {
  }

  lemma FramesCons(fs: seq<Frame>)
    requires fs != []
    ensures |FramesBytes(fs)| == |FrameBytes(fs[0])| + |FramesBytes(fs[1..])|
    ensures CryptoData(fs) == FrameData(fs[0]) + CryptoData(fs[1..])
  {
  }

  /** The frame walk goes one step at a time. */
  lemma ScanSteps(p: seq<byte>, step: Stepper, scan: nat -> seq<byte>)
    requires Steps(p, step) && Scans(p, scan)
    ensures Telescopic(step, scan)
  {
    forall i: nat | step(i).Some?
      ensures scan(i) == step(i).value.0 + scan(step(i).value.1)
    {
      var d, next := step(i).value.0, step(i).value.1;
      assert step(i) == FrameStep(p, i);
      assert scan(i) == FrameScan(p, i) && scan(next) == FrameScan(p, next);
      FrameScanStep(p, i, d, next);
    }
  }

  /** `FrameStep` and `FrameScan` on `p`, as functions. */
  lemma LinksOf(p: seq<byte>)
    ensures Steps(p, (i: nat) => FrameStep(p, i)) && Scans(p, (i: nat) => FrameScan(p, i))
  {
  }

  /** The concatenation of the encodings of `xs`. */
  function Joined<T>(xs: seq<T>, enc: T -> seq<byte>): seq<byte>
  {
    if xs == [] then [] else enc(xs[0]) + Joined(xs[1..], enc)
  }

  /** The encodings of `xs` lie in `p` one after the other from `n` on. */
  predicate LaidOut<T>(p: seq<byte>, n: nat, xs: seq<T>, enc: T -> seq<byte>)
    decreases |xs|
  {
    xs == [] || (
      var next := n + |enc(xs[0])|;
      next <= |p| && p[n..next] == enc(xs[0]) && LaidOut(p, next, xs[1..], enc))
  }

  /** Encodings whose concatenation sits at `n` are laid out from there. */
  lemma {:induction false} LaidOutIn<T>(p: seq<byte>, n: nat, xs: seq<T>, enc: T -> seq<byte>)
    requires n + |Joined(xs, enc)| <= |p| && p[n..n + |Joined(xs, enc)|] == Joined(xs, enc)
    ensures LaidOut(p, n, xs, enc)
    decreases |xs|
  {
    if xs != [] {
      SliceHalves(p, n, enc(xs[0]), Joined(xs[1..], enc));
      LaidOutIn(p, n + |enc(xs[0])|, xs[1..], enc);
    }
  }

  lemma {:induction false} FramesJoined(fs: seq<Frame>)
    ensures FramesBytes(fs) == Joined(fs, FrameBytes)
  {
    if fs != [] {
      FramesJoined(fs[1..]);
    }
  }

  /** Frames whose bytes sit at `n` are laid out from there. */
  lemma FramesLaidOut(p: seq<byte>, n: nat, fs: seq<Frame>)
    requires n + |FramesBytes(fs)| <= |p| && p[n..n + |FramesBytes(fs)|] == FramesBytes(fs)
    ensures LaidOut(p, n, fs, FrameBytes)
  {
    FramesJoined(fs);
    LaidOutIn(p, n, fs, FrameBytes);
  }

  /** Well-formed frames laid out from `n` on are walked one by one. */
  lemma {:induction false} FramesWalk(p: seq<byte>, step: Stepper, n: nat, fs: seq<Frame>)
    requires Steps(p, step) && forall k :: 0 <= k < |fs| ==> FrameOk(fs[k])
    requires LaidOut(p, n, fs, FrameBytes)
    ensures Walk(step, n, fs)
    decreases |fs|
  {
    if fs != [] {
      FramesOkTail(fs);
      StepAt(p, step, n, fs[0]);
      FramesWalk(p, step, n + |FrameBytes(fs[0])|, fs[1..]);
    }
  }


  /** A well-formed frame at `n` is one step of the walk. */
  lemma StepAt(p: seq<byte>, step: Stepper, n: nat, f: Frame)
    requires Steps(p, step) && FrameOk(f)
    requires n + |FrameBytes(f)| <= |p| && p[n..n + |FrameBytes(f)|] == FrameBytes(f)
    ensures step(n) == Some((FrameData(f), n + |FrameBytes(f)|))
  {
    FrameStepWithin(p, n, f);
  }

  lemma FramesOkTail(fs: seq<Frame>)
    requires fs != [] && forall k :: 0 <= k < |fs| ==> FrameOk(fs[k])
    ensures FrameOk(fs[0]) && forall k :: 0 <= k < |fs[1..]| ==> FrameOk(fs[1..][k])
  {
  }


  /** One frame of the walk. */
  lemma FrameScanStep(p: seq<byte>, n: nat, data: seq<byte>, next: nat)
    requires n < |p| && FrameStep(p, n) == Some((data, next))
    ensures FrameScan(p, n) == data + FrameScan(p, next)
  {
  }

  /** A PADDING frame (type 0x00) ends the walk. */
  lemma PaddingStops(p: seq<byte>, idx: nat)
    requires idx < |p| && p[idx] == 0
    ensures FrameScan(p, idx) == []
  {
    SmallVarint(0);
    assert p[idx..idx + 1] == [0];
    ReadVarintWithin(p, idx, [0]);
  }

  /** A long header laid out field by field: the first byte, the version,
      the two connection ids with their one-byte lengths, the token with its
      varint length, and the varint packet length. */
  datatype LongHeader = LongHeader(
    first: byte, version: seq<byte>, dcid: seq<byte>, scid: seq<byte>,
    tokenLength: seq<byte>, token: seq<byte>, length: seq<byte>)

  /** A long header with a nonzero version, connection ids of at most 255
      bytes, and complete varint fields. */
  predicate HeaderOk(h: LongHeader)
  {
    IsLongHeader(h.first) && |h.version| == 4 && BeValue(h.version) != 0
    && |h.dcid| < 0x100 && |h.scid| < 0x100
    && IsVarintOf(h.tokenLength, |h.token|) && IsVarint(h.length)
  }

  function HeaderBytes(h: LongHeader): seq<byte>
    requires |h.dcid| < 0x100 && |h.scid| < 0x100
  {
    [h.first] + h.version + [|h.dcid| as byte] + h.dcid + [|h.scid| as byte] + h.scid
      + (h.tokenLength + h.token + h.length)
  }

  /** The fields of `h` where `FramesStart` reads them in `p`: the first
      byte, the version, the two id lengths, and the two varints. */
  predicate HeaderFields(h: LongHeader, p: seq<byte>)
    requires |h.dcid| < 0x100 && |h.scid| < 0x100
  {
    var t := 7 + |h.dcid| + |h.scid|;
    var u := t + |h.tokenLength| + |h.token|;
    u + |h.length| == |HeaderBytes(h)| <= |p|
    && p[0] == h.first && p[1..5] == h.version && p[5] as int == |h.dcid|
    && p[6 + |h.dcid|] as int == |h.scid|
    && p[t..t + |h.tokenLength|] == h.tokenLength && p[u..u + |h.length|] == h.length
  }

  /** A long header at the front of a packet shows its fields there. */
  lemma HeaderFieldsAt(h: LongHeader, p: seq<byte>)
    requires |h.version| == 4 && |h.dcid| < 0x100 && |h.scid| < 0x100
    requires |HeaderBytes(h)| <= |p| && p[..|HeaderBytes(h)|] == HeaderBytes(h)
    ensures HeaderFields(h, p)
  {
    var t := 7 + |h.dcid| + |h.scid|;
    IdsWithin(h, p);
    SliceParts(p, t, h.tokenLength, h.token, h.length);
  }

  /** The frames of a well-formed long header start right behind it, when
      anything follows it. */
  lemma FramesStartAfterHeader(h: LongHeader, p: seq<byte>)
    requires HeaderOk(h) && |HeaderBytes(h)| <= |p| && p[..|HeaderBytes(h)|] == HeaderBytes(h)
    ensures FramesStart(p) == if |p| == |HeaderBytes(h)| then None else Some(|HeaderBytes(h)|)
  {
    HeaderFieldsAt(h, p);
    FramesStartOfFields(h, p);
  }

  /** The same, from the fields alone. */
  lemma FramesStartOfFields(h: LongHeader, p: seq<byte>)
    requires HeaderOk(h) && HeaderFields(h, p)
    ensures FramesStart(p) == if |p| == |HeaderBytes(h)| then None else Some(|HeaderBytes(h)|)
  {
    var t := 7 + |h.dcid| + |h.scid|;
    ReadVarintWithin(p, t, h.tokenLength);
    ReadVarintWithin(p, t + |h.tokenLength| + |h.token|, h.length);
    FramesStartFrom(p, t, Varint(|h.token|, |h.tokenLength|), ReadVarintSpec(h.length, 0).value);
  }

  /** `FramesStart` once its fields are read: the fixed part, then the token
      length, the token and the packet length. */
  lemma FramesStartFrom(p: seq<byte>, t: nat, tok: Varint, plen: Varint)
    requires 6 <= |p| && IsLongHeader(p[0]) && BeValue(p[1..5]) != 0
    requires 6 + p[5] as int < |p| && t == 7 + p[5] as int + p[6 + p[5] as int] as int && t <= |p|
    requires ReadVarintSpec(p, t) == Some(tok) && t + tok.len + tok.value <= |p|
    requires ReadVarintSpec(p, t + tok.len + tok.value) == Some(plen)
    ensures var start := t + tok.len + tok.value + plen.len;
      FramesStart(p) == if start >= |p| then None else Some(start)
  {
  }

  /** The fixed part of a long header as `FramesStart` reads it. */
  lemma IdsWithin(h: LongHeader, p: seq<byte>)
    requires |h.version| == 4 && |h.dcid| < 0x100 && |h.scid| < 0x100
    requires |HeaderBytes(h)| <= |p| && p[..|HeaderBytes(h)|] == HeaderBytes(h)
    ensures var s, t := 6 + |h.dcid|, 7 + |h.dcid| + |h.scid|;
      p[0] == h.first && p[1..5] == h.version && p[5] as int == |h.dcid| && p[s] as int == |h.scid|
      && t + |h.tokenLength| + |h.token| + |h.length| == |HeaderBytes(h)|
      && p[t..|HeaderBytes(h)|] == h.tokenLength + h.token + h.length
  {
    var d := [|h.dcid| as byte] + h.dcid;
    var a := [h.first] + h.version + d;
    var ids := a + [|h.scid| as byte] + h.scid;
    var tail := h.tokenLength + h.token + h.length;
    var hb := HeaderBytes(h);
    assert hb == ids + tail && p[0..|hb|] == hb;
    SliceHalves(p, 0, ids, tail);
    SliceParts(p, 0, a, [|h.scid| as byte], h.scid);
    SliceParts(p, 0, [h.first], h.version, d);
    assert p[|a|] == p[|a|..|a| + 1][0] && p[0] == p[0..1][0] && p[5] == p[5..5 + |d|][0];
  }

  /** The walk from the first of well-formed frames, when it ends behind
      them, yields exactly their CRYPTO data. */
  lemma FramesScanAfter(p: seq<byte>, step: Stepper, scan: nat -> seq<byte>, n: nat, fs: seq<Frame>)
    requires Steps(p, step) && Scans(p, scan) && forall k :: 0 <= k < |fs| ==> FrameOk(fs[k])
    requires LaidOut(p, n, fs, FrameBytes) && scan(n + |FramesBytes(fs)|) == []
    ensures scan(n) == CryptoData(fs)
  {
    FramesWalk(p, step, n, fs);
    ScanSteps(p, step, scan);
    Telescope(step, scan, n, fs);
    DropEmpty(scan(n), CryptoData(fs), scan(n + |FramesBytes(fs)|));
  }

  /** The walk yields nothing past the end or at a frame it cannot read. */
  lemma ScanStops(p: seq<byte>, idx: nat)
    requires idx >= |p| || FrameStep(p, idx).None?
    ensures FrameScan(p, idx) == []
  {
  }

  /** One frame more of the walk from `start`: its data joins what came before. */
  lemma ScanAdvance(p: seq<byte>, start: nat, out: seq<byte>, idx: nat, data: seq<byte>, next: nat)
    requires FrameScan(p, start) == out + FrameScan(p, idx)
    requires idx < |p| && FrameStep(p, idx) == Some((data, next))
    ensures FrameScan(p, start) == (out + data) + FrameScan(p, next)
  {
    FrameScanStep(p, idx, data, next);
    Regroup(FrameScan(p, start), out, data, FrameScan(p, next));
  }

  lemma Regroup(a: seq<byte>, x: seq<byte>, d: seq<byte>, r: seq<byte>)
    requires a == x + (d + r)
    ensures a == (x + d) + r
  {
  }

  lemma DropEmpty(a: seq<byte>, d: seq<byte>, t: seq<byte>)
    requires a == d + t && t == []
    ensures a == d
  {
    assert d + [] == d;
  }

  /** `extract_crypto_from_quic_packet` on a well-formed long header followed
      by well-formed frames, then nothing or a PADDING frame: exactly the
      data of the CRYPTO frames, concatenated in order. */
  lemma PacketCryptoOfFrames(h: LongHeader, fs: seq<Frame>, rest: seq<byte>)
    requires HeaderOk(h) && forall k :: 0 <= k < |fs| ==> FrameOk(fs[k])
    requires rest == [] || rest[0] == 0
    ensures PacketCrypto(HeaderBytes(h) + FramesBytes(fs) + rest) == CryptoData(fs)
  {
    var p := HeaderBytes(h) + FramesBytes(fs) + rest;
    Middle(HeaderBytes(h), FramesBytes(fs), rest);
    FramesStartAfterHeader(h, p);
    CryptoFrom(p, |HeaderBytes(h)|, fs);
  }

  /** The same, for a packet whose frames start at `n` unless it ends there. */
  lemma CryptoFrom(p: seq<byte>, n: nat, fs: seq<Frame>)
    requires FramesStart(p) == if |p| == n then None else Some(n)
    requires forall k :: 0 <= k < |fs| ==> FrameOk(fs[k])
    requires n + |FramesBytes(fs)| <= |p| && p[n..n + |FramesBytes(fs)|] == FramesBytes(fs)
    requires n + |FramesBytes(fs)| == |p| || p[n + |FramesBytes(fs)|] == 0
    ensures PacketCrypto(p) == CryptoData(fs)
  {
    if |p| == n {
      assert fs == [];
    } else {
      FramesLaidOut(p, n, fs);
      CryptoAfterHeader(p, n, fs);
    }
  }

  /** A packet whose frames start at `n` with well-formed frames laid out
      there, ended by the end of the packet or a PADDING frame, yields their
      CRYPTO data. */
  lemma CryptoAfterHeader(p: seq<byte>, n: nat, fs: seq<Frame>)
    requires FramesStart(p) == Some(n) && forall k :: 0 <= k < |fs| ==> FrameOk(fs[k])
    requires LaidOut(p, n, fs, FrameBytes) && n + |FramesBytes(fs)| <= |p|
    requires n + |FramesBytes(fs)| == |p| || p[n + |FramesBytes(fs)|] == 0
    ensures PacketCrypto(p) == CryptoData(fs)
  {
    var e := n + |FramesBytes(fs)|;
    if e < |p| {
      PaddingStops(p, e);
    }
    LinksOf(p);
    FramesScanAfter(p, (i: nat) => FrameStep(p, i), (i: nat) => FrameScan(p, i), n, fs);
  }

  /** Three concatenated byte strings: the first two as slices, and the
      first byte of the third. */
  lemma Middle(a: seq<byte>, b: seq<byte>, c: seq<byte>)
    ensures (a + b + c)[..|a|] == a && (a + b + c)[|a|..|a| + |b|] == b
    ensures |a| + |b| == |a + b + c| || (a + b + c)[|a| + |b|] == c[0]
  {
  }


  /** The header part of `extract_crypto_from_quic_packet`. */
  method SkipLongHeader(payload: seq<byte>) returns (r: Option<nat>)
    ensures r == FramesStart(payload)
  {
    if |payload| < 6 { return None; }
    var first := payload[0];
    if !IsLongHeader(first) { return None; }
    if |payload| < 6 { return None; }
    var version := BeValue(payload[1..5]);
    if version == 0 { return None; }
    var idx := 5;
    if idx >= |payload| { return None; }
    var dcidLen := payload[idx] as int;
    idx := idx + 1;
    if idx + dcidLen > |payload| { return None; }
    idx := idx + dcidLen;
    if idx >= |payload| { return None; }
    var scidLen := payload[idx] as int;
    idx := idx + 1;
    if idx + scidLen > |payload| { return None; }
    idx := idx + scidLen;
    var tok := ReadVarint(payload, idx);
    if tok.None? { return None; }
    idx := idx + tok.value.len;
    if idx + tok.value.value > |payload| { return None; }
    idx := idx + tok.value.value;
    var plen := ReadVarint(payload, idx);
    if plen.None? { return None; }
    idx := idx + plen.value.len;
    if idx >= |payload| { return None; }
    return Some(idx);
  }

  /** The STREAM-like arm of the frame loop: id, offset and length, then the data. */
  method SkipStreamFrame(payload: seq<byte>, i: nat) returns (r: Option<nat>)
    ensures r == SkipStream(payload, i)
  {
    var idx := i;
    var sid := ReadVarint(payload, idx);
    if sid.None? {
      return None;
    }
    idx := idx + sid.value.len;
    var off := ReadVarint(payload, idx);
    if off.None? {
      return None;
    }
    idx := idx + off.value.len;
    var dlen := ReadVarint(payload, idx);
    if dlen.None? {
      return None;
    }
    idx := idx + dlen.value.len + dlen.value.value;
    return Some(idx);
  }

  /** The body of the frame loop: one frame read from `idx`. */
  method ReadFrame(payload: seq<byte>, idx0: nat) returns (r: Option<(seq<byte>, nat)>)
    ensures r == FrameStep(payload, idx0)
  {
    var idx := idx0;
    var ft := ReadVarint(payload, idx);
    if ft.None? {
      return None;
    }
    idx := idx + ft.value.len;
    if ft.value.value == 0x06 {
      var fl := ReadVarint(payload, idx);
      if fl.None? {
        return None;
      }
      idx := idx + fl.value.len;
      var flen := fl.value.value;
      if idx + flen <= |payload| {
        return Some((payload[idx..idx + flen], idx + flen));
      } else {
        return None;
      }
    } else {
      if IsStreamType(ft.value.value) {
        var next := SkipStreamFrame(payload, idx);
        if next.None? {
          return None;
        }
        return Some(([], next.value));
      }
      return None;
    }
  }

  /** The `while idx < payload.len()` frame loop. */
  method ScanFrames(payload: seq<byte>, start: nat) returns (out: seq<byte>)
    ensures out == FrameScan(payload, start)
  {
    out := [];
    var idx := start;
    while idx < |payload|
      invariant FrameScan(payload, start) == out + FrameScan(payload, idx)
      decreases |payload| - idx
    {
      var frame := ReadFrame(payload, idx);
      if frame.None? {
        ScanStops(payload, idx);
        break;
      }
      var data, next := frame.value.0, frame.value.1;
      ScanAdvance(payload, start, out, idx, data, next);
      out := out + data;
      idx := next;
    }
    ScanStops(payload, idx);
    DropEmpty(FrameScan(payload, start), out, FrameScan(payload, idx));
  }

  /** `extract_crypto_from_quic_packet`. */
  method ExtractCryptoFromQuicPacket(payload: seq<byte>) returns (out: seq<byte>)
    ensures out == PacketCrypto(payload)
  {
    var start := SkipLongHeader(payload);
    if start.None? {
      return [];
    }
    out := ScanFrames(payload, start.value);
  }

  // ---------------------------------------------------------------------------
  // `extract_crypto_from_flow`
  // ---------------------------------------------------------------------------

  /** What the flow scan takes at `pos`: the packet starting there when its
      first byte has the top bit set. */
  function FlowPiece(buf: seq<byte>, pos: nat): seq<byte>
  {
    if pos < |buf| && IsLongHeader(buf[pos]) && pos + 5 < |buf| then PacketCrypto(buf[pos..]) else []
  }

  /** The flow scan from `pos`: at every position with six bytes left, what a
      packet starting there yields, in increasing position. */
  function FlowCrypto(buf: seq<byte>, pos: nat): seq<byte>
    decreases |buf| - pos
  {
    if pos + 6 > |buf| then [] else FlowPiece(buf, pos) + FlowCrypto(buf, pos + 1)
  }

  /** One step of the flow loop: the packet at `pos`, if any. */
  method FlowStep(buf: seq<byte>, pos: nat) returns (piece: seq<byte>)
    ensures piece == FlowPiece(buf, pos)
  {
    piece := [];
    if pos < |buf| && IsLongHeader(buf[pos]) && pos + 5 < |buf| {
      var slice := buf[pos..];
      var extracted := ExtractCryptoFromQuicPacket(slice);
      if |extracted| > 0 {
        piece := extracted;
      }
    }
  }

  /** `extract_crypto_from_flow`. */
  method ExtractCryptoFromFlow(buf: seq<byte>) returns (acc: seq<byte>)
    ensures acc == FlowCrypto(buf, 0)
  {
    acc := [];
    var pos := 0;
    while pos + 6 <= |buf|
      invariant FlowCrypto(buf, 0) == acc + FlowCrypto(buf, pos)
      decreases |buf| - pos
    {
      var piece := FlowStep(buf, pos);
      assert FlowCrypto(buf, pos) == piece + FlowCrypto(buf, pos + 1);
      assert acc + (piece + FlowCrypto(buf, pos + 1)) == (acc + piece) + FlowCrypto(buf, pos + 1);
      acc := acc + piece;
      pos := pos + 1;
    }
    assert acc + [] == acc;
  }

  /** A flow shorter than six bytes yields nothing, and a flow yields the
      packet at its start followed by what the rest of the flow yields. */
  lemma FlowCryptoShape(buf: seq<byte>)
    ensures |buf| < 6 ==> FlowCrypto(buf, 0) == []
    ensures |buf| >= 6 && IsLongHeader(buf[0]) ==> FlowCrypto(buf, 0) == PacketCrypto(buf) + FlowCrypto(buf, 1)
  {
    assert buf[0..] == buf;
  }
}
