/** The HTTP/2 and HTTP/3 SETTINGS extractors and their JA4-style canonical
    strings (hello-snapshot/src/ja4.rs). HTTP/2: find the connection preface
    (section 3.4 of RFC 9113), walk 9-byte frame headers (section 4.1 of
    RFC 9113) and read the first SETTINGS frame (section 6.5.1 of RFC 9113).
    HTTP/3: the first 0x04 byte followed by a varint length whose payload fits
    is read as a SETTINGS frame (section 7.2.4 of RFC 9114). */
module Ja4 {
  import opened Bytes
  import opened Text
  import opened Wrappers
  import Quic

  datatype H2Settings = H2Settings(settings: seq<(uint16, uint32)>, pseudoHeadersOrder: seq<string>)

  /** Ids and values come from varints, so they are below 2^62. */
  datatype H3Settings = H3Settings(settings: seq<(nat, nat)>, transportParams: seq<(nat, seq<byte>)>, qpack: Option<(nat, nat)>)

  // ---------------------------------------------------------------------------
  // HTTP/2
  // ---------------------------------------------------------------------------

  /** "PRI * HTTP/2.0\r\n\r\nSM\r\n\r\n", the client connection preface. */
  const Preface: seq<byte> := [
    0x50, 0x52, 0x49, 0x20, 0x2a, 0x20, 0x48, 0x54, 0x54, 0x50, 0x2f, 0x32,
    0x2e, 0x30, 0x0d, 0x0a, 0x0d, 0x0a, 0x53, 0x4d, 0x0d, 0x0a, 0x0d, 0x0a]

  predicate PrefaceAt(raw: seq<byte>, pos: nat)
  {
    pos + 24 <= |raw| && raw[pos..pos + 24] == Preface
  }

  /** The first position at or after `from` where the preface occurs. */
  function FindPreface(raw: seq<byte>, from: nat): (r: Option<nat>)
    ensures r.Some? ==> from <= r.value && PrefaceAt(raw, r.value)
    ensures r.Some? ==> forall j :: from <= j < r.value ==> !PrefaceAt(raw, j)
    ensures r.None? ==> forall j :: from <= j ==> !PrefaceAt(raw, j)
    decreases |raw| - from
  {
    if from + 24 > |raw| then None
    else if raw[from..from + 24] == Preface then Some(from)
    else FindPreface(raw, from + 1)
  }

  /** The 24-bit big-endian payload length of the frame header at `idx`. */
  function FrameLength(raw: seq<byte>, idx: nat): nat
    requires idx + 3 <= |raw|
  {
    BeValue(raw[idx..idx + 3])
  }

  /** The SETTINGS entries between `p` and `end`: a 2-byte id and a 4-byte
      value each, big-endian, as long as six bytes remain. */
  function SettingsList(raw: seq<byte>, p: nat, end: nat): seq<(uint16, uint32)>
    requires p <= end <= |raw|
    decreases end - p
  {
    if p + 6 > end then [] else [(Be16At(raw, p), Be32At(raw, p + 2))] + SettingsList(raw, p + 6, end)
  }

  /** There are `floor((end - p) / 6)` entries, and entry `k` is the id and
      value at `p + 6k`, in wire order. */
  lemma {:induction false} SettingsListEntries(raw: seq<byte>, p: nat, end: nat)
    requires p <= end <= |raw|
    ensures |SettingsList(raw, p, end)| == (end - p) / 6
    ensures forall k :: 0 <= k < |SettingsList(raw, p, end)| ==>
      SettingsList(raw, p, end)[k].0 as int == BeValue(raw[p + 6 * k..p + 6 * k + 2])
      && SettingsList(raw, p, end)[k].1 as int == BeValue(raw[p + 6 * k + 2..p + 6 * k + 6])
    decreases end - p
  {
    if p + 6 <= end {
      SettingsListEntries(raw, p + 6, end);
      Be16AtValue(raw, p);
      var r, rest := SettingsList(raw, p, end), SettingsList(raw, p + 6, end);
      assert (end - p) / 6 == (end - (p + 6)) / 6 + 1;
      forall k | 1 <= k < |r|
        ensures r[k].0 as int == BeValue(raw[p + 6 * k..p + 6 * k + 2])
          && r[k].1 as int == BeValue(raw[p + 6 * k + 2..p + 6 * k + 6])
      {
        assert r[k] == rest[k - 1];
        assert p + 6 + 6 * (k - 1) == p + 6 * k;
      }
    }
  }

  /** The frame walk from `idx`: the entries of the first SETTINGS frame whose
      payload fits in the buffer; every other frame is skipped by its header
      and payload; nothing once fewer than nine bytes remain. */
  function H2Walk(raw: seq<byte>, idx: nat): Option<seq<(uint16, uint32)>>
    decreases |raw| - idx
  {
    if idx + 9 > |raw| then None
    else
      var len := FrameLength(raw, idx);
      if raw[idx + 3] == 4 && idx + 9 + len <= |raw| then Some(SettingsList(raw, idx + 9, idx + 9 + len))
      else H2Walk(raw, idx + 9 + len)
  }

  /** `extract_h2_settings_from_bytes`, as a function of the bytes. */
  function H2Spec(raw: seq<byte>): (r: Option<H2Settings>)
    ensures (forall j :: !PrefaceAt(raw, j)) ==> r.None?
    ensures r.Some? ==> r.value.pseudoHeadersOrder == []
  {
    match FindPreface(raw, 0)
    case None => None
    case Some(pos) =>
      match H2Walk(raw, pos + 24)
      case None => None
      case Some(s) => Some(H2Settings(s, []))
  }

  /** Any settings the walk returns are the entries of a SETTINGS frame
      header at or after `idx` whose payload fits in the buffer. */
  lemma {:induction false} H2WalkFindsSettingsFrame(raw: seq<byte>, idx: nat)
    requires H2Walk(raw, idx).Some?
    ensures exists q :: (idx <= q && q + 9 <= |raw| && raw[q + 3] == 4 && q + 9 + FrameLength(raw, q) <= |raw|
                         && H2Walk(raw, idx).value == SettingsList(raw, q + 9, q + 9 + FrameLength(raw, q)))
    decreases |raw| - idx
  {
    var len := FrameLength(raw, idx);
    if !(raw[idx + 3] == 4 && idx + 9 + len <= |raw|) {
      H2WalkFindsSettingsFrame(raw, idx + 9 + len);
    }
  }

  /** `windows(24).position(..)`: the first occurrence of the preface. */
  method PrefacePosition(raw: seq<byte>) returns (r: Option<nat>)
    ensures r == FindPreface(raw, 0)
  {
    var i := 0;
    while i + 24 <= |raw|
      invariant FindPreface(raw, 0) == FindPreface(raw, i)
      decreases |raw| - i
    {
      if raw[i..i + 24] == Preface {
        return Some(i);
      }
      i := i + 1;
    }
    return None;
  }

  /** The `while p + 6 <= payload_start + len` loop. */
  method ReadSettings(raw: seq<byte>, start: nat, end: nat) returns (settings: seq<(uint16, uint32)>)
    requires start <= end <= |raw|
    ensures settings == SettingsList(raw, start, end)
  {
    settings := [];
    var p := start;
    while p + 6 <= end
      invariant start <= p <= end
      invariant SettingsList(raw, start, end) == settings + SettingsList(raw, p, end)
      decreases end - p
    {
      var id := Be16At(raw, p);
      var val := Be32At(raw, p + 2);
      assert SettingsList(raw, p, end) == [(id, val)] + SettingsList(raw, p + 6, end);
      assert settings + ([(id, val)] + SettingsList(raw, p + 6, end)) == (settings + [(id, val)]) + SettingsList(raw, p + 6, end);
      settings := settings + [(id, val)];
      p := p + 6;
    }
    assert settings + [] == settings;
  }

  /** The frame loop of `extract_h2_settings_from_bytes`, from `start`. */
  method WalkFrames(raw: seq<byte>, start: nat) returns (r: Option<seq<(uint16, uint32)>>)
    ensures r == H2Walk(raw, start)
  {
    var idx := start;
    while idx + 9 <= |raw|
      invariant H2Walk(raw, start) == H2Walk(raw, idx)
      decreases |raw| - idx
    {
      var len := (raw[idx] as int * 256 + raw[idx + 1] as int) * 256 + raw[idx + 2] as int;
      assert raw[idx..idx + 3] == [raw[idx], raw[idx + 1], raw[idx + 2]];
      BeValue3(raw[idx], raw[idx + 1], raw[idx + 2]);
      var typ := raw[idx + 3];
      if typ == 4 {
        var payloadStart := idx + 9;
        if payloadStart + len <= |raw| {
          var settings := ReadSettings(raw, payloadStart, payloadStart + len);
          return Some(settings);
        }
      }
      idx := idx + 9 + len;
    }
    return None;
  }

  /** `extract_h2_settings_from_bytes`. */
  method ExtractH2Settings(raw: seq<byte>) returns (r: Option<H2Settings>)
    ensures r == H2Spec(raw)
  {
    var pos := PrefacePosition(raw);
    if pos.None? {
      return None;
    }
    var settings := WalkFrames(raw, pos.value + 24);
    if settings.None? {
      return None;
    }
    return Some(H2Settings(settings.value, []));
  }

  // An HTTP/2 SETTINGS frame written out, and read back.

  /** One SETTINGS entry on the wire. */
  function SettingBytes(s: (uint16, uint32)): (r: seq<byte>)
    ensures |r| == 6
  {
    U16Be(s.0) + U32Be(s.1)
  }

  function SettingsBytes(ss: seq<(uint16, uint32)>): (r: seq<byte>)
    ensures |r| == 6 * |ss|
  {
    if ss == [] then [] else SettingBytes(ss[0]) + SettingsBytes(ss[1..])
  }

  /** A SETTINGS frame on stream 0 with no flags. */
  function SettingsFrame(ss: seq<(uint16, uint32)>): (r: seq<byte>)
    requires 6 * |ss| < 0x100_0000
    ensures |r| == 9 + 6 * |ss|
  {
    U24Be(6 * |ss|) + [4, 0, 0, 0, 0, 0] + SettingsBytes(ss)
  }

  /** Written entries read back, wherever they sit in the buffer. */
  lemma {:induction false} SettingsRoundTrip(raw: seq<byte>, p: nat, ss: seq<(uint16, uint32)>)
    requires p + 6 * |ss| <= |raw| && raw[p..p + 6 * |ss|] == SettingsBytes(ss)
    ensures SettingsList(raw, p, p + 6 * |ss|) == ss
    decreases |ss|
  {
    if ss != [] {
      SliceParts(raw, p, U16Be(ss[0].0), U32Be(ss[0].1), SettingsBytes(ss[1..]));
      SettingsRoundTrip(raw, p + 6, ss[1..]);
      assert Be16At(raw, p) == ss[0].0 by { U16BeInjective(raw[p..p + 2], ss[0].0); }
      assert Be32At(raw, p + 2) == ss[0].1;
      assert ss == [ss[0]] + ss[1..];
    }
  }

  lemma U16BeInjective(s: seq<byte>, v: uint16)
    requires s == U16Be(v)
    ensures BeValue(s) == v as int
  {
  }

  /** The walk reads back a SETTINGS frame written at `idx`. */
  lemma H2WalkReadsFrame(raw: seq<byte>, idx: nat, ss: seq<(uint16, uint32)>)
    requires 6 * |ss| < 0x100_0000
    requires idx + 9 + 6 * |ss| <= |raw| && raw[idx..idx + 9 + 6 * |ss|] == SettingsFrame(ss)
    ensures H2Walk(raw, idx) == Some(ss)
  {
    var n := 6 * |ss|;
    SliceParts(raw, idx, U24Be(n), [4, 0, 0, 0, 0, 0], SettingsBytes(ss));
    assert FrameLength(raw, idx) == n;
    assert raw[idx + 3] == 4;
    SettingsRoundTrip(raw, idx + 9, ss);
  }

  /** A buffer that starts with the preface and a SETTINGS frame yields
      exactly that frame's entries, whatever follows. */
  lemma H2ReadsSettingsFrame(ss: seq<(uint16, uint32)>, rest: seq<byte>)
    requires 6 * |ss| < 0x100_0000
    ensures H2Spec(Preface + SettingsFrame(ss) + rest) == Some(H2Settings(ss, []))
  {
    var raw := Preface + SettingsFrame(ss) + rest;
    assert raw[0..24] == Preface;
    assert FindPreface(raw, 0) == Some(0);
    assert raw[24..24 + 9 + 6 * |ss|] == SettingsFrame(ss);
    H2WalkReadsFrame(raw, 24, ss);
  }

  // ---------------------------------------------------------------------------
  // HTTP/3
  // ---------------------------------------------------------------------------

  /** `read_varint_at` is `quic::read_varint` byte for byte; the model uses
      `Quic.ReadVarint` for both. */

  /** The id/value varint pairs from `p` while the cursor is before `end`;
      a varint that cannot be read stops the list. A pair may run past `end`
      as long as it stays in the buffer. */
  function H3Pairs(raw: seq<byte>, p: nat, end: nat): (r: seq<(nat, nat)>)
    decreases |raw| - p
  {
    if p >= end then []
    else match Quic.ReadVarintSpec(raw, p)
      case None => []
      case Some(id) =>
        match Quic.ReadVarintSpec(raw, p + id.len)
        case None => []
        case Some(v) => [(id.value, v.value)] + H3Pairs(raw, p + id.len + v.len, end)
  }

  /** The payload bounds of the frame at `i` when `i` holds 0x04 followed by
      a varint length whose payload fits in the buffer. */
  function CandidateFrame(raw: seq<byte>, i: nat): (r: Option<(nat, nat)>)
    ensures r.Some? ==> i + 1 < r.value.0 <= r.value.1 <= |raw|
  {
    if i >= |raw| || raw[i] != 4 then None
    else match Quic.ReadVarintSpec(raw, i + 1)
      case None => None
      case Some(l) => if i + 1 + l.len + l.value <= |raw| then Some((i + 1 + l.len, i + 1 + l.len + l.value)) else None
  }

  predicate H3Candidate(raw: seq<byte>, i: nat)
  {
    CandidateFrame(raw, i).Some?
  }

  /** The pairs read from the frame at a candidate position. */
  function CandidatePairs(raw: seq<byte>, i: nat): seq<(nat, nat)>
    requires H3Candidate(raw, i)
  {
    var (start, end) := CandidateFrame(raw, i).value;
    H3Pairs(raw, start, end)
  }

  /** The first candidate position at or after `from`. */
  function H3Start(raw: seq<byte>, from: nat): (r: Option<nat>)
    ensures r.Some? ==> from <= r.value && H3Candidate(raw, r.value)
    ensures r.Some? ==> forall j :: from <= j < r.value ==> !H3Candidate(raw, j)
    ensures r.None? ==> forall j :: from <= j ==> !H3Candidate(raw, j)
    decreases |raw| - from
  {
    if from >= |raw| then None
    else if H3Candidate(raw, from) then Some(from)
    else H3Start(raw, from + 1)
  }

  /** `extract_h3_settings_from_bytes`, as a function of the bytes. */
  function H3Spec(raw: seq<byte>): (r: Option<H3Settings>)
    ensures r.Some? ==> r.value.transportParams == [] && r.value.qpack.None?
  {
    match H3Start(raw, 0)
    case None => None
    case Some(i) => Some(H3Settings(CandidatePairs(raw, i), [], None))
  }

  /** The pair loop of `extract_h3_settings_from_bytes`. */
  method ReadH3Pairs(raw: seq<byte>, start: nat, end: nat) returns (settings: seq<(nat, nat)>)
    ensures settings == H3Pairs(raw, start, end)
  {
    settings := [];
    var p := start;
    while p < end
      invariant H3Pairs(raw, start, end) == settings + H3Pairs(raw, p, end)
      decreases |raw| - p
    {
      var id := Quic.ReadVarint(raw, p);
      if id.None? {
        break;
      }
      p := p + id.value.len;
      var v := Quic.ReadVarint(raw, p);
      if v.None? {
        break;
      }
      ghost var before := p - id.value.len;
      p := p + v.value.len;
      H3PairsStep(raw, before, end, id.value, v.value);
      assert settings + ([(id.value.value, v.value.value)] + H3Pairs(raw, p, end))
        == (settings + [(id.value.value, v.value.value)]) + H3Pairs(raw, p, end);
      settings := settings + [(id.value.value, v.value.value)];
    }
    assert settings + [] == settings;
  }

  /** The test at position `i` of `extract_h3_settings_from_bytes`. */
  method FrameAt(raw: seq<byte>, i: nat) returns (r: Option<(nat, nat)>)
    ensures r == CandidateFrame(raw, i)
  {
    if i >= |raw| || raw[i] != 4 {
      return None;
    }
    var l := Quic.ReadVarint(raw, i + 1);
    if l.None? {
      return None;
    }
    var start := i + 1 + l.value.len;
    if start + l.value.value <= |raw| {
      return Some((start, start + l.value.value));
    }
    return None;
  }

  /** `extract_h3_settings_from_bytes`. */
  method ExtractH3Settings(raw: seq<byte>) returns (r: Option<H3Settings>)
    ensures r == H3Spec(raw)
  {
    var i := 0;
    while i < |raw|
      invariant H3Start(raw, 0) == H3Start(raw, i)
      decreases |raw| - i
    {
      var frame := FrameAt(raw, i);
      if frame.Some? {
        var settings := ReadH3Pairs(raw, frame.value.0, frame.value.1);
        return Some(H3Settings(settings, [], None));
      }
      i := i + 1;
    }
    return None;
  }

  // An HTTP/3 SETTINGS frame written out, and read back.

  /** A varint `Quic.EncodeVarint` can write: a legal width and a value that fits it. */
  predicate Writable(x: Quic.Varint)
  {
    (x.len == 1 || x.len == 2 || x.len == 4 || x.len == 8) && x.value < Quic.VarintLimit(x.len)
  }

  /** The bytes of `x`, in its own width. */
  function Written(x: Quic.Varint): (r: seq<byte>)
    requires Writable(x)
    ensures |r| == x.len
  {
    Quic.EncodeVarint(x.value, x.len)
  }

  /** A written varint reads back, value and width, wherever it sits. */
  lemma ReadWritten(pre: seq<byte>, x: Quic.Varint, rest: seq<byte>)
    requires Writable(x)
    ensures Quic.ReadVarintSpec(pre + Written(x) + rest, |pre|) == Some(x)
  {
    Quic.ReadEncodedVarintAt(pre, x.value, x.len, rest);
  }

  predicate AllWritable(ps: seq<(Quic.Varint, Quic.Varint)>)
  {
    forall k :: 0 <= k < |ps| ==> Writable(ps[k].0) && Writable(ps[k].1)
  }

  /** Each pair written as its id, then its value. */
  function PairsBytes(ps: seq<(Quic.Varint, Quic.Varint)>): seq<byte>
    requires AllWritable(ps)
  {
    if ps == [] then [] else Written(ps[0].0) + Written(ps[0].1) + PairsBytes(ps[1..])
  }

  /** The values the written pairs carry, in order. */
  function Values(ps: seq<(Quic.Varint, Quic.Varint)>): (r: seq<(nat, nat)>)
    ensures |r| == |ps|
  {
    if ps == [] then [] else [(ps[0].0.value, ps[0].1.value)] + Values(ps[1..])
  }

  /** One step of the pair list: a readable id and value, then the rest. */
  lemma H3PairsStep(raw: seq<byte>, p: nat, end: nat, id: Quic.Varint, v: Quic.Varint)
    requires p < end
    requires Quic.ReadVarintSpec(raw, p) == Some(id) && Quic.ReadVarintSpec(raw, p + id.len) == Some(v)
    ensures H3Pairs(raw, p, end) == [(id.value, v.value)] + H3Pairs(raw, p + id.len + v.len, end)
  {
  }

  /** An id and a value at `p`, each readable on its own, read back there,
      and what follows them is left for the rest of the list. */
  lemma PairReads(raw: seq<byte>, p: nat, end: nat, x: Quic.Varint, y: Quic.Varint, a: seq<byte>, b: seq<byte>, t: seq<byte>)
    requires Quic.ReadVarintSpec(a, 0) == Some(x) && |a| == x.len
    requires Quic.ReadVarintSpec(b, 0) == Some(y) && |b| == y.len
    requires end == p + |a| + |b| + |t| <= |raw| && raw[p..end] == a + b + t
    ensures raw[p + |a| + |b|..end] == t
    ensures Quic.ReadVarintSpec(raw, p) == Some(x) && Quic.ReadVarintSpec(raw, p + x.len) == Some(y)
  {
    SliceParts(raw, p, a, b, t);
    Quic.ReadVarintWithin(raw, p, a);
    Quic.ReadVarintWithin(raw, p + |a|, b);
  }

  /** A written varint reads back on its own. */
  lemma ReadWrittenAlone(x: Quic.Varint)
    requires Writable(x)
    ensures Quic.ReadVarintSpec(Written(x), 0) == Some(x)
  {
    assert [] + Written(x) + [] == Written(x);
    ReadWritten([], x, []);
  }

  /** Varints written one after the other read back as pairs, in any widths,
      wherever they sit in the buffer. */
  lemma {:induction false} H3PairsRoundTrip(raw: seq<byte>, p: nat, ps: seq<(Quic.Varint, Quic.Varint)>, end: nat)
    requires AllWritable(ps)
    requires end == p + |PairsBytes(ps)| <= |raw| && raw[p..end] == PairsBytes(ps)
    ensures H3Pairs(raw, p, end) == Values(ps)
    decreases |ps|
  {
    if ps == [] {
      H3PairsEmpty(raw, p);
    } else {
      var x, y := ps[0].0, ps[0].1;
      assert AllWritable(ps[1..]) by {
        forall k | 0 <= k < |ps[1..]| ensures Writable(ps[1..][k].0) && Writable(ps[1..][k].1) {
          assert ps[1..][k] == ps[k + 1];
        }
      }
      var t := PairsBytes(ps[1..]);
      var a, b := Written(x), Written(y);
      assert PairsBytes(ps) == a + b + t;
      ReadWrittenAlone(x);
      ReadWrittenAlone(y);
      PairReads(raw, p, end, x, y, a, b, t);
      H3PairsStep(raw, p, end, x, y);
      H3PairsRoundTrip(raw, p + x.len + y.len, ps[1..], end);
    }
  }

  lemma H3PairsEmpty(raw: seq<byte>, p: nat)
    ensures H3Pairs(raw, p, p) == []
  {
  }

  /** A buffer that starts with 0x04, a varint length and that many bytes of
      pairs yields exactly those pairs, whatever follows. */
  lemma H3ReadsSettingsFrame(len: Quic.Varint, ps: seq<(Quic.Varint, Quic.Varint)>, rest: seq<byte>)
    requires Writable(len) && AllWritable(ps) && len.value == |PairsBytes(ps)|
    ensures H3Spec([4] + Written(len) + PairsBytes(ps) + rest) == Some(H3Settings(Values(ps), [], None))
  {
    var body := PairsBytes(ps);
    var head := [4] + Written(len);
    SettingsFrameBounds(len, body, rest);
    Quic.Middle(head, body, rest);
    SettingsFrameRead(head + body + rest, |head|, ps, |head| + |body|);
  }

  /** A candidate frame at offset 0 whose payload is written pairs yields
      exactly those pairs. */
  lemma SettingsFrameRead(raw: seq<byte>, start: nat, ps: seq<(Quic.Varint, Quic.Varint)>, end: nat)
    requires CandidateFrame(raw, 0) == Some((start, end)) && AllWritable(ps)
    requires end == start + |PairsBytes(ps)| <= |raw| && raw[start..end] == PairsBytes(ps)
    ensures H3Spec(raw) == Some(H3Settings(Values(ps), [], None))
  {
    assert H3Start(raw, 0) == Some(0);
    H3PairsRoundTrip(raw, start, ps, end);
  }

  /** 0x04, a varint length and that many bytes make a candidate frame at
      offset 0 whose payload follows the length. */
  lemma SettingsFrameBounds(len: Quic.Varint, body: seq<byte>, rest: seq<byte>)
    requires Writable(len) && len.value == |body|
    ensures CandidateFrame([4] + Written(len) + body + rest, 0) == Some((1 + len.len, 1 + len.len + |body|))
  {
    var raw := [4] + Written(len) + body + rest;
    assert raw == [4] + Written(len) + (body + rest);
    ReadWritten([4], len, body + rest);
  }

  // ---------------------------------------------------------------------------
  // Canonical strings
  // ---------------------------------------------------------------------------

  /** `format!("{}:{}", id, val)`. */
  function PairString(p: (nat, nat)): string
  {
    Decimal(p.0) + ":" + Decimal(p.1)
  }

  /** The pairs as "id:value" strings joined by "-", in order. */
  function Canonical(pairs: seq<(nat, nat)>): string
  {
    Join(seq(|pairs|, k requires 0 <= k < |pairs| => PairString(pairs[k])), '-')
  }

  function H2Pairs(h2: H2Settings): (r: seq<(nat, nat)>)
    ensures |r| == |h2.settings|
    ensures forall k :: 0 <= k < |r| ==> r[k] == (h2.settings[k].0 as nat, h2.settings[k].1 as nat)
  {
    seq(|h2.settings|, k requires 0 <= k < |h2.settings| => (h2.settings[k].0 as nat, h2.settings[k].1 as nat))
  }

  /** `ja4_h2`: the hex digest of the canonical string. */
  function Ja4H2(h2: H2Settings, md5: seq<byte> -> seq<byte>): string
  {
    HexBytes(md5(Utf8(Canonical(H2Pairs(h2)))))
  }

  /** `ja4_h3`: the hex digest of the canonical string. */
  function Ja4H3(h3: H3Settings, md5: seq<byte> -> seq<byte>): string
  {
    HexBytes(md5(Utf8(Canonical(h3.settings))))
  }

  /** A pair string is two digit runs around one colon. */
  lemma PairStringChars(p: (nat, nat))
    ensures forall c :: c in PairString(p) ==> c == ':' || IsDigit(c)
    ensures PairString(p) != []
  {
  }

  lemma PairStringInjective(p: (nat, nat), q: (nat, nat))
    requires PairString(p) == PairString(q)
    ensures p == q
  {
    assert PairString(p) == Decimal(p.0) + (":" + Decimal(p.1));
    assert PairString(q) == Decimal(q.0) + (":" + Decimal(q.1));
    DigitsAvoid(p.0, ':');
    DigitsAvoid(q.0, ':');
    SplitAtSep(Decimal(p.0), ":" + Decimal(p.1), Decimal(q.0), ":" + Decimal(q.1), ':');
    DecimalInjective(p.0, q.0);
    assert Decimal(p.1) == (":" + Decimal(p.1))[1..];
    DecimalInjective(p.1, q.1);
  }

  /** The canonical string records every pair, in order: different settings
      lists give different strings. */
  lemma CanonicalInjective(xs: seq<(nat, nat)>, ys: seq<(nat, nat)>)
    requires Canonical(xs) == Canonical(ys)
    ensures xs == ys
  {
    var a := seq(|xs|, k requires 0 <= k < |xs| => PairString(xs[k]));
    var b := seq(|ys|, k requires 0 <= k < |ys| => PairString(ys[k]));
    forall k | 0 <= k < |a| ensures '-' !in a[k] && a[k] != [] { PairStringChars(xs[k]); }
    forall k | 0 <= k < |b| ensures '-' !in b[k] && b[k] != [] { PairStringChars(ys[k]); }
    JoinInjective(a, b, '-');
    forall k | 0 <= k < |xs| ensures xs[k] == ys[k] {
      assert a[k] == b[k];
      PairStringInjective(xs[k], ys[k]);
    }
  }

  /** The canonical string is plain ASCII. */
  lemma CanonicalAscii(pairs: seq<(nat, nat)>)
    ensures IsAscii(Canonical(pairs))
  {
    var a := seq(|pairs|, k requires 0 <= k < |pairs| => PairString(pairs[k]));
    JoinChars(a, '-');
    forall k | 0 <= k < |a| ensures forall c :: c in a[k] ==> c == ':' || IsDigit(c) { PairStringChars(pairs[k]); }
    forall i | 0 <= i < |Canonical(pairs)| ensures Canonical(pairs)[i] as int < 128 {
      assert Canonical(pairs)[i] in Join(a, '-');
    }
  }

  /** The bytes `ja4_h2` hashes determine the settings list, and only it:
      the pseudo-header order plays no part. */
  lemma Ja4H2InputDeterminesSettings(x: H2Settings, y: H2Settings)
    ensures Utf8(Canonical(H2Pairs(x))) == Utf8(Canonical(H2Pairs(y))) <==> x.settings == y.settings
  {
    if Utf8(Canonical(H2Pairs(x))) == Utf8(Canonical(H2Pairs(y))) {
      CanonicalAscii(H2Pairs(x));
      CanonicalAscii(H2Pairs(y));
      Utf8AsciiInjective(Canonical(H2Pairs(x)), Canonical(H2Pairs(y)));
      CanonicalInjective(H2Pairs(x), H2Pairs(y));
      assert |x.settings| == |y.settings|;
      forall k | 0 <= k < |x.settings| ensures x.settings[k] == y.settings[k] {
        assert H2Pairs(x)[k] == H2Pairs(y)[k];
      }
    }
  }

  /** The bytes `ja4_h3` hashes determine the settings list, and only it. */
  lemma Ja4H3InputDeterminesSettings(x: H3Settings, y: H3Settings)
    ensures Utf8(Canonical(x.settings)) == Utf8(Canonical(y.settings)) <==> x.settings == y.settings
  {
    if Utf8(Canonical(x.settings)) == Utf8(Canonical(y.settings)) {
      CanonicalAscii(x.settings);
      CanonicalAscii(y.settings);
      Utf8AsciiInjective(Canonical(x.settings), Canonical(y.settings));
      CanonicalInjective(x.settings, y.settings);
    }
  }

  /** A digest is lower-case hex, two characters per digest byte. */
  lemma Ja4DigestShape(h2: H2Settings, h3: H3Settings, md5: seq<byte> -> seq<byte>)
    ensures |Ja4H2(h2, md5)| == 2 * |md5(Utf8(Canonical(H2Pairs(h2))))|
    ensures |Ja4H3(h3, md5)| == 2 * |md5(Utf8(Canonical(h3.settings)))|
    ensures forall i :: 0 <= i < |Ja4H2(h2, md5)| ==> IsLowerHex(Ja4H2(h2, md5)[i])
    ensures forall i :: 0 <= i < |Ja4H3(h3, md5)| ==> IsLowerHex(Ja4H3(h3, md5)[i])
  {
  }
}
