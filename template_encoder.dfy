/** The ClientHello template and its wire encoder
    (hello-template/src/lib.rs): one TLS handshake record (section 5.1 of
    RFC 8446) carrying one ClientHello (section 4.1.2 of RFC 8446), and an
    optional minimal pcap file around it. */
module TemplateEncoder {
  import opened Bytes
  import opened Text
  import opened Wrappers
  import Grease

  type Random32 = s: seq<byte> | |s| == 32 witness seq(32, _ => 0 as byte)

  /** `Extension`: the closed set of extension kinds a template can list. */
  datatype Extension =
    | ServerName(host: string)
    | SupportedVersions(versions: seq<uint16>)
    | SupportedGroups(groups: seq<uint16>, greaseSlots: seq<uint16>)
    | SignatureAlgorithms(algs: seq<uint16>)
    | KeyShare(shares: seq<(uint16, seq<byte>)>)
    | Alpn(protocols: seq<string>)
    | Padding(len: nat)
    | EchOuterStub(configId: seq<byte>)
    | ApplicationSettings(protocols: seq<string>, data: seq<byte>)
    | PskKeyExchangeModes(modes: seq<byte>)
    | Unknown(typ: uint16, bytes: seq<byte>)

  /** `HelloTemplate`. */
  datatype HelloTemplate = HelloTemplate(
    tlsVersion: uint16,
    clientRandom: Option<Random32>,
    sessionId: Option<seq<byte>>,
    cipherSuites: seq<uint16>,
    compressionMethods: seq<byte>,
    extensions: seq<Extension>,
    greaseMode: Grease.GreaseMode,
    pskKeyExchangeModes: Option<seq<byte>>)

  /** `EncodedClientHello`. */
  datatype EncodedClientHello = EncodedClientHello(rawBytes: seq<byte>, pcapBytes: Option<seq<byte>>)

  /** The wall-clock time since the UNIX epoch, as `Duration` gives it. */
  type Micros = m: nat | m < 1_000_000
  datatype Timestamp = Timestamp(secs: nat, micros: Micros)

  function Zeros(n: nat): (r: seq<byte>)
    ensures |r| == n && forall i :: 0 <= i < n ==> r[i] == 0
  {
    seq(n, _ => 0 as byte)
  }

  // ---------------------------------------------------------------------------
  // The bytes each step appends, as functions of the template.
  // ---------------------------------------------------------------------------

  /** A list of 16-bit values, each written big-endian, in order. */
  function U16List(xs: seq<uint16>): (r: seq<byte>)
    ensures |r| == 2 * |xs|
  {
    if xs == [] then [] else U16List(xs[..|xs| - 1]) + U16Be(xs[|xs| - 1])
  }

  /** The key-share entries: group, 2-byte key length, key. */
  function KeyShareList(shares: seq<(uint16, seq<byte>)>): seq<byte>
  {
    if shares == [] then []
    else
      var s := shares[|shares| - 1];
      KeyShareList(shares[..|shares| - 1]) + U16Be(s.0) + U16Be(Trunc16(|s.1|)) + s.1
  }

  /** Protocol names, each as a 1-byte length and its UTF-8 bytes. */
  function ProtocolList(ps: seq<string>): seq<byte>
  {
    if ps == [] then []
    else
      var pb := Utf8(ps[|ps| - 1]);
      ProtocolList(ps[..|ps| - 1]) + [ByteOf(|pb|)] + pb
  }

  /** The extension type code written for each kind. */
  function ExtensionType(e: Extension): uint16
  {
    match e
    case ServerName(_) => 0x0000
    case SupportedVersions(_) => 0x002b
    case SupportedGroups(_, _) => 0x000a
    case SignatureAlgorithms(_) => 0x000d
    case KeyShare(_) => 0x0033
    case Alpn(_) => 0x0010
    case Padding(_) => 0x0015
    case EchOuterStub(_) => 0xfe0d
    case ApplicationSettings(_, _) => 0xff01
    case PskKeyExchangeModes(_) => 0x002d
    case Unknown(typ, _) => typ
  }

  function ServerNameData(host: string): seq<byte>
  {
    var hb := Utf8(host);
    var names := [0 as byte] + U16Be(Trunc16(|hb|)) + hb;
    U16Be(Trunc16(|names|)) + names
  }

  /** The extension data written for each kind (without type and length). */
  function ExtensionData(e: Extension): seq<byte>
  {
    match e
    case ServerName(host) => ServerNameData(host)
    case SupportedVersions(vs) => [ByteOf(|vs| * 2)] + U16List(vs)
    case SupportedGroups(gs, _) => U16Be(Trunc16(|gs| * 2)) + U16List(gs)
    case SignatureAlgorithms(algs) => U16Be(Trunc16(|algs| * 2)) + U16List(algs)
    case KeyShare(shares) =>
      var list := KeyShareList(shares);
      U16Be(Trunc16(|list|)) + list
    case Alpn(ps) =>
      var protos := ProtocolList(ps);
      U16Be(Trunc16(|protos|)) + protos
    case Padding(len) => Zeros(len)
    case EchOuterStub(configId) => configId
    case ApplicationSettings(ps, data) =>
      var protos := ProtocolList(ps);
      U16Be(Trunc16(|protos|)) + protos + data
    case PskKeyExchangeModes(modes) => [ByteOf(|modes|)] + modes
    case Unknown(_, bytes) => bytes
  }

  /** One extension on the wire: type, 2-byte data length, data. */
  function ExtensionBytes(e: Extension): seq<byte>
  {
    var data := ExtensionData(e);
    U16Be(ExtensionType(e)) + U16Be(Trunc16(|data|)) + data
  }

  /** The extension block: every extension, in template order. */
  function ExtensionsBlock(exts: seq<Extension>): seq<byte>
  {
    ConcatMap(exts, ExtensionBytes)
  }

  function RandomBytes(t: HelloTemplate): (r: seq<byte>)
    ensures |r| == 32
  {
    if t.clientRandom.Some? then t.clientRandom.value else Zeros(32)
  }

  function SessionIdBytes(t: HelloTemplate): seq<byte>
  {
    if t.sessionId.Some? then [ByteOf(|t.sessionId.value|)] + t.sessionId.value else [0]
  }

  /** The fixed-position start of the body: version, random, session id. */
  function BodyHead(t: HelloTemplate): (h: seq<byte>)
    ensures |h| == 34 + |SessionIdBytes(t)|
    ensures h[..2] == U16Be(0x0303) && h[2..34] == RandomBytes(t) && h[34..] == SessionIdBytes(t)
  {
    var a := U16Be(0x0303) + RandomBytes(t);
    assert a[..2] == U16Be(0x0303) && a[2..] == RandomBytes(t);
    var h := a + SessionIdBytes(t);
    assert h[..34] == a;
    h
  }

  /** The ClientHello body, field by field in the order `encode_client_hello` writes them. */
  function ClientHelloBody(t: HelloTemplate): seq<byte>
  {
    var exts := ExtensionsBlock(t.extensions);
    BodyHead(t)
    + U16Be(Trunc16(|t.cipherSuites| * 2)) + U16List(t.cipherSuites)
    + [ByteOf(|t.compressionMethods|)] + t.compressionMethods
    + U16Be(Trunc16(|exts|)) + exts
  }

  /** The handshake message: type 1 (ClientHello), 3-byte length, body. */
  function Handshake(t: HelloTemplate): seq<byte>
  {
    var body := ClientHelloBody(t);
    [0x01 as byte] + U24Be(|body|) + body
  }

  /** The TLS record: type 22 (handshake), version 0x0303, 2-byte length, handshake. */
  function Record(t: HelloTemplate): seq<byte>
  {
    var hs := Handshake(t);
    [22 as byte] + U16Be(0x0303) + U16Be(Trunc16(|hs|)) + hs
  }

  // ---------------------------------------------------------------------------
  // The capture file.
  // ---------------------------------------------------------------------------

  /** The 24-byte pcap global header as `encode_client_hello` writes it: the
      magic 0xd4c3b2a1 stored little-endian, then version 2.4, zone 0,
      sigfigs 0, snaplen 65535 and link type 1, all little-endian. */
  function PcapGlobalHeaderAsWritten(): (r: seq<byte>)
    ensures |r| == 24
  {
    PcapGlobalHeaderWith(0xd4c3b2a1)
  }

  /** The little-endian pcap global header that was evidently intended: the
      magic 0xa1b2c3d4 in the same byte order as the other fields, so that
      the file starts with the bytes d4 c3 b2 a1. */
  function PcapGlobalHeader(): (r: seq<byte>)
    ensures |r| == 24
  {
    PcapGlobalHeaderWith(0xa1b2c3d4)
  }

  /** The global header with a given magic: the magic, version 2.4, zone 0,
      sigfigs 0, snaplen 65535 and link type 1, each little-endian. */
  function PcapGlobalHeaderWith(magic: uint32): (r: seq<byte>)
    ensures |r| == 24
    ensures r[..4] == U32Le(magic) && r[4..6] == U16Le(2) && r[6..8] == U16Le(4)
    ensures r[16..20] == U32Le(65535) && r[20..24] == U32Le(1)
  {
    var a := U32Le(magic) + U16Le(2) + U16Le(4);
    assert a[..4] == U32Le(magic) && a[4..6] == U16Le(2) && a[6..8] == U16Le(4);
    var b := a + U32Le(0) + U32Le(0);
    assert b[..8] == a;
    var r := b + U32Le(65535) + U32Le(1);
    assert r[..16] == b && r[16..20] == U32Le(65535) && r[20..24] == U32Le(1);
    assert r[..4] == a[..4] && r[4..6] == a[4..6] && r[6..8] == a[6..8];
    r
  }

  /** The 16-byte packet record header: seconds, microseconds, captured and original length. */
  function PcapRecordHeader(ts: Timestamp, len: nat): (r: seq<byte>)
    ensures |r| == 16
    ensures r[..4] == U32Le(Trunc32(ts.secs)) && r[4..8] == U32Le(ts.micros as uint32)
    ensures r[8..12] == U32Le(Trunc32(len)) && r[12..] == U32Le(Trunc32(len))
  {
    var a := U32Le(Trunc32(ts.secs)) + U32Le(ts.micros as uint32);
    var r := a + U32Le(Trunc32(len)) + U32Le(Trunc32(len));
    assert r[..8] == a && r[8..12] == U32Le(Trunc32(len)) && r[12..] == U32Le(Trunc32(len));
    assert r[..4] == a[..4] && r[4..8] == a[4..];
    r
  }

  /** The capture file `encode_client_hello` writes around `raw`: the
      global header as written, one record header, then the record. */
  function PcapFile(raw: seq<byte>, ts: Timestamp): seq<byte>
  {
    PcapGlobalHeaderAsWritten() + PcapRecordHeader(ts, |raw|) + raw
  }

  /** The same file with the corrected global header. */
  function PcapFileIntended(raw: seq<byte>, ts: Timestamp): seq<byte>
  {
    PcapGlobalHeader() + PcapRecordHeader(ts, |raw|) + raw
  }

  /** What a pcap reader learns from a global header: the byte order the
      magic announces, and the fields read in that order. */
  datatype PcapHeaderView = PcapHeaderView(
    littleEndian: bool, versionMajor: nat, versionMinor: nat, snaplen: nat, linkType: nat)

  function ReadField(file: seq<byte>, littleEndian: bool, at: nat, width: nat): nat
    requires at + width <= |file|
  {
    if littleEndian then LeValue(file[at..at + width]) else BeValue(file[at..at + width])
  }

  /** The libpcap reading rule: bytes d4 c3 b2 a1 announce a little-endian
      file, a1 b2 c3 d4 a big-endian one; anything else is not a pcap file. */
  function ReadPcapHeader(file: seq<byte>): Option<PcapHeaderView>
  {
    if |file| < 24 then None
    else if file[..4] == [0xd4, 0xc3, 0xb2, 0xa1] || file[..4] == [0xa1, 0xb2, 0xc3, 0xd4] then
      var le := file[..4] == [0xd4, 0xc3, 0xb2, 0xa1];
      Some(PcapHeaderView(le, ReadField(file, le, 4, 2), ReadField(file, le, 6, 2),
                          ReadField(file, le, 16, 4), ReadField(file, le, 20, 4)))
    else None
  }

  // ---------------------------------------------------------------------------
  // The encoder.
  // ---------------------------------------------------------------------------

  /** Appends 16-bit values big-endian, one `write_u16_be` per value. */
  method AppendU16s(buf: seq<byte>, xs: seq<uint16>) returns (out: seq<byte>)
    ensures out == buf + U16List(xs)
  {
    out := buf;
    for i := 0 to |xs|
      invariant out == buf + U16List(xs[..i])
    {
      assert xs[..i + 1][..i] == xs[..i];
      out := out + U16Be(xs[i]);
    }
    assert xs[..|xs|] == xs;
  }

  /** The `for (group, key) in shares` loop of the key-share arm. */
  method AppendKeyShares(buf: seq<byte>, shares: seq<(uint16, seq<byte>)>) returns (out: seq<byte>)
    ensures out == buf + KeyShareList(shares)
  {
    out := buf;
    for i := 0 to |shares|
      invariant out == buf + KeyShareList(shares[..i])
    {
      assert shares[..i + 1][..i] == shares[..i];
      var (group, key) := shares[i];
      out := out + U16Be(group);
      out := out + U16Be(Trunc16(|key|));
      out := out + key;
    }
    assert shares[..|shares|] == shares;
  }

  /** The `for p in protocols` loop of the ALPN and ALPS arms. */
  method AppendProtocols(buf: seq<byte>, ps: seq<string>) returns (out: seq<byte>)
    ensures out == buf + ProtocolList(ps)
  {
    out := buf;
    for i := 0 to |ps|
      invariant out == buf + ProtocolList(ps[..i])
    {
      assert ps[..i + 1][..i] == ps[..i];
      var pb := Utf8(ps[i]);
      out := out + [ByteOf(|pb|)];
      out := out + pb;
    }
    assert ps[..|ps|] == ps;
  }

  /** The server-name arm: a one-entry server name list holding a host name. */
  method EncodeServerName(host: string) returns (data: seq<byte>)
    ensures data == ServerNameData(host)
  {
    var hb := Utf8(host);
    var names := [0 as byte];
    names := names + U16Be(Trunc16(|hb|));
    names := names + hb;
    data := LengthPrefixed(names);
  }

  /** A 2-byte length (truncated to 16 bits) followed by the bytes. */
  method LengthPrefixed(xs: seq<byte>) returns (data: seq<byte>)
    ensures data == U16Be(Trunc16(|xs|)) + xs
  {
    data := U16Be(Trunc16(|xs|));
    data := data + xs;
  }

  /** One arm of the extension `match`: the bytes it appends to `exts`. */
  method EncodeExtension(e: Extension) returns (out: seq<byte>)
    ensures out == ExtensionBytes(e)
  {
    out := U16Be(ExtensionType(e));
    var data := EncodeExtensionData(e);
    out := out + U16Be(Trunc16(|data|));
    out := out + data;
  }

  /** The data each arm of the extension `match` builds. */
  method EncodeExtensionData(e: Extension) returns (data: seq<byte>)
    ensures data == ExtensionData(e)
  {
    match e {
      case ServerName(host) =>
        data := EncodeServerName(host);
      case Padding(len) =>
        data := Zeros(len);
      case EchOuterStub(configId) =>
        data := configId;
      case PskKeyExchangeModes(modes) =>
        data := [ByteOf(|modes|)];
        data := data + modes;
      case Unknown(_, bytes) =>
        data := bytes;
      case SupportedVersions(_) =>
        data := EncodeU16ListData(e);
      case SupportedGroups(_, _) =>
        data := EncodeU16ListData(e);
      case SignatureAlgorithms(_) =>
        data := EncodeU16ListData(e);
      case KeyShare(shares) =>
        data := EncodeKeyShareData(shares);
      case Alpn(ps) =>
        data := EncodeProtocolsData(ps);
      case ApplicationSettings(ps, d) =>
        data := EncodeProtocolsData(ps);
        data := data + d;
    }
  }

  /** The arms whose data is a list of 16-bit values after its length. */
  predicate HasU16ListData(e: Extension)
  {
    e.SupportedVersions? || e.SupportedGroups? || e.SignatureAlgorithms?
  }

  /** The arms of the extension `match` that write 16-bit values. */
  method EncodeU16ListData(e: Extension) returns (data: seq<byte>)
    requires HasU16ListData(e)
    ensures data == ExtensionData(e)
  {
    match e {
      case SupportedVersions(vs) =>
        data := [ByteOf(|vs| * 2)];
        data := AppendU16s(data, vs);
      case SupportedGroups(gs, _) =>
        data := U16Be(Trunc16(|gs| * 2));
        data := AppendU16s(data, gs);
      case SignatureAlgorithms(algs) =>
        data := U16Be(Trunc16(|algs| * 2));
        data := AppendU16s(data, algs);
    }
  }

  /** The key_share arm: the entries, prefixed by their length. */
  method EncodeKeyShareData(shares: seq<(uint16, seq<byte>)>) returns (data: seq<byte>)
    ensures data == U16Be(Trunc16(|KeyShareList(shares)|)) + KeyShareList(shares)
  {
    var list := AppendKeyShares([], shares);
    data := LengthPrefixed(list);
  }

  /** The ALPN arm, and the start of the application_settings arm: the
      protocols, prefixed by their length. */
  method EncodeProtocolsData(ps: seq<string>) returns (data: seq<byte>)
    ensures data == U16Be(Trunc16(|ProtocolList(ps)|)) + ProtocolList(ps)
  {
    var protos := AppendProtocols([], ps);
    data := LengthPrefixed(protos);
  }

  /** The ClientHello body, written field by field. */
  method EncodeBody(t: HelloTemplate) returns (body: seq<byte>)
    ensures body == ClientHelloBody(t)
  {
    body := U16Be(0x0303);
    if t.clientRandom.Some? {
      body := body + t.clientRandom.value;
    } else {
      body := body + Zeros(32);
    }
    var sidBytes: seq<byte>;
    if t.sessionId.Some? {
      var sid := t.sessionId.value;
      sidBytes := [ByteOf(|sid|)] + sid;
    } else {
      sidBytes := [0];
    }
    body := body + sidBytes;
    body := body + U16Be(Trunc16(|t.cipherSuites| * 2));
    body := AppendU16s(body, t.cipherSuites);
    body := body + [ByteOf(|t.compressionMethods|)];
    body := body + t.compressionMethods;
    var exts := EncodeExtensions(t.extensions);
    body := body + U16Be(Trunc16(|exts|));
    body := body + exts;
  }

  /** The `for ext in &template.extensions` loop. */
  method EncodeExtensions(extensions: seq<Extension>) returns (exts: seq<byte>)
    ensures exts == ExtensionsBlock(extensions)
  {
    exts := [];
    for i := 0 to |extensions|
      invariant exts == ExtensionsBlock(extensions[..i])
    {
      assert extensions[..i + 1][..i] == extensions[..i];
      var e := EncodeExtension(extensions[i]);
      exts := exts + e;
    }
    assert extensions[..|extensions|] == extensions;
  }

  /** The pcap file around `record`, stamped with `now`. */
  method EncodePcap(record: seq<byte>, now: Timestamp) returns (pcap: seq<byte>)
    ensures pcap == PcapFile(record, now)
  {
    pcap := U32Le(0xd4c3b2a1);
    pcap := pcap + U16Le(2);
    pcap := pcap + U16Le(4);
    pcap := pcap + U32Le(0);
    pcap := pcap + U32Le(0);
    pcap := pcap + U32Le(65535);
    pcap := pcap + U32Le(1);
    assert pcap == PcapGlobalHeaderAsWritten();

    var header := U32Le(Trunc32(now.secs));
    header := header + U32Le(now.micros as uint32);
    header := header + U32Le(Trunc32(|record|));
    header := header + U32Le(Trunc32(|record|));
    pcap := pcap + header + record;
  }

  /** `Encoder::encode_client_hello`. The clock is an input: an error stands
      for a system clock before the UNIX epoch, the one failure of the pcap
      path, and is reported with its reason. */
  method EncodeClientHello(t: HelloTemplate, emitPcap: bool, clock: Result<Timestamp, string>)
    returns (r: Result<EncodedClientHello, string>)
    ensures r.Err? <==> emitPcap && clock.Err?
    ensures r.Err? ==> r.error == "ts failed: " + clock.error
    ensures r.Ok? ==> r.value.rawBytes == Record(t)
    ensures r.Ok? ==> (r.value.pcapBytes.Some? <==> emitPcap)
    ensures r.Ok? && emitPcap ==> r.value.pcapBytes.value == PcapFile(Record(t), clock.value)
  {
    var body := EncodeBody(t);
    var handshake: seq<byte> := [0x01];
    handshake := handshake + U24Be(|body|);
    handshake := handshake + body;

    var record: seq<byte> := [22];
    record := record + U16Be(0x0303);
    record := record + U16Be(Trunc16(|handshake|));
    record := record + handshake;

    var pcapBytes: Option<seq<byte>> := None;
    if emitPcap {
      if clock.Err? {
        return Err("ts failed: " + clock.error);
      }
      var pcap := EncodePcap(record, clock.value);
      pcapBytes := Some(pcap);
    }
    r := Ok(EncodedClientHello(record, pcapBytes));
  }

  // ---------------------------------------------------------------------------
  // Where each field lands.
  // ---------------------------------------------------------------------------

  /** The record header: content type 22 (handshake), version 3.3, the
      handshake length reduced to 16 bits, then the handshake itself. */
  lemma RecordLayout(t: HelloTemplate)
    ensures var r, hs := Record(t), Handshake(t);
      |r| == 5 + |hs| && r[..3] == [22, 3, 3]
      && BeValue(r[3..5]) == |hs| % 0x1_0000 && r[5..] == hs
  {
    var hs := Handshake(t);
    var len := U16Be(Trunc16(|hs|));
    assert U16Be(0x0303) == [3, 3];
    var r := Record(t);
    assert r == [22, 3, 3] + len + hs;
    assert r[3..5] == len;
    assert r[5..] == hs;
  }

  /** The handshake header: message type 1 (ClientHello), the body length
      reduced to 24 bits, then the body. */
  lemma HandshakeLayout(t: HelloTemplate)
    ensures var hs, b := Handshake(t), ClientHelloBody(t);
      |hs| == 4 + |b| && hs[0] == 1 && BeValue(hs[1..4]) == |b| % 0x100_0000 && hs[4..] == b
  {
    var b := ClientHelloBody(t);
    var len := U24Be(|b|);
    var hs := Handshake(t);
    assert hs[1..4] == len;
    assert hs[4..] == b;
  }

  /** The 16-bit value at position `i` of a big-endian list is the list's `i`-th element. */
  lemma {:induction false} U16ListAt(xs: seq<uint16>, i: nat)
    requires i < |xs|
    ensures BeValue(U16List(xs)[2 * i..2 * i + 2]) == xs[i] as int
  {
    var init := xs[..|xs| - 1];
    assert U16List(xs) == U16List(init) + U16Be(xs[|xs| - 1]);
    if i < |xs| - 1 {
      U16ListAt(init, i);
      assert U16List(xs)[2 * i..2 * i + 2] == U16List(init)[2 * i..2 * i + 2];
    } else {
      assert U16List(xs)[2 * i..2 * i + 2] == U16Be(xs[|xs| - 1]);
    }
  }

  /** The start of the body: version 3.3 whatever `tlsVersion` says, the
      random (the template's, or 32 zero bytes), then the session id (a
      length byte reduced to 8 bits and the id, or a single zero). */
  lemma BodyHeadLayout(t: HelloTemplate)
    ensures var h := BodyHead(t);
      h[..2] == [3, 3]
      && (t.clientRandom.Some? ==> h[2..34] == t.clientRandom.value)
      && (t.clientRandom.None? ==> h[2..34] == Zeros(32))
      && (t.sessionId.None? ==> h[34..] == [0])
      && (t.sessionId.Some? ==>
            h[34] as int == |t.sessionId.value| % 256 && h[35..] == t.sessionId.value)
  {
    assert U16Be(0x0303) == [3, 3];
  }

  /** The suite block of the body: after the head, the suites' byte length
      reduced to 16 bits, then the suites in template order (each decodes
      back by `U16ListAt`). */
  lemma BodySuitesLayout(t: HelloTemplate)
    ensures
      var b, cs, k := ClientHelloBody(t), t.cipherSuites, |BodyHead(t)|;
      |b| >= k + 2 + 2 * |cs| && b[..k] == BodyHead(t)
      && BeValue(b[k..k + 2]) == (2 * |cs|) % 0x1_0000 && b[k + 2..k + 2 + 2 * |cs|] == U16List(cs)
  {
    var cs := t.cipherSuites;
    var head, len, list := BodyHead(t), U16Be(Trunc16(|cs| * 2)), U16List(cs);
    var front := head + len + list;
    var b := ClientHelloBody(t);
    assert b[..|front|] == front;
    assert b[|head|..|head| + 2] == front[|head|..|head| + 2] == len;
    assert b[|head| + 2..|front|] == front[|head| + 2..] == list;
  }

  /** The end of the body: the compression methods after their count
      reduced to 8 bits, then the extension block after its byte length
      reduced to 16 bits, ending the body. */
  lemma BodyTailLayout(t: HelloTemplate)
    ensures
      var b, cm, exts := ClientHelloBody(t), t.compressionMethods, ExtensionsBlock(t.extensions);
      var m := |BodyHead(t)| + 2 + 2 * |t.cipherSuites|;
      var x := m + 1 + |cm|;
      |b| == x + 2 + |exts|
      && b[m] as int == |cm| % 256 && b[m + 1..x] == cm
      && BeValue(b[x..x + 2]) == |exts| % 0x1_0000 && b[x + 2..] == exts
  {
    var cm, exts := t.compressionMethods, ExtensionsBlock(t.extensions);
    var front := BodyHead(t) + U16Be(Trunc16(|t.cipherSuites| * 2)) + U16List(t.cipherSuites);
    var withComp := front + [ByteOf(|cm|)] + cm;
    var b := ClientHelloBody(t);
    assert b == withComp + U16Be(Trunc16(|exts|)) + exts;
    assert b[..|withComp|] == withComp;
    assert withComp[|front| + 1..] == cm;
    assert b[|withComp|..|withComp| + 2] == U16Be(Trunc16(|exts|));
    assert b[|withComp| + 2..] == exts;
  }

  // ---------------------------------------------------------------------------
  // Extension framing.
  // ---------------------------------------------------------------------------

  /** One extension on the wire: its type code, then the 2-byte length of
      its data (reduced to 16 bits), then the data. */
  lemma ExtensionLayout(e: Extension)
    ensures var eb, data := ExtensionBytes(e), ExtensionData(e);
      |eb| == 4 + |data| && BeValue(eb[..2]) == ExtensionType(e) as int
      && BeValue(eb[2..4]) == |data| % 0x1_0000 && eb[4..] == data
  {
    var data := ExtensionData(e);
    var eb := ExtensionBytes(e);
    assert eb[..2] == U16Be(ExtensionType(e));
    assert eb[2..4] == U16Be(Trunc16(|data|));
  }

  /** The inner length prefixes agree with what follows them whenever the
      lengths fit their fields; padding is all zeros; ECH and unknown
      extensions pass their bytes through unchanged. */
  lemma ExtensionDataLayout(e: Extension)
    ensures var d := ExtensionData(e);
      && (e.ServerName? ==>
            var hb := Utf8(e.host);
            |d| == 5 + |hb| && d[2] == 0 && d[5..] == hb
            && BeValue(d[3..5]) == |hb| % 0x1_0000 && BeValue(d[..2]) == (|d| - 2) % 0x1_0000)
      && (e.SupportedVersions? ==>
            d[0] as int == (|d| - 1) % 256 && d[1..] == U16List(e.versions))
      && (e.SupportedGroups? ==>
            BeValue(d[..2]) == (|d| - 2) % 0x1_0000 && d[2..] == U16List(e.groups))
      && (e.SignatureAlgorithms? ==>
            BeValue(d[..2]) == (|d| - 2) % 0x1_0000 && d[2..] == U16List(e.algs))
      && (e.KeyShare? ==>
            BeValue(d[..2]) == (|d| - 2) % 0x1_0000 && d[2..] == KeyShareList(e.shares))
      && (e.Alpn? ==>
            BeValue(d[..2]) == (|d| - 2) % 0x1_0000 && d[2..] == ProtocolList(e.protocols))
      && (e.Padding? ==> |d| == e.len && forall i :: 0 <= i < |d| ==> d[i] == 0)
      && (e.EchOuterStub? ==> d == e.configId)
      && (e.ApplicationSettings? ==>
            var pl := ProtocolList(e.protocols);
            |d| == 2 + |pl| + |e.data| && BeValue(d[..2]) == |pl| % 0x1_0000
            && d[2..2 + |pl|] == pl && d[2 + |pl|..] == e.data)
      && (e.PskKeyExchangeModes? ==> d[0] as int == (|d| - 1) % 256 && d[1..] == e.modes)
      && (e.Unknown? ==> d == e.bytes)
  {
    var d := ExtensionData(e);
    match e
    case ServerName(host) =>
      var hb := Utf8(host);
      var names := [0 as byte] + U16Be(Trunc16(|hb|)) + hb;
      assert d == U16Be(Trunc16(|names|)) + names;
      assert d[..2] == U16Be(Trunc16(|names|));
      assert d[3..5] == U16Be(Trunc16(|hb|));
      assert d[5..] == hb;
    case SupportedVersions(vs) =>
      assert d[1..] == U16List(vs);
    case SupportedGroups(gs, _) =>
      assert d[..2] == U16Be(Trunc16(|gs| * 2)) && d[2..] == U16List(gs);
    case SignatureAlgorithms(algs) =>
      assert d[..2] == U16Be(Trunc16(|algs| * 2)) && d[2..] == U16List(algs);
    case KeyShare(shares) =>
      assert d[..2] == U16Be(Trunc16(|KeyShareList(shares)|)) && d[2..] == KeyShareList(shares);
    case Alpn(ps) =>
      assert d[..2] == U16Be(Trunc16(|ProtocolList(ps)|)) && d[2..] == ProtocolList(ps);
    case Padding(_) =>
    case EchOuterStub(_) =>
    case ApplicationSettings(ps, data) =>
      var pl := ProtocolList(ps);
      assert d[..2] == U16Be(Trunc16(|pl|));
      assert d[2..2 + |pl|] == pl && d[2 + |pl|..] == data;
    case PskKeyExchangeModes(modes) =>
      assert d[1..] == modes;
    case Unknown(_, _) =>
  }

  /** The (type, data) pair of each extension, in template order. */
  function Entries(exts: seq<Extension>): (r: seq<(uint16, seq<byte>)>)
    ensures |r| == |exts|
  {
    if exts == [] then [] else [(ExtensionType(exts[0]), ExtensionData(exts[0]))] + Entries(exts[1..])
  }

  /** Reads an extension block back as a list of (type, data) pairs, each
      entry a 2-byte type, a 2-byte length and that many bytes; `None` when
      an entry is truncated. */
  function SplitExtensions(block: seq<byte>): Option<seq<(uint16, seq<byte>)>>
    decreases |block|
  {
    if block == [] then Some([])
    else if |block| < 4 then None
    else
      var len := Be16At(block, 2) as int;
      if |block| < 4 + len then None
      else
        match SplitExtensions(block[4 + len..])
        case None => None
        case Some(rest) => Some([(Be16At(block, 0), block[4..4 + len])] + rest)
  }

  /** The extension block, read from the front: the first extension, then the others. */
  lemma ExtensionsBlockFront(exts: seq<Extension>)
    requires exts != []
    ensures ExtensionsBlock(exts) == ExtensionBytes(exts[0]) + ExtensionsBlock(exts[1..])
  {
    ConcatMapFront(exts, ExtensionBytes);
  }

  /** Every extension's length field is right: when every data length fits
      in 16 bits, the block splits back into exactly the template's
      extensions, as (type, data) pairs, in order. */
  lemma {:induction false} SplitExtensionsBlock(exts: seq<Extension>)
    requires forall i :: 0 <= i < |exts| ==> |ExtensionData(exts[i])| < 0x1_0000
    ensures SplitExtensions(ExtensionsBlock(exts)) == Some(Entries(exts))
  {
    if exts != [] {
      ExtensionsBlockFront(exts);
      SplitExtensionsBlock(exts[1..]);
      SplitFirst(exts[0], ExtensionsBlock(exts[1..]));
    }
  }

  /** An extension whose data fits its length field splits off the front of
      a block that reads back. */
  lemma SplitFirst(e: Extension, rest: seq<byte>)
    requires |ExtensionData(e)| < 0x1_0000 && SplitExtensions(rest).Some?
    ensures SplitExtensions(ExtensionBytes(e) + rest)
      == Some([(ExtensionType(e), ExtensionData(e))] + SplitExtensions(rest).value)
  {
    SplitEntry(ExtensionType(e), ExtensionData(e), rest);
  }

  /** A type, a 16-bit length and that many bytes of data split off the
      front of a block that reads back. */
  lemma SplitEntry(typ: uint16, data: seq<byte>, rest: seq<byte>)
    requires |data| < 0x1_0000 && SplitExtensions(rest).Some?
    ensures SplitExtensions(U16Be(typ) + U16Be(Trunc16(|data|)) + data + rest)
      == Some([(typ, data)] + SplitExtensions(rest).value)
  {
    var t, l := U16Be(typ), U16Be(Trunc16(|data|));
    var block := t + l + data + rest;
    Trunc16Small(|data|);
    assert block[0..2] == t && block[2..4] == l;
    Be16AtValue(block, 0);
    Be16AtValue(block, 2);
    assert block[4..4 + |data|] == data;
    assert block[4 + |data|..] == rest;
  }

  // ---------------------------------------------------------------------------
  // Fields the encoder never reads.
  // ---------------------------------------------------------------------------

  /** Two extensions that differ at most in the GREASE slots of a group list. */
  predicate SameUpToGreaseSlots(e: Extension, f: Extension)
  {
    if e.SupportedGroups? then f.SupportedGroups? && f.groups == e.groups else f == e
  }

  lemma {:induction false} ExtensionsBlockIgnoresSlots(xs: seq<Extension>, ys: seq<Extension>)
    requires |xs| == |ys| && forall i :: 0 <= i < |xs| ==> SameUpToGreaseSlots(xs[i], ys[i])
    ensures ExtensionsBlock(xs) == ExtensionsBlock(ys)
  {
    if xs != [] {
      var n := |xs| - 1;
      ExtensionsBlockIgnoresSlots(xs[..n], ys[..n]);
      assert SameUpToGreaseSlots(xs[n], ys[n]);
      assert ExtensionData(xs[n]) == ExtensionData(ys[n]);
    }
  }

  /** `raw_bytes` is a function of the random, the session id, the suites,
      the compression methods and the extensions alone: `tls_version`,
      `grease_mode`, `psk_key_exchange_modes` and the GREASE slots of the
      supported groups are never read. */
  lemma RecordIgnoresUnreadFields(t: HelloTemplate, u: HelloTemplate)
    requires t.clientRandom == u.clientRandom && t.sessionId == u.sessionId
    requires t.cipherSuites == u.cipherSuites && t.compressionMethods == u.compressionMethods
    requires |t.extensions| == |u.extensions|
    requires forall i :: 0 <= i < |t.extensions| ==> SameUpToGreaseSlots(t.extensions[i], u.extensions[i])
    ensures Record(t) == Record(u)
  {
    ExtensionsBlockIgnoresSlots(t.extensions, u.extensions);
    assert ClientHelloBody(t) == ClientHelloBody(u);
  }

  // ---------------------------------------------------------------------------
  // The capture file, as a pcap reader sees it.
  // ---------------------------------------------------------------------------

  /** With the corrected header a reader sees a little-endian file of
      version 2.4, snaplen 65535 and link type 1 (Ethernet). */
  lemma PcapHeaderRead(rest: seq<byte>)
    ensures ReadPcapHeader(PcapGlobalHeader() + rest) == Some(PcapHeaderView(true, 2, 4, 65535, 1))
  {
    var f := PcapGlobalHeader() + rest;
    HeaderFields(0xa1b2c3d4, rest);
    LittleEndianMagicBytes();
    VersionBytes();
    LimitBytes();
    ReadLittleEndianHeader(f);
  }

  /** A file keeps the fields of the global header it starts with. */
  lemma HeaderFields(magic: uint32, rest: seq<byte>)
    ensures var f := PcapGlobalHeaderWith(magic) + rest;
      f[..4] == U32Le(magic) && f[4..6] == U16Le(2) && f[6..8] == U16Le(4)
      && f[16..20] == U32Le(65535) && f[20..24] == U32Le(1)
  {
    var g := PcapGlobalHeaderWith(magic);
    var f := g + rest;
    assert f[..24] == g;
    assert f[..4] == g[..4] && f[4..6] == g[4..6] && f[6..8] == g[6..8];
    assert f[16..20] == g[16..20] && f[20..24] == g[20..24];
  }

  /** A file that starts with the little-endian signature is read little-endian. */
  lemma ReadLittleEndianHeader(f: seq<byte>)
    requires |f| >= 24 && f[..4] == [0xd4, 0xc3, 0xb2, 0xa1]
    ensures ReadPcapHeader(f) ==
      Some(PcapHeaderView(true, LeValue(f[4..6]), LeValue(f[6..8]), LeValue(f[16..20]), LeValue(f[20..24])))
  {
  }

  /** The corrected capture file: the header above, then a record header
      carrying the clock (seconds reduced to 32 bits) and the record length
      twice (captured and original, reduced to 32 bits), then the record. */
  lemma PcapFileLayout(raw: seq<byte>, ts: Timestamp)
    ensures var f := PcapFileIntended(raw, ts);
      |f| == 40 + |raw| && ReadPcapHeader(f) == Some(PcapHeaderView(true, 2, 4, 65535, 1))
      && LeValue(f[24..28]) == ts.secs % 0x1_0000_0000 && LeValue(f[28..32]) == ts.micros
      && LeValue(f[32..36]) == |raw| % 0x1_0000_0000 && LeValue(f[36..40]) == |raw| % 0x1_0000_0000
      && f[40..] == raw
  {
    var g, h := PcapGlobalHeader(), PcapRecordHeader(ts, |raw|);
    RecordSlices(g, h, raw);
    PcapHeaderRead(h + raw);
  }

  /** Where the record header and the record sit behind a 24-byte prefix. */
  lemma RecordSlices(g: seq<byte>, h: seq<byte>, raw: seq<byte>)
    requires |g| == 24 && |h| == 16
    ensures var f := g + h + raw;
      && f == g + (h + raw) && f[40..] == raw
      && f[24..28] == h[..4] && f[28..32] == h[4..8]
      && f[32..36] == h[8..12] && f[36..40] == h[12..]
  {
    var f := g + h + raw;
    assert f[24..40] == h;
  }

  /** The header as `encode_client_hello` writes it starts with a1 b2 c3 d4,
      the big-endian signature, while every other field is little-endian: a
      reader of the file takes version 2.4 for 512.1024, snaplen 65535 for
      0xffff0000 and link type 1 for 0x01000000. */
  lemma PcapMagicAsWrittenMisread(rest: seq<byte>)
    ensures ReadPcapHeader(PcapGlobalHeaderAsWritten() + rest)
         == Some(PcapHeaderView(false, 0x0200, 0x0400, 0xffff_0000, 0x0100_0000))
  {
    var f := PcapGlobalHeaderAsWritten() + rest;
    HeaderFields(0xd4c3b2a1, rest);
    BigEndianMagicBytes();
    VersionBytes();
    LimitBytes();
    ReadBigEndianHeader(f);
    assert BeValue(f[4..6]) == 0x0200 by { BeValue2(2, 0); }
    assert BeValue(f[6..8]) == 0x0400 by { BeValue2(4, 0); }
    assert BeValue(f[16..20]) == 0xffff_0000 by { BeValue4(0xff, 0xff, 0, 0); }
    assert BeValue(f[20..24]) == 0x0100_0000 by { BeValue4(1, 0, 0, 0); }
  }

  /** The capture file as `encode_client_hello` writes it: the same record
      header and record as the corrected file, behind a global header that
      starts a1 b2 c3 d4 and so is read big-endian, with every later field
      of the global header misread. */
  lemma PcapFileAsWrittenLayout(raw: seq<byte>, ts: Timestamp)
    ensures var f := PcapFile(raw, ts);
      |f| == 40 + |raw| && f[..4] == [0xa1, 0xb2, 0xc3, 0xd4]
      && ReadPcapHeader(f) == Some(PcapHeaderView(false, 0x0200, 0x0400, 0xffff_0000, 0x0100_0000))
      && LeValue(f[24..28]) == ts.secs % 0x1_0000_0000 && LeValue(f[28..32]) == ts.micros
      && LeValue(f[32..36]) == |raw| % 0x1_0000_0000 && LeValue(f[36..40]) == |raw| % 0x1_0000_0000
      && f[40..] == raw
  {
    var g, h := PcapGlobalHeaderAsWritten(), PcapRecordHeader(ts, |raw|);
    RecordSlices(g, h, raw);
    HeaderFields(0xd4c3b2a1, h + raw);
    BigEndianMagicBytes();
    PcapMagicAsWrittenMisread(h + raw);
  }

  /** The file as written and the corrected file differ in their first
      four bytes and nowhere else. */
  lemma PcapFilesDifferInMagicOnly(raw: seq<byte>, ts: Timestamp)
    ensures var f, g := PcapFile(raw, ts), PcapFileIntended(raw, ts);
      |f| == |g| && f[4..] == g[4..] && f[..4] != g[..4]
  {
    var a, b := PcapGlobalHeaderAsWritten(), PcapGlobalHeader();
    HeaderTail(0xd4c3b2a1);
    HeaderTail(0xa1b2c3d4);
    BigEndianMagicBytes();
    LittleEndianMagicBytes();
    assert a[..4][0] != b[..4][0];
    SamePrefixTail(a, b, PcapRecordHeader(ts, |raw|), raw);
  }

  /** Two prefixes of one length that agree past their first four bytes
      leave two files that agree there too. */
  lemma SamePrefixTail(a: seq<byte>, b: seq<byte>, h: seq<byte>, raw: seq<byte>)
    requires |a| == |b| == 24 && a[4..] == b[4..] && a[..4] != b[..4]
    ensures var f, g := a + h + raw, b + h + raw;
      |f| == |g| && f[4..] == g[4..] && f[..4] != g[..4]
  {
    var f, g := a + h + raw, b + h + raw;
    assert f[..4] == a[..4] && g[..4] == b[..4];
    assert f[4..] == a[4..] + h + raw;
    assert g[4..] == b[4..] + h + raw;
  }

  /** Past the magic, a global header does not depend on it. */
  lemma HeaderTail(magic: uint32)
    ensures PcapGlobalHeaderWith(magic)[4..]
         == U16Le(2) + U16Le(4) + U32Le(0) + U32Le(0) + U32Le(65535) + U32Le(1)
  {
    var m := U32Le(magic);
    assert m + U16Le(2) + U16Le(4) + U32Le(0) + U32Le(0) + U32Le(65535) + U32Le(1)
        == m + (U16Le(2) + U16Le(4) + U32Le(0) + U32Le(0) + U32Le(65535) + U32Le(1));
  }

  /** A file that starts with the big-endian signature is read big-endian. */
  lemma ReadBigEndianHeader(f: seq<byte>)
    requires |f| >= 24 && f[..4] == [0xa1, 0xb2, 0xc3, 0xd4]
    ensures ReadPcapHeader(f) ==
      Some(PcapHeaderView(false, BeValue(f[4..6]), BeValue(f[6..8]), BeValue(f[16..20]), BeValue(f[20..24])))
  {
    assert f[..4] != [0xd4, 0xc3, 0xb2, 0xa1] by {
      assert f[..4][0] == 0xa1;
    }
  }

  /** The bytes of the corrected magic. */
  lemma LittleEndianMagicBytes()
    ensures U32Le(0xa1b2c3d4) == [0xd4, 0xc3, 0xb2, 0xa1]
  {
    U32LeDigits(0xa1b2c3d4);
  }

  /** The bytes of the magic as written. */
  lemma BigEndianMagicBytes()
    ensures U32Le(0xd4c3b2a1) == [0xa1, 0xb2, 0xc3, 0xd4]
  {
    U32LeDigits(0xd4c3b2a1);
  }

  /** The bytes of the version fields. */
  lemma VersionBytes()
    ensures U16Le(2) == [2, 0] && U16Le(4) == [4, 0]
  {
    assert LeBytes(0, 1) == [0];
  }

  /** The bytes of the snaplen and link-type fields. */
  lemma LimitBytes()
    ensures U32Le(65535) == [0xff, 0xff, 0, 0] && U32Le(1) == [1, 0, 0, 0]
  {
    U32LeDigits(65535);
    U32LeDigits(1);
  }
}
