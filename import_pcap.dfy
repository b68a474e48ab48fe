/** `import_pcap.rs`: locating a TLS ClientHello record in a byte buffer,
    the hand-written Ethernet / IPv4 / TCP / UDP header parsing of each
    captured frame, the collection of port-443 payloads into one TCP stream
    and per-flow UDP buffers, and the order in which they are searched. */
module ImportPcap {
  import opened Bytes
  import opened Wrappers
  import Quic
  import TemplateEncoder

  /** What the importers return; `ja3` is never filled in here. */
  datatype TlsSnapshot = TlsSnapshot(rawClientHello: seq<byte>, ja3: Option<string>)

  const NotFound: string := "ClientHello not found in pcap (tcp or udp 443)"

  // ---------------------------------------------------------------------
  // find_client_hello_in_buf

  /** The record length field of a candidate record header at `i`. */
  function RecordLength(buf: seq<byte>, i: nat): (n: nat)
    requires i + 4 < |buf|
    ensures n == BeValue(buf[i + 3..i + 5]) && n < 0x1_0000
  {
    Be16AtValue(buf, i + 3);
    Be16At(buf, i + 3) as int
  }

  /** Index `i` is one the scan tries (`i < n - 9`), holds the handshake
      record type 0x16 with handshake type 0x01 five bytes later, and the
      record's declared length fits in the buffer. */
  predicate HelloAt(buf: seq<byte>, i: nat)
  {
    i + 9 < |buf| && buf[i] == 0x16 && buf[i + 5] == 0x01 && i + 5 + RecordLength(buf, i) <= |buf|
  }

  /** The first index at or after `from` that holds a ClientHello record. */
  function HelloIndex(buf: seq<byte>, from: nat): (r: Option<nat>)
    ensures r.Some? ==> from <= r.value && HelloAt(buf, r.value)
    ensures r.Some? ==> forall j :: from <= j < r.value ==> !HelloAt(buf, j)
    ensures r.None? ==> forall j :: from <= j ==> !HelloAt(buf, j)
    decreases |buf| - from
  {
    if from + 9 >= |buf| then None
    else if HelloAt(buf, from) then Some(from)
    else HelloIndex(buf, from + 1)
  }

  /** The record found at `i`: its 5-byte header and declared body. */
  function RecordAt(buf: seq<byte>, i: nat): (r: seq<byte>)
    requires HelloAt(buf, i)
    ensures |r| == 5 + RecordLength(buf, i) && r == buf[i..i + |r|]
  {
    buf[i..i + 5 + RecordLength(buf, i)]
  }

  /** What `find_client_hello_in_buf` returns. */
  function FindHello(buf: seq<byte>): (r: Option<seq<byte>>)
    ensures r.Some? <==> exists i :: HelloAt(buf, i)
    ensures |buf| <= 9 ==> r == None
    ensures r.Some? ==> |r.value| >= 5 && r.value[0] == 0x16 && (|r.value| > 5 ==> r.value[5] == 0x01)
  {
    match HelloIndex(buf, 0)
    case None => None
    case Some(i) => Some(RecordAt(buf, i))
  }

  /** The found record is the one at the smallest qualifying index: a
      contiguous slice of `buf` whose length is five plus its own length field. */
  lemma FindHelloFirstMatch(buf: seq<byte>)
    requires FindHello(buf).Some?
    ensures exists i: nat :: (HelloAt(buf, i) && FindHello(buf).value == RecordAt(buf, i) &&
      (forall j :: 0 <= j < i ==> !HelloAt(buf, j)))
  {
    var i := HelloIndex(buf, 0).value;
    assert HelloAt(buf, i) && FindHello(buf).value == RecordAt(buf, i);
  }

  /** `find_client_hello_in_buf`: an early-return scan over `0..n-9`. */
  method FindClientHelloInBuf(buf: seq<byte>) returns (r: Option<seq<byte>>)
    ensures r == FindHello(buf)
  {
    var n := |buf|;
    var limit := if n >= 9 then n - 9 else 0;
    var i := 0;
    while i < limit
      invariant i <= limit || limit == 0
      invariant HelloIndex(buf, 0) == HelloIndex(buf, i)
      decreases limit - i
    {
      if buf[i] == 0x16 && i + 5 < n && buf[i + 5] == 0x01 {
        if i + 5 + 4 <= n {
          var len := (buf[i + 3] as int) * 256 + buf[i + 4] as int;
          var end := i + 5 + len;
          if end <= n {
            assert HelloAt(buf, i);
            return Some(buf[i..end]);
          }
        }
      }
      i := i + 1;
    }
    return None;
  }

  /** A ClientHello record at the start of a buffer is what the scan finds:
      record type 0x16, a big-endian length at bytes 3..5 that covers the
      rest of the record, and handshake type 0x01 after the header. */
  lemma FindsRecord(rec: seq<byte>, rest: seq<byte>)
    requires |rec| > 9 && rec[0] == 0x16 && rec[5] == 0x01 && BeValue(rec[3..5]) == |rec| - 5
    ensures FindHello(rec + rest) == Some(rec)
  {
    var buf := rec + rest;
    assert buf[3..5] == rec[3..5];
    assert HelloAt(buf, 0);
    assert RecordAt(buf, 0) == rec;
  }

  /** What the template encoder emits is what the scan finds, as long as the
      handshake length fits the record's 16-bit length field. */
  lemma FindsEncodedRecord(t: TemplateEncoder.HelloTemplate, rest: seq<byte>)
    requires |TemplateEncoder.Handshake(t)| <= 0xffff
    ensures FindHello(TemplateEncoder.Record(t) + rest) == Some(TemplateEncoder.Record(t))
  {
    var rec, hs := TemplateEncoder.Record(t), TemplateEncoder.Handshake(t);
    TemplateEncoder.RecordLayout(t);
    TemplateEncoder.HandshakeLayout(t);
    TemplateEncoder.BodyHeadLayout(t);
    assert |TemplateEncoder.ClientHelloBody(t)| >= |TemplateEncoder.BodyHead(t)|;
    assert |rec| > 9;
    assert rec[0] == 0x16;
    assert rec[5] == hs[0];
    Trunc16Small(|hs|);
    assert BeValue(rec[3..5]) == |rec| - 5;
    FindsRecord(rec, rest);
  }

  // ---------------------------------------------------------------------
  // Per-frame header parsing

  /** A UDP flow key: source and destination address, source and destination port. */
  datatype FlowKey = FlowKey(srcIp: uint32, dstIp: uint32, srcPort: uint16, dstPort: uint16)

  /** What one captured frame contributes to the import. */
  datatype FrameData =
    | Skipped
    | TcpPayload(payload: seq<byte>)
    | UdpPayload(key: FlowKey, payload: seq<byte>)

  const EthernetHeader: nat := 14
  const EtherTypeIpv4: uint16 := 0x0800
  const ProtoTcp: byte := 6
  const ProtoUdp: byte := 17
  const HttpsPort: uint16 := 443

  /** The IPv4 header length, `(data[14] & 0x0f) * 4`. */
  function IpHeaderLength(data: seq<byte>): (n: nat)
    requires |data| > EthernetHeader
    ensures n <= 60
  {
    (data[EthernetHeader] as int % 16) * 4
  }

  /** The TCP header length at `tcp`, `(data[tcp + 12] >> 4) * 4`. */
  function TcpHeaderLength(data: seq<byte>, tcp: nat): (n: nat)
    requires tcp + 12 < |data|
    ensures n <= 60
  {
    (data[tcp + 12] as int / 16) * 4
  }

  /** The hand-written parse of one frame. A frame is skipped when it is
      shorter than an Ethernet header, is not IPv4, is shorter than an
      Ethernet and a minimal IPv4 header, or is shorter than its IPv4 header;
      a TCP segment is skipped when its header does not fit or it carries no
      payload, and a UDP datagram when its header does not fit or it carries
      no payload; only segments and datagrams with port 443 at either end
      are kept. */
  function ParseFrame(data: seq<byte>): (r: FrameData)
    ensures |data| < 34 || Be16At(data, 12) != EtherTypeIpv4 ==> r == Skipped
    ensures r.TcpPayload? ==> 0 < |r.payload| <= |data| && r.payload == data[|data| - |r.payload|..]
    ensures r.UdpPayload? ==> 0 < |r.payload| <= |data| && r.payload == data[|data| - |r.payload|..]
    ensures r.UdpPayload? ==> r.key.srcPort == HttpsPort || r.key.dstPort == HttpsPort
  {
    if |data| < EthernetHeader then Skipped
    else if Be16At(data, 12) != EtherTypeIpv4 then Skipped
    else if |data| < EthernetHeader + 20 then Skipped
    else
      var ip := EthernetHeader;
      var ihl := IpHeaderLength(data);
      if |data| < ip + ihl then Skipped
      else
        var proto := data[ip + 9];
        var srcIp := Be32At(data, ip + 12);
        var dstIp := Be32At(data, ip + 16);
        if proto == ProtoTcp then
          if |data| < ip + ihl + 20 then Skipped
          else
            var tcp := ip + ihl;
            var srcPort := Be16At(data, tcp);
            var dstPort := Be16At(data, tcp + 2);
            var payloadOff := tcp + TcpHeaderLength(data, tcp);
            if payloadOff >= |data| then Skipped
            else if srcPort == HttpsPort || dstPort == HttpsPort then TcpPayload(data[payloadOff..])
            else Skipped
        else if proto == ProtoUdp then
          var udp := ip + ihl;
          if |data| < udp + 8 then Skipped
          else
            var srcPort := Be16At(data, udp);
            var dstPort := Be16At(data, udp + 2);
            var payloadOff := udp + 8;
            if payloadOff >= |data| then Skipped
            else if srcPort == HttpsPort || dstPort == HttpsPort then
              UdpPayload(FlowKey(srcIp, dstIp, srcPort, dstPort), data[payloadOff..])
            else Skipped
        else Skipped
  }

  /** A well-formed Ethernet header carrying IPv4: twelve address bytes and
      the ethertype 0x0800. */
  predicate IsIpv4Ethernet(eth: seq<byte>)
  {
    |eth| == EthernetHeader && eth[12] == 0x08 && eth[13] == 0x00
  }

  /** An IPv4 header whose length field matches its size and whose
      protocol is `proto`. */
  predicate IsIpv4Header(ip: seq<byte>, proto: byte)
  {
    20 <= |ip| && |ip| > 0 && (ip[0] as int % 16) * 4 == |ip| && ip[9] == proto
  }

  /** A UDP datagram to or from port 443 inside a well-formed frame is
      parsed back into its flow key and payload. */
  lemma ParseUdpFrame(eth: seq<byte>, ip: seq<byte>, udp: seq<byte>, payload: seq<byte>)
    requires IsIpv4Ethernet(eth) && IsIpv4Header(ip, ProtoUdp) && |udp| == 8 && |payload| > 0
    requires Be16At(udp, 0) == HttpsPort || Be16At(udp, 2) == HttpsPort
    ensures ParseFrame(eth + ip + udp + payload) ==
      UdpPayload(FlowKey(Be32At(ip, 12), Be32At(ip, 16), Be16At(udp, 0), Be16At(udp, 2)), payload)
  {
    var data := eth + ip + udp + payload;
    var u := EthernetHeader + |ip|;
    assert data[12] == 0x08 && data[13] == 0x00;
    assert data[EthernetHeader] == ip[0] && data[EthernetHeader + 9] == ip[9];
    assert IpHeaderLength(data) == |ip|;
    assert data[EthernetHeader + 12..EthernetHeader + 16] == ip[12..16];
    assert data[EthernetHeader + 16..EthernetHeader + 20] == ip[16..20];
    assert data[u..u + 2] == udp[0..2];
    assert data[u + 2..u + 4] == udp[2..4];
    assert data[u + 8..] == payload;
  }

  /** A TCP segment to or from port 443 inside a well-formed frame, whose
      data offset matches its header size, is parsed back into its payload. */
  lemma ParseTcpFrame(eth: seq<byte>, ip: seq<byte>, tcp: seq<byte>, payload: seq<byte>)
    requires IsIpv4Ethernet(eth) && IsIpv4Header(ip, ProtoTcp) && |payload| > 0
    requires 20 <= |tcp| && (tcp[12] as int / 16) * 4 == |tcp|
    requires Be16At(tcp, 0) == HttpsPort || Be16At(tcp, 2) == HttpsPort
    ensures ParseFrame(eth + ip + tcp + payload) == TcpPayload(payload)
  {
    var data := eth + ip + tcp + payload;
    var t := EthernetHeader + |ip|;
    assert data[12] == 0x08 && data[13] == 0x00;
    assert data[EthernetHeader] == ip[0] && data[EthernetHeader + 9] == ip[9];
    assert IpHeaderLength(data) == |ip|;
    assert data[t + 12] == tcp[12];
    assert data[t..t + 2] == tcp[0..2];
    assert data[t + 2..t + 4] == tcp[2..4];
    assert data[t + |tcp|..] == payload;
  }

  // ---------------------------------------------------------------------
  // Collecting the capture

  /** What the packet reader yields: a frame, or a read error. */
  datatype CaptureItem = Frame(data: seq<byte>) | ReadFailure(reason: string)

  function TcpPart(d: FrameData): seq<byte>
  {
    if d.TcpPayload? then d.payload else []
  }

  function UdpPart(d: FrameData, key: FlowKey): seq<byte>
  {
    if d.UdpPayload? && d.key == key then d.payload else []
  }

  /** The TCP payloads of the frames, appended in capture order. */
  function TcpStream(frames: seq<seq<byte>>, decode: seq<byte> -> FrameData): seq<byte>
  {
    if frames == [] then []
    else TcpStream(frames[..|frames| - 1], decode) + TcpPart(decode(frames[|frames| - 1]))
  }

  /** The UDP payloads of the frames in one flow, appended in capture order. */
  function FlowStream(frames: seq<seq<byte>>, key: FlowKey, decode: seq<byte> -> FrameData): seq<byte>
  {
    if frames == [] then []
    else FlowStream(frames[..|frames| - 1], key, decode) + UdpPart(decode(frames[|frames| - 1]), key)
  }

  /** The flows that at least one frame contributes to. */
  function FlowKeys(frames: seq<seq<byte>>, decode: seq<byte> -> FrameData): set<FlowKey>
  {
    if frames == [] then {}
    else
      var d := decode(frames[|frames| - 1]);
      FlowKeys(frames[..|frames| - 1], decode) + (if d.UdpPayload? then {d.key} else {})
  }

  /** A flow that some frame contributes to holds bytes. */
  lemma {:induction false} FlowStreamNonEmpty(frames: seq<seq<byte>>, key: FlowKey)
    requires key in FlowKeys(frames, ParseFrame)
    ensures |FlowStream(frames, key, ParseFrame)| > 0
  {
    var init := frames[..|frames| - 1];
    var d := ParseFrame(frames[|frames| - 1]);
    if key in FlowKeys(init, ParseFrame) {
      FlowStreamNonEmpty(init, key);
    } else {
      assert d.UdpPayload? && d.key == key;
    }
  }

  /** A flow no frame contributes to is empty. */
  lemma {:induction false} FlowStreamEmpty(frames: seq<seq<byte>>, key: FlowKey, decode: seq<byte> -> FrameData)
    requires key !in FlowKeys(frames, decode)
    ensures FlowStream(frames, key, decode) == []
  {
    if frames != [] {
      FlowStreamEmpty(frames[..|frames| - 1], key, decode);
    }
  }

  /** The flow map the frames determine: every flow some frame contributes
      to, with its bytes. */
  function FlowsOf(frames: seq<seq<byte>>, decode: seq<byte> -> FrameData): map<FlowKey, seq<byte>>
  {
    map k | k in FlowKeys(frames, decode) :: FlowStream(frames, k, decode)
  }

  /** The frames of a capture, read up to its first read error. */
  function Frames(items: seq<CaptureItem>): seq<seq<byte>>
  {
    if items == [] then []
    else
      var last := items[|items| - 1];
      Frames(items[..|items| - 1]) + (if last.Frame? then [last.data] else [])
  }

  /** The reason of the first read error in a capture, if any. */
  function FirstFailure(items: seq<CaptureItem>): Option<string>
  {
    if items == [] then None
    else
      var earlier := FirstFailure(items[..|items| - 1]);
      var last := items[|items| - 1];
      if earlier.Some? then earlier
      else if last.ReadFailure? then Some(last.reason)
      else None
  }

  /** A read error stays the first one whatever the reader yields after it. */
  lemma {:induction false} FirstFailureStays(items: seq<CaptureItem>, i: nat)
    requires i <= |items| && FirstFailure(items[..i]).Some?
    ensures FirstFailure(items) == FirstFailure(items[..i])
    decreases |items| - i
  {
    if i < |items| {
      assert items[..i + 1][..i] == items[..i];
      FirstFailureStays(items, i + 1);
    } else {
      assert items[..i] == items;
    }
  }

  /** The buffers the read loop leaves behind. */
  datatype Collected = Collected(tcp: seq<byte>, flows: map<FlowKey, seq<byte>>)

  /** The collected buffers are those of the frames. */
  predicate CollectedFrom(c: Collected, frames: seq<seq<byte>>, decode: seq<byte> -> FrameData)
  {
    c.tcp == TcpStream(frames, decode) &&
    c.flows.Keys == FlowKeys(frames, decode) &&
    forall k :: k in c.flows ==> c.flows[k] == FlowStream(frames, k, decode)
  }

  /** Collected buffers hold exactly the flow map of their frames. */
  lemma CollectedFlows(c: Collected, frames: seq<seq<byte>>, decode: seq<byte> -> FrameData)
    requires CollectedFrom(c, frames, decode)
    ensures c.flows == FlowsOf(frames, decode)
  {
  }

  /** The buffers the frames determine: their TCP stream and their flow map. */
  function Collect(frames: seq<seq<byte>>, decode: seq<byte> -> FrameData): Collected
  {
    Collected(TcpStream(frames, decode), FlowsOf(frames, decode))
  }

  /** The buffers of the frames are exactly the ones `Collect` gives. */
  lemma CollectExactly(c: Collected, frames: seq<seq<byte>>, decode: seq<byte> -> FrameData)
    ensures CollectedFrom(c, frames, decode) <==> c == Collect(frames, decode)
  {
    if CollectedFrom(c, frames, decode) {
      CollectedFlows(c, frames, decode);
    }
  }

  /** One frame of the loop: append its payload to the TCP stream or to its
      flow, creating the flow on first use. */
  method AddFrame(c: Collected, frames: seq<seq<byte>>, data: seq<byte>, decode: seq<byte> -> FrameData) returns (c': Collected)
    requires CollectedFrom(c, frames, decode)
    ensures CollectedFrom(c', frames + [data], decode)
  {
    var d := decode(data);
    match d {
      case Skipped =>
        OneMoreFrame(frames, data, decode);
        c' := c;
      case TcpPayload(payload) =>
        OneMoreFrame(frames, data, decode);
        c' := c.(tcp := c.tcp + payload);
      case UdpPayload(key, payload) =>
        var prior := if key in c.flows then c.flows[key] else [];
        c' := c.(flows := c.flows[key := prior + payload]);
        FlowAppended(c, frames, data, decode);
    }
  }

  /** A UDP frame appends its payload to its flow, which starts empty. */
  lemma FlowAppended(c: Collected, frames: seq<seq<byte>>, data: seq<byte>, decode: seq<byte> -> FrameData)
    requires CollectedFrom(c, frames, decode) && decode(data).UdpPayload?
    ensures var key, payload := decode(data).key, decode(data).payload;
      var prior := if key in c.flows then c.flows[key] else [];
      CollectedFrom(c.(flows := c.flows[key := prior + payload]), frames + [data], decode)
  {
    var all := frames + [data];
    OneMoreFrame(frames, data, decode);
    var key, payload := decode(data).key, decode(data).payload;
    var prior := if key in c.flows then c.flows[key] else [];
    if key !in c.flows {
      FlowStreamEmpty(frames, key, decode);
    }
    var flows := c.flows[key := prior + payload];
    forall k | k in flows ensures flows[k] == FlowStream(all, k, decode) {
      if k != key {
        assert k in c.flows;
      }
    }
  }

  /** What one more frame adds to the TCP stream, the flow keys and each flow. */
  lemma OneMoreFrame(frames: seq<seq<byte>>, data: seq<byte>, decode: seq<byte> -> FrameData)
    ensures TcpStream(frames + [data], decode) == TcpStream(frames, decode) + TcpPart(decode(data))
    ensures FlowKeys(frames + [data], decode) == FlowKeys(frames, decode) + (if decode(data).UdpPayload? then {decode(data).key} else {})
    ensures forall k :: FlowStream(frames + [data], k, decode) == FlowStream(frames, k, decode) + UdpPart(decode(data), k)
  {
    var all := frames + [data];
    assert all[..|all| - 1] == frames && all[|all| - 1] == data;
  }

  /** The read loop over the frames the reader yields, each taken apart by
      `decode`. A read error ends the import with an error; otherwise the TCP
      stream and the UDP flows of all frames are returned. */
  method ReadCapture(items: seq<CaptureItem>, decode: seq<byte> -> FrameData) returns (r: Result<Collected, string>)
    ensures FirstFailure(items).Some? ==> r == Err("pcap read error: " + FirstFailure(items).value)
    ensures FirstFailure(items).None? ==> r.Ok? && CollectedFrom(r.value, Frames(items), decode)
  {
    var c := Collected([], map[]);
    var i := 0;
    while i < |items|
      invariant i <= |items|
      invariant FirstFailure(items[..i]).None?
      invariant c == Collect(Frames(items[..i]), decode)
      decreases |items| - i
    {
      var item := items[i];
      CaptureStep(items, i);
      match item {
        case ReadFailure(reason) =>
          return Err("pcap read error: " + reason);
        case Frame(data) =>
          CollectExactly(c, Frames(items[..i]), decode);
          c := AddFrame(c, Frames(items[..i]), data, decode);
          CollectExactly(c, Frames(items[..i]) + [data], decode);
      }
      i := i + 1;
    }
    assert items[..i] == items;
    CollectExactly(c, Frames(items), decode);
    return Ok(c);
  }

  /** One more item read after no error: a frame extends the frames, a read
      error is the first one of the whole capture. */
  lemma CaptureStep(items: seq<CaptureItem>, i: nat)
    requires i < |items| && FirstFailure(items[..i]).None?
    ensures items[i].Frame? ==> FirstFailure(items[..i + 1]).None? && Frames(items[..i + 1]) == Frames(items[..i]) + [items[i].data]
    ensures items[i].ReadFailure? ==> FirstFailure(items) == Some(items[i].reason)
  {
    var next := items[..i + 1];
    assert next[..i] == items[..i] && next[i] == items[i];
    if items[i].ReadFailure? {
      FirstFailureStays(items, i + 1);
    }
  }

  // ---------------------------------------------------------------------
  // The search order

  /** What one UDP flow yields: a ClientHello in its QUIC CRYPTO bytes when
      there are any and they hold one, else one in the raw flow bytes. */
  function FlowHello(buf: seq<byte>): Option<seq<byte>>
  {
    var crypto := Quic.FlowCrypto(buf, 0);
    if |crypto| > 0 && FindHello(crypto).Some? then FindHello(crypto) else FindHello(buf)
  }

  method SearchFlow(buf: seq<byte>) returns (r: Option<seq<byte>>)
    ensures r == FlowHello(buf)
  {
    var crypto := Quic.ExtractCryptoFromFlow(buf);
    if |crypto| > 0 {
      var ch := FindClientHelloInBuf(crypto);
      if ch.Some? {
        return ch;
      }
    }
    r := FindClientHelloInBuf(buf);
  }

  /** The outcomes the search may produce. The TCP stream is searched first;
      then the flows, in the unspecified order of the map, each by
      `FlowHello`. Whatever the order, the result is Ok exactly when some
      buffer holds a ClientHello, the TCP stream wins when it holds one, any
      other result is what some flow yields, `ja3` is None, and the error is
      the fixed not-found message. */
  predicate Searched(tcp: seq<byte>, flows: map<FlowKey, seq<byte>>, r: Result<TlsSnapshot, string>)
  {
    (FindHello(tcp).Some? ==> r == Ok(TlsSnapshot(FindHello(tcp).value, None))) &&
    (r.Ok? <==> FindHello(tcp).Some? || exists k :: k in flows && FlowHello(flows[k]).Some?) &&
    (r.Ok? ==> r.value.ja3 == None) &&
    (r.Ok? && FindHello(tcp).None? ==>
      exists k :: k in flows && FlowHello(flows[k]) == Some(r.value.rawClientHello)) &&
    (r.Err? ==> r.error == NotFound)
  }

  /** The search after the read loop. */
  method SearchCapture(tcp: seq<byte>, flows: map<FlowKey, seq<byte>>) returns (r: Result<TlsSnapshot, string>)
    ensures Searched(tcp, flows, r)
  {
    var ch := FindClientHelloInBuf(tcp);
    if ch.Some? {
      return Ok(TlsSnapshot(ch.value, None));
    }
    var pending := flows.Keys;
    while pending != {}
      invariant pending <= flows.Keys
      invariant forall k :: k in flows && k !in pending ==> FlowHello(flows[k]).None?
      decreases |pending|
    {
      var k :| k in pending;
      var found := SearchFlow(flows[k]);
      if found.Some? {
        return Ok(TlsSnapshot(found.value, None));
      }
      pending := pending - {k};
    }
    return Err(NotFound);
  }

  /** `import_pcap` after the capture file is opened: the read loop, then
      the search. */
  method ImportPcap(items: seq<CaptureItem>) returns (r: Result<TlsSnapshot, string>)
    ensures FirstFailure(items).Some? ==> r == Err("pcap read error: " + FirstFailure(items).value)
    ensures FirstFailure(items).None? ==> Searched(TcpStream(Frames(items), ParseFrame), FlowsOf(Frames(items), ParseFrame), r)
  {
    var collected := ReadCapture(items, ParseFrame);
    if collected.Err? {
      return Err(collected.error);
    }
    CollectedFlows(collected.value, Frames(items), ParseFrame);
    r := SearchCapture(collected.value.tcp, collected.value.flows);
  }
}
