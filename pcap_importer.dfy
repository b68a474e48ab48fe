/** `pcap_importer.rs`: the second importer. It reads frames through a
    packet-view library (a parameter here), collects the port-443 TCP stream
    and UDP flows as `import_pcap.rs` does, and searches them in the same
    order, with one more step per flow: when the flow's QUIC CRYPTO bytes are
    non-empty and hold no ClientHello, it tries to decrypt them as an Initial
    packet with fixed placeholder parameters and searches the plaintext. Its
    `find_client_hello_in_buf` is the same code as in `import_pcap.rs` and is
    `ImportPcap.FindClientHelloInBuf` here. */
module PcapImporter {
  import opened Bytes
  import opened Wrappers
  import opened ImportPcap
  import Quic
  import QuicDecrypt

  /** The placeholder destination connection id of the decryption fallback. */
  const FallbackDcid: seq<byte> := [0, 1, 2, 3]
  /** The fallback always asks for AES-128-GCM. */
  const FallbackKeyLength: nat := 16

  /** The all-zero packet nonce the fallback passes. */
  function ZeroNonce(): (r: seq<byte>)
    ensures |r| == QuicDecrypt.IvLength && forall i :: 0 <= i < |r| ==> r[i] == 0
  {
    seq(QuicDecrypt.IvLength, _ => 0 as byte)
  }

  /** The fallback call: placeholder DCID, a 16-byte key, empty key info,
      the zero nonce and empty additional data. */
  function Fallback(p: QuicDecrypt.Primitives, crypto: seq<byte>): Result<seq<byte>, string>
  {
    QuicDecrypt.DecryptSpec(p, FallbackDcid, FallbackKeyLength, [], crypto, ZeroNonce(), [])
  }

  /** What one UDP flow yields, in the code's order: a ClientHello in the
      CRYPTO bytes when they are non-empty; else, when they are non-empty,
      one in their decryption when it succeeds; else one in the raw flow. */
  function FlowHello(p: QuicDecrypt.Primitives, buf: seq<byte>): Option<seq<byte>>
  {
    var crypto := Quic.FlowCrypto(buf, 0);
    if |crypto| > 0 && FindHello(crypto).Some? then FindHello(crypto)
    else if |crypto| > 0 && Fallback(p, crypto).Ok? && FindHello(Fallback(p, crypto).value).Some? then
      FindHello(Fallback(p, crypto).value)
    else FindHello(buf)
  }

  /** The search of one flow. */
  method SearchFlow(p: QuicDecrypt.Primitives, buf: seq<byte>) returns (r: Option<seq<byte>>)
    ensures r == FlowHello(p, buf)
  {
    var crypto := Quic.ExtractCryptoFromFlow(buf);
    if |crypto| > 0 {
      var ch := FindClientHelloInBuf(crypto);
      if ch.Some? {
        return ch;
      }
      var pt := QuicDecrypt.DecryptInitialCrypto(p, FallbackDcid, FallbackKeyLength, [], crypto, ZeroNonce(), []);
      if pt.Ok? {
        var found := FindClientHelloInBuf(pt.value);
        if found.Some? {
          return found;
        }
      }
    }
    r := FindClientHelloInBuf(buf);
  }

  /** The fallback is the only difference from the other importer's flow
      search: it runs only when the CRYPTO bytes are non-empty and hold no
      ClientHello, and it changes the outcome only when the decryption
      succeeds and its plaintext holds a ClientHello, which is then the one
      returned. */
  lemma FallbackOnlyAdds(p: QuicDecrypt.Primitives, buf: seq<byte>)
    ensures var crypto := Quic.FlowCrypto(buf, 0);
      FlowHello(p, buf) == ImportPcap.FlowHello(buf) ||
      (|crypto| > 0 && FindHello(crypto).None? && Fallback(p, crypto).Ok? &&
       FlowHello(p, buf) == FindHello(Fallback(p, crypto).value) && FlowHello(p, buf).Some?)
    ensures var crypto := Quic.FlowCrypto(buf, 0);
      (|crypto| == 0 || FindHello(crypto).Some?) ==> FlowHello(p, buf) == ImportPcap.FlowHello(buf)
  {
  }

  /** The fallback never fails on its own parameters: the key length is
      supported and the nonce has the IV's length, so it fails exactly when
      AES-128-GCM rejects the tag, and the nonce it decrypts under is the
      derived IV itself, since the packet nonce is all zero. */
  lemma FallbackUsesIv(p: QuicDecrypt.Primitives, crypto: seq<byte>)
    ensures var key, iv := QuicDecrypt.DerivedKey(p, FallbackDcid, 16), QuicDecrypt.DerivedIv(p, FallbackDcid);
      key.Ok? &&
      (Fallback(p, crypto).Ok? <==> p.aes128Open(key.value, iv, crypto, []).Some?) &&
      (Fallback(p, crypto).Ok? ==> p.aes128Open(key.value, iv, crypto, []) == Some(Fallback(p, crypto).value))
  {
    var iv := QuicDecrypt.DerivedIv(p, FallbackDcid);
    var z := ZeroNonce();
    forall i | 0 <= i < |iv| ensures QuicDecrypt.XorBytes(iv, z)[i] == iv[i] {
      XorZero(iv[i]);
    }
    assert QuicDecrypt.XorBytes(iv, z) == iv;
  }

  /** The outcomes the search may produce, for any order of the flow map:
      the TCP stream wins when it holds a ClientHello; the result is Ok
      exactly when the TCP stream or some flow yields one; an Ok result from
      the flows is what some flow yields; `ja3` is None; the error is the
      fixed not-found message. */
  predicate Searched(p: QuicDecrypt.Primitives, tcp: seq<byte>, flows: map<FlowKey, seq<byte>>, r: Result<TlsSnapshot, string>)
  {
    (FindHello(tcp).Some? ==> r == Ok(TlsSnapshot(FindHello(tcp).value, None))) &&
    (r.Ok? <==> FindHello(tcp).Some? || exists k :: k in flows && FlowHello(p, flows[k]).Some?) &&
    (r.Ok? ==> r.value.ja3 == None) &&
    (r.Ok? && FindHello(tcp).None? ==>
      exists k :: k in flows && FlowHello(p, flows[k]) == Some(r.value.rawClientHello)) &&
    (r.Err? ==> r.error == NotFound)
  }

  /** The search after the read loop: the TCP stream, then each flow in
      the map's unspecified order. */
  method SearchCapture(p: QuicDecrypt.Primitives, tcp: seq<byte>, flows: map<FlowKey, seq<byte>>) returns (r: Result<TlsSnapshot, string>)
    ensures Searched(p, tcp, flows, r)
  {
    var ch := FindClientHelloInBuf(tcp);
    if ch.Some? {
      return Ok(TlsSnapshot(ch.value, None));
    }
    var pending := flows.Keys;
    while pending != {}
      invariant pending <= flows.Keys
      invariant forall k :: k in flows && k !in pending ==> FlowHello(p, flows[k]).None?
      decreases |pending|
    {
      var k :| k in pending;
      var found := SearchFlow(p, flows[k]);
      if found.Some? {
        return Ok(TlsSnapshot(found.value, None));
      }
      pending := pending - {k};
    }
    return Err(NotFound);
  }

  /** Whatever the fallback does, a capture the other importer finds a
      ClientHello in is one this importer finds a ClientHello in too. */
  lemma FindsWhatImportPcapFinds(p: QuicDecrypt.Primitives, tcp: seq<byte>, flows: map<FlowKey, seq<byte>>,
                                 r: Result<TlsSnapshot, string>, r': Result<TlsSnapshot, string>)
    requires ImportPcap.Searched(tcp, flows, r) && Searched(p, tcp, flows, r')
    ensures r.Ok? ==> r'.Ok?
  {
    if r.Ok? && FindHello(tcp).None? {
      var k :| k in flows && ImportPcap.FlowHello(flows[k]).Some?;
      FallbackOnlyAdds(p, flows[k]);
    }
  }

  /** `import_from_pcap` after the capture file is opened: the read loop,
      each frame taken apart by `decode` (the packet-view library), then the
      search. */
  method ImportFromPcap(p: QuicDecrypt.Primitives, items: seq<CaptureItem>, decode: seq<byte> -> FrameData)
    returns (r: Result<TlsSnapshot, string>)
    ensures FirstFailure(items).Some? ==> r == Err("pcap read error: " + FirstFailure(items).value)
    ensures FirstFailure(items).None? ==>
      Searched(p, TcpStream(Frames(items), decode), FlowsOf(Frames(items), decode), r)
  {
    var collected := ReadCapture(items, decode);
    if collected.Err? {
      return Err(collected.error);
    }
    CollectedFlows(collected.value, Frames(items), decode);
    r := SearchCapture(p, collected.value.tcp, collected.value.flows);
  }
}
