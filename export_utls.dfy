/** The uTLS export of a template (hello-template/src/export_utls.rs): a
    one-to-one mirror of the extension list in uTLS's own kinds, and a Go
    source snippet declaring the matching `utls.ClientHelloSpec`. */
module ExportUtls {
  import opened Bytes
  import opened Text
  import opened TemplateEncoder

  /** `UtlsKeyShare`. */
  datatype UtlsKeyShare = UtlsKeyShare(group: uint16, data: seq<byte>)

  /** `UtlsExt`: uTLS's extension kinds. */
  datatype UtlsExt =
    | SNIExtension(serverName: string)
    | SupportedCurvesExtension(curves: seq<uint16>)
    | SupportedPointsExtension(supportedPoints: seq<byte>)
    | SignatureAlgorithmsExtension(algs: seq<uint16>)
    | ALPNExtension(alpnProtocols: seq<string>)
    | KeyShareExtension(keyShares: seq<UtlsKeyShare>)
    | PSKKeyExchangeModesExtension(modes: seq<byte>)
    | SupportedVersionsExtension(versions: seq<uint16>)
    | ApplicationSettingsExtension(supportedProtocols: seq<string>, data: seq<byte>)
    | GenericExtension(id: uint16, data: seq<byte>)
    | GREASEExtension
    | UtlsPaddingExtension(getPaddingLen: string)

  /** `UtlsJson`. */
  datatype UtlsJson = UtlsJson(
    tlsVersMin: uint16,
    tlsVersMax: uint16,
    cipherSuites: seq<uint16>,
    extensions: seq<UtlsExt>)

  // ---------------------------------------------------------------------------
  // `export_utls_json`
  // ---------------------------------------------------------------------------

  /** The Go function uTLS calls for the padding length, returning `len`. */
  function PaddingFunc(len: nat): string
  {
    "func(clientHelloLen int) int { return " + Decimal(len) + " }"
  }

  function ToKeyShares(shares: seq<(uint16, seq<byte>)>): (r: seq<UtlsKeyShare>)
    ensures |r| == |shares|
    ensures forall k :: 0 <= k < |r| ==> r[k] == UtlsKeyShare(shares[k].0, shares[k].1)
  {
    seq(|shares|, k requires 0 <= k < |shares| => UtlsKeyShare(shares[k].0, shares[k].1))
  }

  /** The uTLS kind one template extension maps to. */
  function ToUtls(e: Extension): UtlsExt
  {
    match e
    case ServerName(host) => SNIExtension(host)
    case SupportedVersions(vs) => SupportedVersionsExtension(vs)
    case SupportedGroups(gs, _) => SupportedCurvesExtension(gs)
    case SignatureAlgorithms(algs) => SignatureAlgorithmsExtension(algs)
    case KeyShare(shares) => KeyShareExtension(ToKeyShares(shares))
    case Alpn(ps) => ALPNExtension(ps)
    case Padding(len) => UtlsPaddingExtension(PaddingFunc(len))
    case EchOuterStub(configId) => GenericExtension(0xfe0d, configId)
    case ApplicationSettings(ps, data) => ApplicationSettingsExtension(ps, data)
    case Unknown(typ, bytes) => GenericExtension(typ, bytes)
    case PskKeyExchangeModes(modes) => PSKKeyExchangeModesExtension(modes)
  }

  /** `export_utls_json`: versions 1.2 to 1.3 whatever the template says, the
      suites verbatim, and one uTLS extension per template extension, in order. */
  function ExportUtlsJson(t: HelloTemplate): (j: UtlsJson)
    ensures j.tlsVersMin == 0x0303 && j.tlsVersMax == 0x0304 && j.cipherSuites == t.cipherSuites
    ensures |j.extensions| == |t.extensions|
    ensures forall k :: 0 <= k < |j.extensions| ==> j.extensions[k] == ToUtls(t.extensions[k])
  {
    UtlsJson(0x0303, 0x0304, t.cipherSuites,
             seq(|t.extensions|, k requires 0 <= k < |t.extensions| => ToUtls(t.extensions[k])))
  }

  lemma PaddingFuncInjective(m: nat, n: nat)
    requires PaddingFunc(m) == PaddingFunc(n)
    ensures m == n
  {
    var pre := "func(clientHelloLen int) int { return ";
    var a, b := PaddingFunc(m), PaddingFunc(n);
    assert |Decimal(m)| == |Decimal(n)|;
    assert Decimal(m) == a[|pre|..|a| - 2];
    assert Decimal(n) == b[|pre|..|b| - 2];
    DecimalInjective(m, n);
  }

  lemma ToKeySharesInjective(xs: seq<(uint16, seq<byte>)>, ys: seq<(uint16, seq<byte>)>)
    requires ToKeyShares(xs) == ToKeyShares(ys)
    ensures xs == ys
  {
    forall k | 0 <= k < |xs| ensures xs[k] == ys[k] {
      assert ToKeyShares(xs)[k] == ToKeyShares(ys)[k];
    }
  }

  /** The mirror keeps everything the wire encoding shows: extensions that
      export alike encode alike. Only the GREASE slots of a group list are
      dropped, and an ECH stub exports like an Unknown 0xfe0d extension,
      which the encoder writes identically. */
  lemma ExportKeepsWire(e: Extension, f: Extension)
    requires ToUtls(e) == ToUtls(f)
    ensures ExtensionBytes(e) == ExtensionBytes(f)
  {
    match e
    case KeyShare(xs) =>
      ToKeySharesInjective(xs, f.shares);
    case Padding(m) =>
      PaddingFuncInjective(m, f.len);
    case EchOuterStub(c) =>
      assert ExtensionType(f) == 0xfe0d && ExtensionData(f) == c;
    case Unknown(typ, bytes) =>
      assert ExtensionType(f) == typ && ExtensionData(f) == bytes;
    case _ =>
      assert ExtensionData(e) == ExtensionData(f);
  }

  /** Templates with the same export have the same extension block on the wire. */
  lemma {:induction false} ExportDeterminesExtensionsBlock(xs: seq<Extension>, ys: seq<Extension>)
    requires |xs| == |ys| && forall k :: 0 <= k < |xs| ==> ToUtls(xs[k]) == ToUtls(ys[k])
    ensures ExtensionsBlock(xs) == ExtensionsBlock(ys)
  {
    if xs != [] {
      var n := |xs| - 1;
      ExportDeterminesExtensionsBlock(xs[..n], ys[..n]);
      ExportKeepsWire(xs[n], ys[n]);
    }
  }

  /** The export reads neither `tls_version`, nor `grease_mode`, nor the GREASE slots. */
  lemma ExportIgnoresUnreadFields(t: HelloTemplate, u: HelloTemplate)
    requires t.cipherSuites == u.cipherSuites && |t.extensions| == |u.extensions|
    requires forall k :: 0 <= k < |t.extensions| ==> SameUpToGreaseSlots(t.extensions[k], u.extensions[k])
    ensures ExportUtlsJson(t) == ExportUtlsJson(u)
  {
    forall k | 0 <= k < |t.extensions| ensures ToUtls(t.extensions[k]) == ToUtls(u.extensions[k]) {
      assert SameUpToGreaseSlots(t.extensions[k], u.extensions[k]);
    }
  }

  // ---------------------------------------------------------------------------
  // `export_utls_go`
  // ---------------------------------------------------------------------------

  /** `format!("0x{:04x}", v)` and `format!("0x{:02x}", b)`. */
  function Hex4(v: uint16): (r: string)
    ensures |r| == 6
  {
    "0x" + Hex(v as nat, 4)
  }

  function Hex2(b: byte): (r: string)
    ensures |r| == 4
  {
    "0x" + Hex(b as nat, 2)
  }

  /** One `CipherSuites` entry. */
  function SuiteLine(cs: uint16): (r: string)
    ensures |r| == 12
  {
    "    " + Hex4(cs) + ",\n"
  }

  /** The suite list, one line per suite, in template order. */
  function SuiteList(suites: seq<uint16>): (r: string)
    ensures |r| == 12 * |suites|
  {
    ConcatMapLength(suites, SuiteLine, 12);
    ConcatMap(suites, SuiteLine)
  }

  /** One quoted ALPN protocol line. */
  function ProtocolLine(p: string): string
  {
    "      \"" + p + "\",\n"
  }

  /** One `Data` byte of a generic extension. */
  function DataItem(b: byte): (r: string)
    ensures |r| == 6
  {
    Hex2(b) + ", "
  }

  /** The data items of a generic extension, one per byte, in order. */
  function DataList(bytes: seq<byte>): (r: string)
    ensures |r| == 6 * |bytes|
  {
    ConcatMapLength(bytes, DataItem, 6);
    ConcatMap(bytes, DataItem)
  }

  function UnknownHead(typ: uint16): string
  {
    "    &utls.GenericExtension{Id: " + Hex4(typ) + ", Data: []byte{"
  }

  /** What the snippet says for one extension: server name, ALPN and
      unknown extensions only; every other kind is left out. */
  function GoExtension(e: Extension): string
  {
    match e
    case ServerName(host) => "    &utls.SNIExtension{ServerName: \"" + host + "\"},\n"
    case Alpn(ps) => "    &utls.ALPNExtension{AlpnProtocols: []string{\n" + ConcatMap(ps, ProtocolLine) + "    }},\n"
    case Unknown(typ, bytes) => UnknownHead(typ) + DataList(bytes) + "0x00}},\n"
    case _ => ""
  }

  predicate Shown(e: Extension)
  {
    e.ServerName? || e.Alpn? || e.Unknown?
  }

  /** The `format!` of the fixed version range. */
  function VersionLine(): string
  {
    "  TLSVersMin: " + Hex4(0x0303) + ", TLSVersMax: " + Hex4(0x0304) + ",\n"
  }

  /** The snippet up to the cipher suite list. */
  function GoPreamble(): string
  {
    "package templates\n\n" + "import \"github.com/refraction-networking/utls\"\n\n"
      + "var Spec = &utls.ClientHelloSpec{\n"
      + VersionLine()
      + "  CipherSuites: []uint16{\n"
  }

  /** `export_utls_go`: the whole snippet. */
  function GoSnippet(t: HelloTemplate): string
  {
    GoPreamble() + SuiteList(t.cipherSuites) + "  },\n" + "  Extensions: []utls.TLSExtension{\n"
      + ConcatMap(t.extensions, GoExtension) + "  },\n" + "}\n"
  }

  /** Writes a value as the snippet does. */
  method AppendAll<T>(go: string, xs: seq<T>, f: T -> string) returns (out: string)
    ensures out == go + ConcatMap(xs, f)
  {
    out := go;
    for i := 0 to |xs|
      invariant out == go + ConcatMap(xs[..i], f)
    {
      assert xs[..i + 1][..i] == xs[..i];
      ConcatAssoc(go, ConcatMap(xs[..i], f), f(xs[i]));
      out := out + f(xs[i]);
    }
    assert xs[..|xs|] == xs;
  }

  /** The `match ext` of the extension loop. */
  method AppendGoExtension(go: string, e: Extension) returns (out: string)
    ensures out == go + GoExtension(e)
  {
    match e
    case ServerName(host) =>
      out := go + ("    &utls.SNIExtension{ServerName: \"" + host + "\"},\n");
      return;
    case Alpn(ps) =>
      var open := "    &utls.ALPNExtension{AlpnProtocols: []string{\n";
      out := go + open;
      out := AppendAll(out, ps, ProtocolLine);
      ConcatAssoc(go, open, ConcatMap(ps, ProtocolLine));
      out := out + "    }},\n";
      ConcatAssoc(go, open + ConcatMap(ps, ProtocolLine), "    }},\n");
      return;
    case Unknown(typ, bytes) =>
      out := go + UnknownHead(typ);
      out := AppendAll(out, bytes, DataItem);
      ConcatAssoc(go, UnknownHead(typ), ConcatMap(bytes, DataItem));
      out := out + "0x00}},\n";
      ConcatAssoc(go, UnknownHead(typ) + ConcatMap(bytes, DataItem), "0x00}},\n");
      return;
    case _ =>
      out := go;
      assert go + "" == go;
      return;
  }

  /** The `for ext in &t.extensions` loop. */
  method AppendGoExtensions(go: string, exts: seq<Extension>) returns (out: string)
    ensures out == go + ConcatMap(exts, GoExtension)
  {
    out := go;
    for i := 0 to |exts|
      invariant out == go + ConcatMap(exts[..i], GoExtension)
    {
      assert exts[..i + 1][..i] == exts[..i];
      ConcatAssoc(go, ConcatMap(exts[..i], GoExtension), GoExtension(exts[i]));
      out := AppendGoExtension(out, exts[i]);
    }
    assert exts[..|exts|] == exts;
  }

  /** `export_utls_go`. */
  method ExportUtlsGo(t: HelloTemplate) returns (go: string)
    ensures go == GoSnippet(t)
  {
    go := "package templates\n\n";
    go := go + "import \"github.com/refraction-networking/utls\"\n\n";
    go := go + "var Spec = &utls.ClientHelloSpec{\n";
    go := go + VersionLine();
    go := go + "  CipherSuites: []uint16{\n";
    go := AppendAll(go, t.cipherSuites, SuiteLine);
    go := go + "  },\n";
    go := go + "  Extensions: []utls.TLSExtension{\n";
    go := AppendGoExtensions(go, t.extensions);
    go := go + "  },\n";
    go := go + "}\n";
  }

  // ---------------------------------------------------------------------------
  // What the snippet says.
  // ---------------------------------------------------------------------------

  /** Four hex digits read back as the 16-bit value they print. */
  lemma Hex4ReadsBack(v: uint16)
    ensures Hex4(v)[..2] == "0x" && Hex4(v)[2..] == Hex(v as nat, 4) && HexValue(Hex4(v)[2..]) == v as nat
  {
    assert Pow16(4) == 0x1_0000;
  }

  lemma Hex2ReadsBack(b: byte)
    ensures Hex2(b)[..2] == "0x" && Hex2(b)[2..] == Hex(b as nat, 2) && HexValue(Hex2(b)[2..]) == b as nat
  {
    assert Pow16(2) == 0x100;
  }

  /** Suite `k` of the template is line `k` of the suite list, whose four
      lower-case hex digits read back as the suite. */
  lemma SuiteLineAt(suites: seq<uint16>, k: nat)
    requires k < |suites|
    ensures |SuiteList(suites)| == 12 * |suites|
    ensures var line := SuiteList(suites)[12 * k..12 * k + 12];
      line[..6] == "    0x" && line[10..] == ",\n" && line[6..10] == Hex(suites[k] as nat, 4)
      && HexValue(line[6..10]) == suites[k] as nat
  {
    ConcatMapAt(suites, SuiteLine, 12, k);
    Hex4ReadsBack(suites[k]);
    var line := SuiteLine(suites[k]);
    assert line[6..10] == Hex4(suites[k])[2..];
  }

  /** Byte `k` of an unknown extension's data is item `k` of its `Data`
      list, whose two hex digits read back as the byte; after the items the
      list ends with an extra `0x00` that is not part of the data. */
  lemma UnknownDataAt(typ: uint16, bytes: seq<byte>, k: nat)
    requires k < |bytes|
    ensures GoExtension(Unknown(typ, bytes)) == UnknownHead(typ) + DataList(bytes) + "0x00}},\n"
    ensures |DataList(bytes)| == 6 * |bytes|
    ensures var item := DataList(bytes)[6 * k..6 * k + 6];
      item[..2] == "0x" && item[4..] == ", " && item[2..4] == Hex(bytes[k] as nat, 2)
      && HexValue(item[2..4]) == bytes[k] as nat
  {
    ConcatMapAt(bytes, DataItem, 6, k);
    Hex2ReadsBack(bytes[k]);
    var item := DataItem(bytes[k]);
    assert item[2..4] == Hex2(bytes[k])[2..];
  }

  /** Only server name, ALPN and unknown extensions reach the snippet:
      dropping every other kind from the template changes nothing. */
  lemma OnlyShownKinds(exts: seq<Extension>)
    ensures ConcatMap(exts, GoExtension) == ConcatMap(Filter(exts, Shown), GoExtension)
    ensures forall e :: GoExtension(e) == "" <==> !Shown(e)
  {
    forall e | !Shown(e) ensures GoExtension(e) == "" { }
    ConcatMapSkipsEmpty(exts, GoExtension, Shown);
  }
}
