/** `quic_decrypt.rs`: the glue around HKDF-SHA256 and AES-GCM that tries
    to decrypt the CRYPTO bytes of a QUIC Initial packet. The byte layouts
    (the HKDF-Expand-Label info block of section 7.1 of RFC 8446, the labels
    of section 5.1 of RFC 9001, the nonce of section 5.3 of RFC 9001) and the
    order of the error checks are modelled; the primitives are parameters. */
module QuicDecrypt {
  import opened Bytes
  import opened Text
  import opened Wrappers

  /** The cryptographic primitives the code calls into.
      `extract(salt, ikm)` is HKDF-Extract; `expandByte(prk, info, k)` is byte
      `k` of the HKDF-Expand output stream, so an output of length `n` is its
      first `n` bytes; `aes128Open` / `aes256Open` take key, nonce, ciphertext
      and additional data and give the plaintext, or None when the tag does
      not verify. */
  datatype Primitives = Primitives(
    extract: (seq<byte>, seq<byte>) -> seq<byte>,
    expandByte: (seq<byte>, seq<byte>, nat) -> byte,
    aes128Open: (seq<byte>, seq<byte>, seq<byte>, seq<byte>) -> Option<seq<byte>>,
    aes256Open: (seq<byte>, seq<byte>, seq<byte>, seq<byte>) -> Option<seq<byte>>)

  /** The QUIC version 1 initial salt. */
  const InitialSaltV1: seq<byte> := [
    0x38, 0x76, 0x2c, 0xf7, 0xf5, 0x59, 0x34, 0xb3,
    0x4d, 0x17, 0x9a, 0xe6, 0xa4, 0xc8, 0x0c, 0xad,
    0xcc, 0xbb, 0x7f, 0x0a]

  /** HKDF-SHA256 refuses outputs longer than 255 hash lengths. */
  const MaxOutput: nat := 255 * 32

  const KeyLabel: string := "quic key"
  const IvLabel: string := "quic iv"
  const IvLength: nat := 12

  /** The first `n` bytes of HKDF-Expand. */
  function Okm(p: Primitives, prk: seq<byte>, info: seq<byte>, n: nat): (r: seq<byte>)
    ensures |r| == n
  {
    seq(n, k requires 0 <= k < n => p.expandByte(prk, info, k))
  }

  /** `hkdf_extract_expand`: extract with `salt`, then expand to `outLen`
      bytes, failing when `outLen` is beyond what HKDF can produce. */
  function HkdfExtractExpand(p: Primitives, salt: seq<byte>, ikm: seq<byte>, info: seq<byte>, outLen: nat): (r: Result<seq<byte>, string>)
    ensures r.Ok? <==> outLen <= MaxOutput
    ensures r.Ok? ==> |r.value| == outLen
  {
    if outLen > MaxOutput then Err("hkdf expand error")
    else Ok(Okm(p, p.extract(salt, ikm), info, outLen))
  }

  /** `initial_secret`: extract with the version 1 salt from the
      destination connection id, then expand with empty info to 32 bytes. */
  function InitialSecret(p: Primitives, dcid: seq<byte>): (r: Result<seq<byte>, string>)
    ensures r == Ok(Okm(p, p.extract(InitialSaltV1, dcid), [], 32))
  {
    HkdfExtractExpand(p, InitialSaltV1, dcid, [], 32)
  }

  /** The info block of HKDF-Expand-Label: the output length as two bytes
      (each narrowed with `as u8`), the length of "tls13 " + name as one
      byte, those label bytes, and an empty context. */
  function LabelInfo(outLen: nat, name: string): seq<byte>
  {
    var full := Utf8("tls13 " + name);
    [ByteOf(outLen / 256), ByteOf(outLen)] + [ByteOf(|full|)] + full + [0]
  }

  /** `hkdf_expand_label`'s construction of `info`, push by push. */
  method BuildLabelInfo(outLen: nat, name: string) returns (info: seq<byte>)
    ensures info == LabelInfo(outLen, name)
  {
    info := [];
    info := info + [ByteOf((outLen / 256) % 256)];
    info := info + [ByteOf(outLen % 256)];
    var full := Utf8("tls13 " + name);
    info := info + [ByteOf(|full|)];
    info := info + full;
    info := info + [0];
  }

  /** For an ASCII label the info block is `10 + |name|` bytes: the output
      length modulo 65536 big-endian, the length of the full label, "tls13 ",
      the label and a zero byte. */
  lemma LabelInfoLayout(outLen: nat, name: string)
    requires IsAscii(name) && |name| <= 249
    ensures var info := LabelInfo(outLen, name);
      |info| == 10 + |name| &&
      BeValue(info[..2]) == outLen % 0x1_0000 &&
      info[2] as int == 6 + |name| &&
      info[3..9] == Utf8("tls13 ") &&
      (forall i :: 0 <= i < |name| ==> info[9 + i] as int == name[i] as int) &&
      info[9 + |name|] == 0
  {
    var u := Utf8("tls13 " + name);
    var info := LabelInfo(outLen, name);
    LabelInfoParts(outLen, name);
    FullLabel(name);
    BeValue2(ByteOf(outLen / 256), ByteOf(outLen));
    TwoByteLength(outLen);
    ByteOfSmall(|u|);
    assert info[3..9] == u[..6];
    forall i | 0 <= i < |name| ensures info[9 + i] as int == name[i] as int {
      assert info[9 + i] == u[6 + i];
    }
  }

  /** The four parts of an info block. */
  lemma LabelInfoParts(outLen: nat, name: string)
    ensures var info, u := LabelInfo(outLen, name), Utf8("tls13 " + name);
      |info| == 4 + |u| && info[..2] == [ByteOf(outLen / 256), ByteOf(outLen)] &&
      info[2] == ByteOf(|u|) && info[3..3 + |u|] == u && info[3 + |u|] == 0
  {
  }

  /** The bytes of "tls13 " followed by an ASCII name. */
  lemma FullLabel(name: string)
    requires IsAscii(name)
    ensures var u := Utf8("tls13 " + name);
      |u| == 6 + |name| && u[..6] == Utf8("tls13 ") &&
      forall i :: 0 <= i < |name| ==> u[6 + i] as int == name[i] as int
  {
    var prefix := "tls13 ";
    assert IsAscii(prefix) by {
      forall i | 0 <= i < |prefix| ensures prefix[i] as int < 128 {}
    }
    Utf8AsciiAppend(prefix, name);
  }

  /** The encoding of two ASCII strings one after the other is the two
      encodings one after the other. */
  lemma Utf8AsciiAppend(a: string, b: string)
    requires IsAscii(a) && IsAscii(b)
    ensures Utf8(a + b) == Utf8(a) + Utf8(b)
  {
    AsciiAppend(a, b);
    var u, v := Utf8(a + b), Utf8(a) + Utf8(b);
    forall i | 0 <= i < |u| ensures u[i] == v[i] {
      if i < |a| {
        assert (a + b)[i] == a[i];
      } else {
        assert (a + b)[i] == b[i - |a|];
      }
    }
  }

  lemma AsciiAppend(a: string, b: string)
    requires IsAscii(a) && IsAscii(b)
    ensures IsAscii(a + b)
  {
    assert forall i :: 0 <= i < |a + b| ==> (a + b)[i] == if i < |a| then a[i] else b[i - |a|];
  }

  lemma TwoByteLength(n: nat)
    ensures ((n / 256) % 256) * 256 + n % 256 == n % 0x1_0000
  {
    ModSplit(n, 256, 256);
  }

  /** Two ASCII labels give the same info block only when they are the same
      label and the output lengths agree modulo 65536. */
  lemma LabelInfoInjective(m: nat, a: string, n: nat, b: string)
    requires IsAscii(a) && |a| <= 249 && IsAscii(b) && |b| <= 249
    requires LabelInfo(m, a) == LabelInfo(n, b)
    ensures a == b && m % 0x1_0000 == n % 0x1_0000
  {
    LabelInfoLayout(m, a);
    LabelInfoLayout(n, b);
    var info := LabelInfo(m, a);
    forall i | 0 <= i < |a| ensures a[i] == b[i] {
      assert a[i] as int == info[9 + i] as int == b[i] as int;
    }
  }

  /** The key and the IV are expanded from different info blocks. */
  lemma KeyAndIvInfoDiffer(keyLen: nat)
    ensures LabelInfo(keyLen, KeyLabel) != LabelInfo(IvLength, IvLabel)
  {
    assert IsAscii(KeyLabel) by {
      forall i | 0 <= i < |KeyLabel| ensures KeyLabel[i] as int < 128 {}
    }
    assert IsAscii(IvLabel) by {
      forall i | 0 <= i < |IvLabel| ensures IvLabel[i] as int < 128 {}
    }
    InfoLength(keyLen, KeyLabel);
    InfoLength(IvLength, IvLabel);
  }

  /** An info block is ten bytes longer than its ASCII label. */
  lemma InfoLength(outLen: nat, name: string)
    requires IsAscii(name)
    ensures |LabelInfo(outLen, name)| == 10 + |name|
  {
    LabelInfoParts(outLen, name);
    FullLabel(name);
  }

  /** `hkdf_expand_label`: expand-label re-extracts from `secret` with an
      empty salt, as the code does. */
  function HkdfExpandLabel(p: Primitives, secret: seq<byte>, name: string, outLen: nat): (r: Result<seq<byte>, string>)
    ensures r.Ok? <==> outLen <= MaxOutput
    ensures r.Ok? ==> r.value == Okm(p, p.extract([], secret), LabelInfo(outLen, name), outLen)
  {
    HkdfExtractExpand(p, [], secret, LabelInfo(outLen, name), outLen)
  }

  method ExpandLabel(p: Primitives, secret: seq<byte>, name: string, outLen: nat) returns (r: Result<seq<byte>, string>)
    ensures r == HkdfExpandLabel(p, secret, name, outLen)
  {
    var info := BuildLabelInfo(outLen, name);
    r := HkdfExtractExpand(p, [], secret, info, outLen);
  }

  /** Position-wise xor of two byte strings of the same length. */
  function XorBytes(a: seq<byte>, b: seq<byte>): (r: seq<byte>)
    requires |a| == |b|
    ensures |r| == |a|
    ensures forall i :: 0 <= i < |r| ==> r[i] == Xor(a[i], b[i])
  {
    seq(|a|, i requires 0 <= i < |a| => Xor(a[i], b[i]))
  }

  /** The real AEAD nonce: the IV xor the packet nonce, filled in index order. */
  method RealNonce(iv: seq<byte>, nonce: seq<byte>) returns (mixed: seq<byte>)
    requires |iv| == |nonce|
    ensures mixed == XorBytes(iv, nonce)
  {
    var buf := new byte[|iv|](_ => 0);
    for i := 0 to |iv|
      invariant forall j :: 0 <= j < i ==> buf[j] == Xor(iv[j], nonce[j])
    {
      buf[i] := Xor(iv[i], nonce[i]);
    }
    mixed := buf[..];
  }

  /** Xor with the IV is undone by xor with the IV: the packet nonce can be
      recovered from the real nonce, so distinct packet nonces give
      distinct real nonces. */
  lemma XorBytesCancel(iv: seq<byte>, nonce: seq<byte>)
    requires |iv| == |nonce|
    ensures XorBytes(iv, XorBytes(iv, nonce)) == nonce
  {
    forall i | 0 <= i < |iv| ensures XorBytes(iv, XorBytes(iv, nonce))[i] == nonce[i] {
      XorCommutes(iv[i], nonce[i]);
      XorCommutes(iv[i], Xor(nonce[i], iv[i]));
      XorCancel(nonce[i], iv[i]);
    }
  }

  /** The AEAD key derived for `keyLen` bytes from the initial secret. */
  function DerivedKey(p: Primitives, dcid: seq<byte>, keyLen: nat): Result<seq<byte>, string>
  {
    HkdfExpandLabel(p, InitialSecret(p, dcid).value, KeyLabel, keyLen)
  }

  /** The 12-byte IV derived from the initial secret. */
  function DerivedIv(p: Primitives, dcid: seq<byte>): (r: seq<byte>)
    ensures |r| == IvLength
  {
    HkdfExpandLabel(p, InitialSecret(p, dcid).value, IvLabel, IvLength).value
  }

  /** `decrypt_initial_crypto`. `keyInfo` is accepted and never read. The
      checks run in the code's order: the key expansion, then the nonce
      length, then the key length, then the AEAD tag. */
  function DecryptSpec(p: Primitives, dcid: seq<byte>, keyLen: nat, keyInfo: seq<byte>,
                       ciphertext: seq<byte>, nonce: seq<byte>, aad: seq<byte>): (r: Result<seq<byte>, string>)
    ensures keyLen > MaxOutput ==> r == Err("hkdf expand error")
    ensures keyLen <= MaxOutput && |nonce| != IvLength ==> r == Err("nonce/iv len mismatch")
    ensures |nonce| == IvLength && keyLen != 16 && keyLen != 32 ==> r.Err?
    ensures r.Ok? ==> |nonce| == IvLength && (keyLen == 16 || keyLen == 32)
    ensures r.Ok? && keyLen == 16 ==>
      p.aes128Open(DerivedKey(p, dcid, 16).value, XorBytes(DerivedIv(p, dcid), nonce), ciphertext, aad) == Some(r.value)
    ensures r.Ok? && keyLen == 32 ==>
      p.aes256Open(DerivedKey(p, dcid, 32).value, XorBytes(DerivedIv(p, dcid), nonce), ciphertext, aad) == Some(r.value)
  {
    var key := DerivedKey(p, dcid, keyLen);
    if key.Err? then Err(key.error)
    else if |nonce| != IvLength then Err("nonce/iv len mismatch")
    else
      var mixed := XorBytes(DerivedIv(p, dcid), nonce);
      if keyLen == 16 then
        match p.aes128Open(key.value, mixed, ciphertext, aad)
        case None => Err("decrypt failed")
        case Some(pt) => Ok(pt)
      else if keyLen == 32 then
        match p.aes256Open(key.value, mixed, ciphertext, aad)
        case None => Err("decrypt failed")
        case Some(pt) => Ok(pt)
      else Err("unsupported key length")
  }

  method DecryptInitialCrypto(p: Primitives, dcid: seq<byte>, keyLen: nat, keyInfo: seq<byte>,
                              ciphertext: seq<byte>, nonce: seq<byte>, aad: seq<byte>) returns (r: Result<seq<byte>, string>)
    ensures r == DecryptSpec(p, dcid, keyLen, keyInfo, ciphertext, nonce, aad)
  {
    // Expanding to 32 bytes, and below to 12, never fails.
    var prk := InitialSecret(p, dcid).value;
    var key := ExpandLabel(p, prk, KeyLabel, keyLen);
    if key.Err? {
      return Err(key.error);
    }
    var iv := ExpandLabel(p, prk, IvLabel, IvLength);
    if |nonce| != |iv.value| {
      return Err("nonce/iv len mismatch");
    }
    var mixed := RealNonce(iv.value, nonce);
    if keyLen == 16 {
      var pt := p.aes128Open(key.value, mixed, ciphertext, aad);
      if pt.None? {
        return Err("decrypt failed");
      }
      return Ok(pt.value);
    } else if keyLen == 32 {
      var pt := p.aes256Open(key.value, mixed, ciphertext, aad);
      if pt.None? {
        return Err("decrypt failed");
      }
      return Ok(pt.value);
    }
    return Err("unsupported key length");
  }
}
