/** `bo-aead`: the ChaCha20-Poly1305 wrappers of the tunnel. The nonce is
    the 12-byte salt with its first eight bytes xored with the
    little-endian counter; keys that are not 32 bytes are refused before
    any nonce is built. The cipher itself is a parameter. */
module BoAead {
  import opened Bytes
  import opened Wrappers

  /** The error type of the wrappers (`CoreError::Io`). */
  datatype CoreError = Io(msg: string)

  /** A call that either returns or panics. */
  datatype Run<+T> = Returns(value: T) | Panics

  /** ChaCha20-Poly1305 (section 2.8 of RFC 8439), supplied by the caller:
      key, nonce, additional data and message in, sealed or opened bytes
      out, None on failure. */
  datatype Cipher = Cipher(
    encrypt: (seq<byte>, seq<byte>, seq<byte>, seq<byte>) -> Option<seq<byte>>,
    decrypt: (seq<byte>, seq<byte>, seq<byte>, seq<byte>) -> Option<seq<byte>>)

  const KeyLength: nat := 32
  const NonceLength: nat := 12

  /** `le64_to_bytes`: the eight little-endian bytes of a counter. */
  function Le64ToBytes(v: uint64): (r: seq<byte>)
    ensures |r| == 8 && LeValue(r) == v as int
  {
    assert Pow256(8) == 0x1_0000_0000_0000_0000;
    LeBytes(v as int, 8)
  }

  /** `ns_and_counter_to_nonce`: None stands for the panic on a salt that is
      not 12 bytes. */
  function Nonce(ns: seq<byte>, counter: uint64): (r: Option<seq<byte>>)
    ensures r.Some? <==> |ns| == NonceLength
    ensures r.Some? ==> |r.value| == NonceLength
    ensures r.Some? ==> forall i :: 0 <= i < 8 ==> r.value[i] == Xor(ns[i], Le64ToBytes(counter)[i])
    ensures r.Some? ==> r.value[8..] == ns[8..]
  {
    if |ns| != NonceLength then None
    else
      var c := Le64ToBytes(counter);
      Some(seq(NonceLength, i requires 0 <= i < NonceLength => if i < 8 then Xor(ns[i], c[i]) else ns[i]))
  }

  /** The nonce builder as the code runs it: a 12-byte array filled by two
      index loops. */
  method NsAndCounterToNonce(ns: seq<byte>, counter: uint64) returns (r: Option<seq<byte>>)
    ensures r == Nonce(ns, counter)
  {
    if |ns| != NonceLength {
      return None;
    }
    var nonce := new byte[NonceLength](_ => 0);
    var c := Le64ToBytes(counter);
    for i := 0 to 8
      invariant forall j :: 0 <= j < i ==> nonce[j] == Xor(ns[j], c[j])
    {
      nonce[i] := Xor(ns[i], c[i]);
    }
    for i := 8 to NonceLength
      invariant forall j :: 0 <= j < 8 ==> nonce[j] == Xor(ns[j], c[j])
      invariant forall j :: 8 <= j < i ==> nonce[j] == ns[j]
    {
      nonce[i] := ns[i];
    }
    assert nonce[..] == Nonce(ns, counter).value by {
      forall j | 0 <= j < NonceLength ensures nonce[..][j] == Nonce(ns, counter).value[j] {
      }
    }
    r := Some(nonce[..]);
  }

  /** Counter zero leaves the salt unchanged. */
  lemma NonceAtZero(ns: seq<byte>)
    requires |ns| == NonceLength
    ensures Nonce(ns, 0) == Some(ns)
  {
    var c := Le64ToBytes(0);
    assert c == [0, 0, 0, 0, 0, 0, 0, 0] by {
      LeValueInjective(c, [0, 0, 0, 0, 0, 0, 0, 0]);
    }
    forall i | 0 <= i < 8 ensures Xor(ns[i], c[i]) == ns[i] {
      XorZero(ns[i]);
    }
    assert Nonce(ns, 0).value == ns;
  }

  /** For one salt, distinct counters give distinct nonces. */
  lemma NonceInjective(ns: seq<byte>, c1: uint64, c2: uint64)
    requires |ns| == NonceLength
    requires Nonce(ns, c1) == Nonce(ns, c2)
    ensures c1 == c2
  {
    var b1, b2 := Le64ToBytes(c1), Le64ToBytes(c2);
    forall i | 0 <= i < 8 ensures b1[i] == b2[i] {
      assert Nonce(ns, c1).value[i] == Nonce(ns, c2).value[i];
      XorInjective(ns[i], b1[i], b2[i]);
    }
    assert b1 == b2;
    LeValueInjective(b1, b2);
  }

  /** `seal_chacha20poly1305`. */
  function Seal(cipher: Cipher, key: seq<byte>, ns: seq<byte>, counter: uint64, aad: seq<byte>, plaintext: seq<byte>): (r: Run<Result<seq<byte>, CoreError>>)
    ensures |key| != KeyLength ==> r == Returns(Err(Io("invalid key len")))
    ensures |key| == KeyLength ==> (r.Panics? <==> |ns| != NonceLength)
    ensures r.Returns? && r.value.Ok? ==>
      |key| == KeyLength && cipher.encrypt(key, Nonce(ns, counter).value, aad, plaintext) == Some(r.value.value)
  {
    if |key| != KeyLength then Returns(Err(Io("invalid key len")))
    else match Nonce(ns, counter)
      case None => Panics
      case Some(n) =>
        match cipher.encrypt(key, n, aad, plaintext)
        case None => Returns(Err(Io("encrypt fail")))
        case Some(ct) => Returns(Ok(ct))
  }

  /** `open_chacha20poly1305`. */
  function Open(cipher: Cipher, key: seq<byte>, ns: seq<byte>, counter: uint64, aad: seq<byte>, sealed: seq<byte>): (r: Run<Result<seq<byte>, CoreError>>)
    ensures |key| != KeyLength ==> r == Returns(Err(Io("invalid key len")))
    ensures |key| == KeyLength ==> (r.Panics? <==> |ns| != NonceLength)
    ensures r.Returns? && r.value.Ok? ==>
      |key| == KeyLength && cipher.decrypt(key, Nonce(ns, counter).value, aad, sealed) == Some(r.value.value)
  {
    if |key| != KeyLength then Returns(Err(Io("invalid key len")))
    else match Nonce(ns, counter)
      case None => Panics
      case Some(n) =>
        match cipher.decrypt(key, n, aad, sealed)
        case None => Returns(Err(Io("decrypt fail")))
        case Some(pt) => Returns(Ok(pt))
  }

  /** Seal and open build the same nonce from the same salt and counter: if
      the cipher opens what it sealed under that nonce, opening the output
      of `Seal` gives back the plaintext. */
  lemma SealThenOpen(cipher: Cipher, key: seq<byte>, ns: seq<byte>, counter: uint64, aad: seq<byte>, plaintext: seq<byte>)
    requires Seal(cipher, key, ns, counter, aad, plaintext).Returns?
    requires Seal(cipher, key, ns, counter, aad, plaintext).value.Ok?
    requires var n := Nonce(ns, counter).value;
      cipher.decrypt(key, n, aad, cipher.encrypt(key, n, aad, plaintext).value) == Some(plaintext)
    ensures Open(cipher, key, ns, counter, aad, Seal(cipher, key, ns, counter, aad, plaintext).value.value) == Returns(Ok(plaintext))
  {
  }
}
