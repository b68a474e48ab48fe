/** Byte strings and the fixed-width integers of the Rust sources.
    Bytes, `u16`, `u32` and `u64` are integer newtypes bounded by their width, and every
    Rust `as u8` / `as u16` / `as u32` narrowing is written out as a
    reduction modulo the width. */
module Bytes {

  newtype byte = x: int | 0 <= x < 0x100

  newtype uint16 = x: int | 0 <= x < 0x1_0000
  newtype uint32 = x: int | 0 <= x < 0x1_0000_0000
  newtype uint64 = x: int | 0 <= x < 0x1_0000_0000_0000_0000

  /** Rust `n as u8`: the low eight bits. */
  function ByteOf(n: int): (b: byte)
    ensures b as int == n % 256
  {
    (n % 256) as byte
  }

  /** A value that fits in a byte is its own byte. */
  lemma ByteOfSmall(n: int)
    requires 0 <= n < 256
    ensures ByteOf(n) as int == n
  {
  }

  /** Rust `n as u16` on a `usize`. */
  function Trunc16(n: nat): (v: uint16)
    ensures v as int == n % 0x1_0000
  {
    (n % 0x1_0000) as uint16
  }

  /** A value that fits in 16 bits is not changed by the narrowing. */
  lemma Trunc16Small(n: nat)
    requires n < 0x1_0000
    ensures n % 0x1_0000 == n && Trunc16(n) as int == n
  {
  }

  /** Rust `n as u32` on a `usize` or `u64`. */
  function Trunc32(n: nat): (v: uint32)
    ensures v as int == n % 0x1_0000_0000
  {
    (n % 0x1_0000_0000) as uint32
  }

  function Pow256(k: nat): (p: nat)
    ensures p >= 1
  {
    if k == 0 then 1 else 256 * Pow256(k - 1)
  }

  /** The unsigned big-endian value of a byte string. */
  function BeValue(s: seq<byte>): nat
  {
    if s == [] then 0 else BeValue(s[..|s| - 1]) * 256 + s[|s| - 1] as int
  }

  /** The unsigned little-endian value of a byte string. */
  function LeValue(s: seq<byte>): nat
  {
    if s == [] then 0 else s[0] as int + 256 * LeValue(s[1..])
  }

  /** The 16-bit big-endian word at `s[i..i+2]`, as `((s[i] as u16) << 8) | s[i+1] as u16`. */
  function Be16At(s: seq<byte>, i: nat): (v: uint16)
    requires i + 1 < |s|
    ensures v as int == s[i] as int * 256 + s[i + 1] as int
  {
    (s[i] as int * 256 + s[i + 1] as int) as uint16
  }

  /** `Be16At` is the big-endian value of the two bytes. */
  lemma Be16AtValue(s: seq<byte>, i: nat)
    requires i + 1 < |s|
    ensures Be16At(s, i) as int == BeValue(s[i..i + 2])
  {
    BeValue2(s[i], s[i + 1]);
    assert s[i..i + 2] == [s[i], s[i + 1]];
  }

  /** An even-length byte string read as consecutive big-endian 16-bit words. */
  function Words(s: seq<byte>): (r: seq<uint16>)
    requires |s| % 2 == 0
    ensures |r| == |s| / 2
    ensures forall k :: 0 <= k < |r| ==> r[k] as int == BeValue(s[2 * k..2 * k + 2])
  {
    if s == [] then []
    else
      var rest := Words(s[2..]);
      assert forall k :: 0 <= k < |rest| ==> s[2..][2 * k..2 * k + 2] == s[2 * (k + 1)..2 * (k + 1) + 2];
      Be16AtValue(s, 0);
      [Be16At(s, 0)] + rest
  }

  /** Peeling the first word off a slice of a longer string. */
  lemma WordsStep(s: seq<byte>, i: nat, w: nat)
    requires i + 2 <= w <= |s| && (w - i) % 2 == 0
    ensures Words(s[i..w]) == [Be16At(s, i)] + Words(s[i + 2..w])
  {
    assert s[i..w][2..] == s[i + 2..w];
    assert s[i..w][0..2] == s[i..i + 2];
  }

  /** The 32-bit big-endian word at `s[i..i+4]`. */
  function Be32At(s: seq<byte>, i: nat): (v: uint32)
    requires i + 3 < |s|
    ensures v as int == BeValue(s[i..i + 4])
  {
    var w := s[i..i + 4];
    assert w == [s[i], s[i + 1], s[i + 2], s[i + 3]];
    BeValue4(s[i], s[i + 1], s[i + 2], s[i + 3]);
    BeValueBound(w);
    assert Pow256(4) == 0x1_0000_0000;
    (((s[i] as int * 256 + s[i + 1] as int) * 256 + s[i + 2] as int) * 256 + s[i + 3] as int) as uint32
  }

  /** `n` as `k` big-endian bytes (the low `8k` bits). */
  function BeBytes(n: nat, k: nat): (r: seq<byte>)
    ensures |r| == k && BeValue(r) == n % Pow256(k)
  {
    if k == 0 then []
    else
      var r := BeBytes(n / 256, k - 1) + [ByteOf(n)];
      assert r[..|r| - 1] == BeBytes(n / 256, k - 1);
      ModSplitHigh(n, k);
      r
  }

  lemma ModSplitHigh(n: nat, k: nat)
    requires k >= 1
    ensures ((n / 256) % Pow256(k - 1)) * 256 + n % 256 == n % Pow256(k)
  {
    ModSplit(n, 256, Pow256(k - 1));
  }

  /** A `u32` as four big-endian bytes (`u32::to_be_bytes`). */
  function U32Be(v: uint32): (r: seq<byte>)
    ensures |r| == 4 && BeValue(r) == v as int
  {
    assert Pow256(4) == 0x1_0000_0000;
    BeBytes(v as int, 4)
  }

  /** `write_u16_be`: the two bytes it appends. */
  function U16Be(v: uint16): (r: seq<byte>)
    ensures |r| == 2 && BeValue(r) == v as int
  {
    var r := [ByteOf(v as int / 256), ByteOf(v as int)];
    BeValue2(r[0], r[1]);
    r
  }

  /** `write_u24_be`: the three bytes it appends, the low 24 bits of `n`. */
  function U24Be(n: nat): (r: seq<byte>)
    ensures |r| == 3 && BeValue(r) == n % 0x100_0000
  {
    var r := [ByteOf(n / 0x1_0000), ByteOf(n / 256), ByteOf(n)];
    BeValue3(r[0], r[1], r[2]);
    U24Arith(n);
    r
  }

  lemma BeValue2(a: byte, b: byte)
    ensures BeValue([a, b]) == a as int * 256 + b as int
  {
    assert [a, b][..1] == [a];
    assert [a][..0] == [];
    assert BeValue([a]) == a as int;
  }

  lemma BeValue3(a: byte, b: byte, c: byte)
    ensures BeValue([a, b, c]) == (a as int * 256 + b as int) * 256 + c as int
  {
    assert [a, b, c][..2] == [a, b];
    BeValue2(a, b);
  }

  lemma BeValue4(a: byte, b: byte, c: byte, d: byte)
    ensures BeValue([a, b, c, d]) == ((a as int * 256 + b as int) * 256 + c as int) * 256 + d as int
  {
    assert [a, b, c, d][..3] == [a, b, c];
    BeValue3(a, b, c);
  }

  /** Euclidean division is unique. */
  lemma DivModUnique(v: int, d: int, k: int, m: int)
    requires d > 0 && 0 <= m < d && v == d * k + m
    ensures v / d == k && v % d == m
  {
    var k', m' := v / d, v % d;
    assert v == d * k' + m';
    if k' > k {
      assert d * k' >= d * (k + 1) by { MulMono(d, k + 1, k'); }
    } else if k' < k {
      assert d * k >= d * (k' + 1) by { MulMono(d, k' + 1, k); }
    }
  }

  lemma MulMono(d: int, x: int, y: int)
    requires d > 0 && x <= y
    ensures d * x <= d * y
  {
    assert d * y - d * x == d * (y - x);
  }

  lemma U24Arith(n: nat)
    ensures ((n / 0x1_0000) % 256 * 256 + (n / 256) % 256) * 256 + n % 256 == n % 0x100_0000
  {
    var a, b, c := (n / 0x1_0000) % 256, (n / 256) % 256, n % 256;
    var m := n % 0x100_0000;
    assert n / 256 == (n / 0x1_0000) * 256 + b;
    assert n == (n / 256) * 256 + c;
    assert n == (n / 0x1_0000) * 0x1_0000 + b * 256 + c;
    assert n / 0x1_0000 == (n / 0x100_0000) * 256 + a;
    assert n == (n / 0x100_0000) * 0x100_0000 + a * 0x1_0000 + b * 256 + c;
    assert 0 <= a * 0x1_0000 + b * 256 + c < 0x100_0000;
  }

  /** The first `k` little-endian bytes of `v` (Rust `to_le_bytes`). */
  function LeBytes(v: nat, k: nat): (r: seq<byte>)
    ensures |r| == k && LeValue(r) == v % Pow256(k)
  {
    if k == 0 then []
    else
      var r := [ByteOf(v)] + LeBytes(v / 256, k - 1);
      assert r[1..] == LeBytes(v / 256, k - 1);
      LeBytesArith(v, k);
      r
  }

  lemma LeBytesArith(v: nat, k: nat)
    requires k >= 1
    ensures v % 256 + 256 * ((v / 256) % Pow256(k - 1)) == v % Pow256(k)
  {
    ModSplit(v, 256, Pow256(k - 1));
  }

  /** Splitting off the lowest digit in base `b` of a value reduced modulo `b * p`. */
  lemma ModSplit(v: nat, b: nat, p: nat)
    requires b > 0 && p > 0
    ensures v % b + b * ((v / b) % p) == v % (b * p)
  {
    var w := v / b;
    var q := w / p;
    var m := b * (w % p) + v % b;
    assert w == p * q + w % p;
    assert v == b * w + v % b;
    assert v == (b * p) * q + m by {
      assert b * w == b * (p * q) + b * (w % p);
      assert b * (p * q) == (b * p) * q;
    }
    assert 0 <= m < b * p by {
      assert w % p <= p - 1;
      MulMono(b, w % p, p - 1);
    }
    DivModUnique(v, b * p, q, m);
  }

  /** `write_u16_le` / `u16::to_le_bytes`. */
  function U16Le(v: uint16): (r: seq<byte>)
    ensures |r| == 2 && LeValue(r) == v as int
  {
    LeBytes(v as int, 2)
  }

  /** `write_u32_le` / `u32::to_le_bytes`. */
  function U32Le(v: uint32): (r: seq<byte>)
    ensures |r| == 4 && LeValue(r) == v as int
  {
    LeBytes(v as int, 4)
  }

  /** The four bytes of `u32::to_le_bytes`, lowest first. */
  lemma U32LeDigits(v: uint32)
    ensures U32Le(v) == [ByteOf(v as int), ByteOf(v as int / 0x100), ByteOf(v as int / 0x1_0000), ByteOf(v as int / 0x100_0000)]
  {
    var n := v as int;
    var n1, n2, n3 := n / 0x100, n / 0x1_0000, n / 0x100_0000;
    assert n1 / 0x100 == n2 && n2 / 0x100 == n3;
    assert LeBytes(n3, 1) == [ByteOf(n3)];
    assert LeBytes(n2, 2) == [ByteOf(n2)] + LeBytes(n3, 1);
    assert LeBytes(n1, 3) == [ByteOf(n1)] + LeBytes(n2, 2);
    assert LeBytes(n, 4) == [ByteOf(n)] + LeBytes(n1, 3);
  }

  /** Two byte strings of the same length with the same little-endian value are equal. */
  lemma {:induction false} LeValueInjective(a: seq<byte>, b: seq<byte>)
    requires |a| == |b| && LeValue(a) == LeValue(b)
    ensures a == b
  {
    if a != [] {
      assert a[0] as int == LeValue(a) % 256 && b[0] as int == LeValue(b) % 256;
      assert LeValue(a[1..]) == LeValue(a) / 256 && LeValue(b[1..]) == LeValue(b) / 256;
      LeValueInjective(a[1..], b[1..]);
      assert a == [a[0]] + a[1..] && b == [b[0]] + b[1..];
    }
  }

  /** Big-endian values of a concatenation. */
  lemma {:induction false} BeValueAppend(a: seq<byte>, b: seq<byte>)
    ensures BeValue(a + b) == BeValue(a) * Pow256(|b|) + BeValue(b)
  {
    if b != [] {
      var b' := b[..|b| - 1];
      assert (a + b)[..|a + b| - 1] == a + b';
      BeValueAppend(a, b');
      var x, p, y, z := BeValue(a), Pow256(|b'|), BeValue(b'), b[|b| - 1] as int;
      assert (a + b)[|a + b| - 1] == b[|b| - 1];
      assert BeValue(a + b) == BeValue(a + b') * 256 + z;
      assert BeValue(b) == y * 256 + z;
      assert Pow256(|b|) == 256 * p;
      Distrib(x, p, y, z);
    } else {
      assert a + b == a;
    }
  }

  lemma Distrib(x: int, p: int, y: int, z: int)
    ensures (x * p + y) * 256 + z == x * (256 * p) + (y * 256 + z)
  {
  }

  /** A big-endian value is smaller than 256 to the power of its width. */
  lemma {:induction false} BeValueBound(s: seq<byte>)
    ensures BeValue(s) < Pow256(|s|)
  {
    if s != [] {
      BeValueBound(s[..|s| - 1]);
    }
  }

  /** The two parts of a slice that equals a concatenation of two. */
  lemma SliceHalves(s: seq<byte>, p: nat, a: seq<byte>, b: seq<byte>)
    requires p + |a| + |b| <= |s| && s[p..p + |a| + |b|] == a + b
    ensures s[p..p + |a|] == a && s[p + |a|..p + |a| + |b|] == b
  {
    var w := s[p..p + |a| + |b|];
    forall i | 0 <= i < |a| ensures s[p + i] == a[i] { assert s[p + i] == w[i]; }
    forall i | 0 <= i < |b| ensures s[p + |a| + i] == b[i] { assert s[p + |a| + i] == w[|a| + i]; }
  }

  /** The three parts of a slice that equals a concatenation of three. */
  lemma SliceParts(s: seq<byte>, p: nat, a: seq<byte>, b: seq<byte>, c: seq<byte>)
    requires p + |a| + |b| + |c| <= |s| && s[p..p + |a| + |b| + |c|] == a + b + c
    ensures s[p..p + |a|] == a
    ensures s[p + |a|..p + |a| + |b|] == b
    ensures s[p + |a| + |b|..p + |a| + |b| + |c|] == c
  {
    var w := s[p..p + |a| + |b| + |c|];
    forall i | 0 <= i < |a| ensures s[p + i] == a[i] { assert s[p + i] == w[i]; }
    forall i | 0 <= i < |b| ensures s[p + |a| + i] == b[i] { assert s[p + |a| + i] == w[|a| + i]; }
    forall i | 0 <= i < |c| ensures s[p + |a| + |b| + i] == c[i] { assert s[p + |a| + |b| + i] == w[|a| + |b| + i]; }
  }

  /** Bitwise exclusive or of the low `k` bits of `a` and `b`, lowest bit first. */
  function XorBits(a: nat, b: nat, k: nat): (r: nat)
    ensures r < Pow2(k)
  {
    if k == 0 then 0 else (a + b) % 2 + 2 * XorBits(a / 2, b / 2, k - 1)
  }

  function Pow2(k: nat): (p: nat)
    ensures p >= 1
  {
    if k == 0 then 1 else 2 * Pow2(k - 1)
  }

  /** Bitwise exclusive or of two bytes (Rust `a ^ b` on `u8`). */
  function Xor(a: byte, b: byte): (r: byte)
  {
    assert Pow2(8) == 256;
    XorBits(a as int, b as int, 8) as byte
  }

  /** Exclusive or with `b` twice gives back the low `k` bits of `a`. */
  lemma {:induction false} XorBitsCancel(a: nat, b: nat, k: nat)
    ensures XorBits(XorBits(a, b, k), b, k) == a % Pow2(k)
  {
    if k > 0 {
      var r := XorBits(a, b, k);
      var rr := XorBits(a / 2, b / 2, k - 1);
      LowBit((a + b) % 2, rr);
      ParityCancel(a, b, r);
      XorBitsCancel(a / 2, b / 2, k - 1);
      ModSplit(a, 2, Pow2(k - 1));
    }
  }

  lemma LowBit(y: int, q: int)
    requires 0 <= y < 2
    ensures (y + 2 * q) % 2 == y && (y + 2 * q) / 2 == q
  {
  }

  lemma ParityCancel(a: int, b: int, r: int)
    requires r % 2 == (a + b) % 2
    ensures (r + b) % 2 == a % 2
  {
  }

  /** Exclusive or with zero keeps the low `k` bits. */
  lemma {:induction false} XorBitsZero(a: nat, k: nat)
    ensures XorBits(a, 0, k) == a % Pow2(k)
  {
    if k > 0 {
      XorBitsZero(a / 2, k - 1);
      ModSplit(a, 2, Pow2(k - 1));
    }
  }

  /** Xor with the same byte twice gives back the original byte. */
  lemma XorCancel(a: byte, b: byte)
    ensures Xor(Xor(a, b), b) == a
  {
    var x := Xor(a, b);
    assert x as int == XorBits(a as int, b as int, 8);
    assert Xor(x, b) as int == XorBits(x as int, b as int, 8);
    XorBitsCancel(a as int, b as int, 8);
    assert Pow2(8) == 256;
    ByteOfSmall(a as int);
  }

  /** Xor with zero leaves a byte unchanged. */
  lemma XorZero(a: byte)
    ensures Xor(a, 0) == a
  {
    assert Pow2(8) == 256;
    XorBitsZero(a as int, 8);
    ByteOfSmall(a as int);
  }

  /** For a fixed first operand, xor is injective in the second. */
  lemma XorInjective(a: byte, b: byte, c: byte)
    requires Xor(a, b) == Xor(a, c)
    ensures b == c
  {
    XorCommutes(a, b);
    XorCommutes(a, c);
    XorCancel(b, a);
    XorCancel(c, a);
  }

  lemma {:induction false} XorBitsCommutes(a: nat, b: nat, k: nat)
    ensures XorBits(a, b, k) == XorBits(b, a, k)
  {
    if k > 0 {
      XorBitsCommutes(a / 2, b / 2, k - 1);
    }
  }

  lemma XorCommutes(a: byte, b: byte)
    ensures Xor(a, b) == Xor(b, a)
  {
    XorBitsCommutes(a as int, b as int, 8);
  }
}
