/** Text helpers shared by the fingerprint strings and the Go snippet:
    UTF-8 encoding (`str::as_bytes`), decimal `{}` and lower-case hex
    `{:0Nx}` formatting, and `join`. */
module Text {
  import opened Bytes

  predicate IsAscii(s: string)
  {
    forall i :: 0 <= i < |s| ==> s[i] as int < 128
  }

  /** The UTF-8 encoding of one Unicode scalar value. */
  function Utf8Char(c: char): (r: seq<byte>)
    ensures 1 <= |r| <= 4
    ensures c as int < 128 ==> r == [c as int as byte]
  {
    var n := c as int;
    if n < 0x80 then [n as byte]
    else if n < 0x800 then [ByteOf(0xC0 + n / 0x40), ByteOf(0x80 + n % 0x40)]
    else if n < 0x1_0000 then
      [ByteOf(0xE0 + n / 0x1000), ByteOf(0x80 + (n / 0x40) % 0x40), ByteOf(0x80 + n % 0x40)]
    else
      [ByteOf(0xF0 + n / 0x4_0000), ByteOf(0x80 + (n / 0x1000) % 0x40),
       ByteOf(0x80 + (n / 0x40) % 0x40), ByteOf(0x80 + n % 0x40)]
  }

  /** `str::as_bytes`: the UTF-8 encoding of a string. An ASCII string
      encodes to one byte per character, with the character's code. */
  function Utf8(s: string): (r: seq<byte>)
    ensures IsAscii(s) ==> |r| == |s| && forall i :: 0 <= i < |s| ==> r[i] as int == s[i] as int
  {
    if s == [] then []
    else
      var r := Utf8Char(s[0]) + Utf8(s[1..]);
      assert IsAscii(s) ==> IsAscii(s[1..]) by {
        if IsAscii(s) {
          forall i | 0 <= i < |s[1..]| ensures s[1..][i] as int < 128 { assert s[1..][i] == s[i + 1]; }
        }
      }
      r
  }

  predicate IsDigit(c: char)
  {
    '0' <= c <= '9'
  }

  function DigitChar(d: nat): (c: char)
    requires d < 10
    ensures IsDigit(c) && c as int - '0' as int == d
  {
    (48 + d) as char
  }

  /** Rust's `{}` formatting of an unsigned integer: its decimal digits,
      without leading zeros. */
  function Decimal(n: nat): (r: string)
    ensures |r| >= 1 && forall i :: 0 <= i < |r| ==> IsDigit(r[i])
    ensures n < 10 <==> |r| == 1
  {
    if n < 10 then [DigitChar(n)] else Decimal(n / 10) + [DigitChar(n % 10)]
  }

  /** Distinct numbers print differently. */
  lemma {:induction false} DecimalInjective(m: nat, n: nat)
    requires Decimal(m) == Decimal(n)
    ensures m == n
  {
    if m >= 10 && n >= 10 {
      var a, b := Decimal(m), Decimal(n);
      assert a[|a| - 1] == DigitChar(m % 10) && b[|b| - 1] == DigitChar(n % 10);
      assert a[..|a| - 1] == Decimal(m / 10) && b[..|b| - 1] == Decimal(n / 10);
      DecimalInjective(m / 10, n / 10);
    } else if m < 10 && n < 10 {
      assert Decimal(m)[0] == DigitChar(m);
    }
  }

  /** A character that is not a digit does not occur in a decimal string. */
  lemma DigitsAvoid(n: nat, c: char)
    requires !IsDigit(c)
    ensures c !in Decimal(n)
  {
  }

  predicate IsLowerHex(c: char)
  {
    '0' <= c <= '9' || 'a' <= c <= 'f'
  }

  function HexDigit(d: nat): (c: char)
    requires d < 16
    ensures IsLowerHex(c) && HexDigitValue(c) == d
  {
    if d < 10 then (48 + d) as char else (87 + d) as char
  }

  function HexDigitValue(c: char): nat
    requires IsLowerHex(c)
  {
    if c <= '9' then c as int - '0' as int else c as int - 'a' as int + 10
  }

  function Pow16(k: nat): (p: nat)
    ensures p >= 1
  {
    if k == 0 then 1 else 16 * Pow16(k - 1)
  }

  /** The value of a string of lower-case hex digits. */
  function HexValue(s: string): nat
    requires forall i :: 0 <= i < |s| ==> IsLowerHex(s[i])
  {
    if s == [] then 0 else HexValue(s[..|s| - 1]) * 16 + HexDigitValue(s[|s| - 1])
  }

  /** Rust's `{:0wx}`: the `w` lowest lower-case hex digits of `n`, zero-padded.
      Reading the digits back gives `n` whenever `n` has at most `w` digits. */
  function Hex(n: nat, w: nat): (r: string)
    ensures |r| == w && forall i :: 0 <= i < |r| ==> IsLowerHex(r[i])
    ensures HexValue(r) == n % Pow16(w)
  {
    if w == 0 then ""
    else
      var r := Hex(n / 16, w - 1) + [HexDigit(n % 16)];
      assert r[..|r| - 1] == Hex(n / 16, w - 1);
      ModSplit(n, 16, Pow16(w - 1));
      r
  }

  /** `format!("{:x}", digest)` of a byte array: two lower-case hex digits per byte. */
  function HexBytes(bs: seq<byte>): (r: string)
    ensures |r| == 2 * |bs| && forall i :: 0 <= i < |r| ==> IsLowerHex(r[i])
  {
    if bs == [] then "" else Hex(bs[0] as int, 2) + HexBytes(bs[1..])
  }

  /** `parts.join(sep)`. */
  function Join(parts: seq<string>, sep: char): string
    decreases |parts|, 1
  {
    if parts == [] then "" else parts[0] + JoinTail(parts[1..], sep)
  }

  /** What follows the first part of a join: empty, or the separator and the rest. */
  function JoinTail(rest: seq<string>, sep: char): (r: string)
    ensures r == [] <==> rest == []
    decreases |rest|, 2
  {
    if rest == [] then "" else [sep] + Join(rest, sep)
  }

  /** Joining one more part appends the separator and that part. */
  lemma {:induction false} JoinSnoc(parts: seq<string>, x: string, sep: char)
    requires parts != []
    ensures Join(parts + [x], sep) == Join(parts, sep) + [sep] + x
  {
    var ps := parts + [x];
    assert ps[0] == parts[0] && ps[1..] == parts[1..] + [x];
    if |parts| == 1 {
      assert ps[1..] == [x] && [x][1..] == [];
      assert Join([x], sep) == x;
      assert Join(parts, sep) == parts[0];
    } else {
      JoinSnoc(parts[1..], x, sep);
      var j := Join(parts[1..], sep);
      assert Join(ps, sep) == parts[0] + ([sep] + (j + [sep] + x));
      assert Join(parts, sep) == parts[0] + ([sep] + j);
    }
  }

  predicate SepFree(parts: seq<string>, sep: char)
  {
    forall i :: 0 <= i < |parts| ==> sep !in parts[i]
  }

  /** Two strings without `sep`, each followed by nothing or by `sep`-led text,
      are equal when their concatenations are. */
  lemma SplitAtSep(x: string, a: string, y: string, b: string, sep: char)
    requires sep !in x && sep !in y
    requires (a == [] || a[0] == sep) && (b == [] || b[0] == sep)
    requires x + a == y + b
    ensures x == y && a == b
  {
    var c := x + a;
    assert c == y + b;
    assert forall i :: 0 <= i < |x| ==> c[i] == x[i] != sep;
    assert forall i :: 0 <= i < |y| ==> c[i] == y[i] != sep;
    assert a != [] ==> c[|x|] == sep;
    assert b != [] ==> c[|y|] == sep;
    assert |x| == |y|;
    assert x == c[..|x|] && y == (y + b)[..|y|];
    assert a == c[|x|..] && b == (y + b)[|y|..];
  }

  /** Joining the same number of separator-free parts is injective (parts may be empty). */
  lemma {:induction false} JoinInjectiveSameCount(xs: seq<string>, ys: seq<string>, sep: char)
    requires |xs| == |ys| && SepFree(xs, sep) && SepFree(ys, sep)
    requires Join(xs, sep) == Join(ys, sep)
    ensures xs == ys
  {
    if xs != [] {
      SplitAtSep(xs[0], JoinTail(xs[1..], sep), ys[0], JoinTail(ys[1..], sep), sep);
      if |xs| > 1 {
        assert [sep] + Join(xs[1..], sep) == [sep] + Join(ys[1..], sep);
        assert Join(xs[1..], sep) == ([sep] + Join(xs[1..], sep))[1..];
        assert SepFree(xs[1..], sep) && SepFree(ys[1..], sep) by {
          forall i | 0 <= i < |xs| - 1 ensures sep !in xs[1..][i] && sep !in ys[1..][i] {
            assert xs[1..][i] == xs[i + 1] && ys[1..][i] == ys[i + 1];
          }
        }
        JoinInjectiveSameCount(xs[1..], ys[1..], sep);
      }
      assert xs == [xs[0]] + xs[1..] && ys == [ys[0]] + ys[1..];
    }
  }

  predicate NonEmptyParts(parts: seq<string>)
  {
    forall i :: 0 <= i < |parts| ==> parts[i] != []
  }

  /** Joining non-empty separator-free parts is injective, whatever their number. */
  lemma {:induction false} JoinInjective(xs: seq<string>, ys: seq<string>, sep: char)
    requires SepFree(xs, sep) && SepFree(ys, sep) && NonEmptyParts(xs) && NonEmptyParts(ys)
    requires Join(xs, sep) == Join(ys, sep)
    ensures xs == ys
  {
    assert ys != [] ==> |Join(ys, sep)| >= |ys[0]| > 0;
    assert xs != [] ==> |Join(xs, sep)| >= |xs[0]| > 0;
    if xs != [] {
      SplitAtSep(xs[0], JoinTail(xs[1..], sep), ys[0], JoinTail(ys[1..], sep), sep);
      if |xs| > 1 && |ys| > 1 {
        assert Join(xs[1..], sep) == JoinTail(xs[1..], sep)[1..];
        assert Join(ys[1..], sep) == JoinTail(ys[1..], sep)[1..];
        assert SepFree(xs[1..], sep) && NonEmptyParts(xs[1..]) by {
          forall i | 0 <= i < |xs| - 1 ensures sep !in xs[1..][i] && xs[1..][i] != [] {
            assert xs[1..][i] == xs[i + 1];
          }
        }
        assert SepFree(ys[1..], sep) && NonEmptyParts(ys[1..]) by {
          forall i | 0 <= i < |ys| - 1 ensures sep !in ys[1..][i] && ys[1..][i] != [] {
            assert ys[1..][i] == ys[i + 1];
          }
        }
        JoinInjective(xs[1..], ys[1..], sep);
      }
      assert xs == [xs[0]] + xs[1..] && ys == [ys[0]] + ys[1..];
    }
  }
  /** Every character of a join is the separator or a character of some part. */
  lemma {:induction false} JoinChars(parts: seq<string>, sep: char)
    ensures forall c :: c in Join(parts, sep) ==> c == sep || exists i :: 0 <= i < |parts| && c in parts[i]
  {
    if parts != [] {
      JoinChars(parts[1..], sep);
      forall c | c in Join(parts, sep) && c != sep && c !in parts[0]
        ensures exists i :: 0 <= i < |parts| && c in parts[i]
      {
        var tail := JoinTail(parts[1..], sep);
        assert Join(parts, sep) == parts[0] + tail;
        assert c in tail;
        assert tail == [sep] + Join(parts[1..], sep);
        assert c in Join(parts[1..], sep);
        var i :| 0 <= i < |parts[1..]| && c in parts[1..][i];
        assert parts[1..][i] == parts[i + 1];
      }
    }
  }

  /** The number of occurrences of `c` in `s`. */
  function Count(s: string, c: char): (n: nat)
    ensures n <= |s|
    ensures n == 0 <==> c !in s
  {
    if s == [] then 0
    else
      assert c in s <==> s[0] == c || c in s[1..];
      (if s[0] == c then 1 else 0) + Count(s[1..], c)
  }

  lemma {:induction false} CountAppend(a: string, b: string, c: char)
    ensures Count(a + b, c) == Count(a, c) + Count(b, c)
  {
    if a != [] {
      assert (a + b)[1..] == a[1..] + b;
      CountAppend(a[1..], b, c);
    } else {
      assert a + b == b;
    }
  }

  /** A join of `n >= 1` separator-free parts holds the separator `n - 1` times. */
  lemma {:induction false} CountJoin(parts: seq<string>, sep: char)
    requires parts != [] && SepFree(parts, sep)
    ensures Count(Join(parts, sep), sep) == |parts| - 1
  {
    var tail := JoinTail(parts[1..], sep);
    CountAppend(parts[0], tail, sep);
    if |parts| > 1 {
      assert SepFree(parts[1..], sep) by {
        forall i | 0 <= i < |parts| - 1 ensures sep !in parts[1..][i] { assert parts[1..][i] == parts[i + 1]; }
      }
      CountJoin(parts[1..], sep);
      CountAppend([sep], Join(parts[1..], sep), sep);
    }
  }

  /** ASCII strings with the same UTF-8 encoding are equal. */
  lemma Utf8AsciiInjective(s: string, t: string)
    requires IsAscii(s) && IsAscii(t) && Utf8(s) == Utf8(t)
    ensures s == t
  {
    assert |s| == |t|;
    forall i | 0 <= i < |s| ensures s[i] == t[i] {
      assert Utf8(s)[i] == Utf8(t)[i];
    }
  }
  /** The pieces `f` makes of each element, one after the other. */
  function ConcatMap<T, U>(xs: seq<T>, f: T -> seq<U>): seq<U>
  {
    if xs == [] then [] else ConcatMap(xs[..|xs| - 1], f) + f(xs[|xs| - 1])
  }

  /** The same pieces, read from the front: the first element's piece, then the rest. */
  lemma {:induction false} ConcatMapFront<T, U>(xs: seq<T>, f: T -> seq<U>)
    requires xs != []
    ensures ConcatMap(xs, f) == f(xs[0]) + ConcatMap(xs[1..], f)
  {
    if |xs| > 1 {
      var init := xs[..|xs| - 1];
      ConcatMapFront(init, f);
      assert init[1..] == xs[1..][..|xs[1..]| - 1];
      ConcatAssoc(f(xs[0]), ConcatMap(init[1..], f), f(xs[|xs| - 1]));
    } else {
      assert xs[..0] == [] && xs[1..] == [];
    }
  }

  /** When every piece has width `w`, piece `k` sits at offset `w * k`. */
  lemma {:induction false} ConcatMapAt<T>(xs: seq<T>, f: T -> string, w: nat, k: nat)
    requires forall x :: |f(x)| == w
    requires k < |xs|
    ensures |ConcatMap(xs, f)| == w * |xs|
    ensures w * k + w <= w * |xs|
    ensures ConcatMap(xs, f)[w * k..w * k + w] == f(xs[k])
  {
    MulLe(w, k + 1, |xs|);
    var init := xs[..|xs| - 1];
    ConcatMapLength(xs, f, w);
    ConcatMapLength(init, f, w);
    assert w * |xs| == w * |init| + w;
    if k < |init| {
      ConcatMapAt(init, f, w, k);
      assert w * k + w <= w * |init| by { MulLe(w, k + 1, |init|); }
      assert ConcatMap(xs, f)[w * k..w * k + w] == ConcatMap(init, f)[w * k..w * k + w];
    } else {
      assert w * k == w * |init|;
    }
  }

  lemma {:induction false} ConcatMapLength<T>(xs: seq<T>, f: T -> string, w: nat)
    requires forall x :: |f(x)| == w
    ensures |ConcatMap(xs, f)| == w * |xs|
  {
    if xs != [] {
      ConcatMapLength(xs[..|xs| - 1], f, w);
      assert w * |xs| == w * (|xs| - 1) + w;
    }
  }

  lemma MulLe(w: nat, a: nat, b: nat)
    requires a <= b
    ensures w * a <= w * b
  {
    assert w * b == w * a + w * (b - a);
  }

  /** The elements that satisfy `p`, in order. */
  function Filter<T>(xs: seq<T>, p: T -> bool): (r: seq<T>)
    ensures |r| <= |xs| && forall k :: 0 <= k < |r| ==> p(r[k])
  {
    if xs == [] then []
    else
      var init := Filter(xs[..|xs| - 1], p);
      if p(xs[|xs| - 1]) then init + [xs[|xs| - 1]] else init
  }

  /** Elements whose piece is empty can be dropped without changing the result. */
  lemma {:induction false} ConcatMapSkipsEmpty<T>(xs: seq<T>, f: T -> string, p: T -> bool)
    requires forall x :: !p(x) ==> f(x) == ""
    ensures ConcatMap(xs, f) == ConcatMap(Filter(xs, p), f)
  {
    if xs != [] {
      var init, last := xs[..|xs| - 1], xs[|xs| - 1];
      ConcatMapSkipsEmpty(init, f, p);
      if p(last) {
        var fi := Filter(init, p);
        assert (fi + [last])[..|fi|] == fi;
      } else {
        assert ConcatMap(xs, f) == ConcatMap(init, f) + "";
      }
    }
  }

  lemma ConcatAssoc<T>(a: seq<T>, b: seq<T>, c: seq<T>)
    ensures (a + b) + c == a + (b + c)
  {
  }
}
