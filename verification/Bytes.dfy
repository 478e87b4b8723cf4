/** Bytes and little-endian integers. */
module Bytes {

  type byte = b: int | 0 <= b < 256

  const U32_LIMIT: int := 0x1_0000_0000
  const U64_LIMIT: int := 0x1_0000_0000_0000_0000

  datatype Option<+T> = None | Some(value: T)

  /** 16 to the n: one more than the largest number of n hexadecimal digits. */
  function Power16(n: nat): nat
  {
    if n == 0 then 1 else 16 * Power16(n - 1)
  }

  /** The value of a hexadecimal digit, given by its ASCII code. */
  function HexDigit(c: int): Option<nat>
  {
    if 48 <= c <= 57 then Some(c - 48)
    else if 97 <= c <= 102 then Some(c - 97 + 10)
    else if 65 <= c <= 70 then Some(c - 65 + 10)
    else None
  }

  /** A slice of a prefix is a slice of the whole. */
  lemma PrefixSlice<T>(s: seq<T>, n: nat, i: nat, j: nat)
    requires i <= j <= n <= |s|
    ensures s[..n][i..j] == s[i..j]
  {
  }

  /** A sequence from i on, in two parts. */
  lemma SuffixSlice<T>(s: seq<T>, i: nat, a: seq<T>, b: seq<T>)
    requires i <= |s| && s[i..] == a + b
    ensures i + |a| <= |s| && s[i..i + |a|] == a && s[i + |a|..] == b
  {
    assert s[i..i + |a|] == s[i..][..|a|] && s[i + |a|..] == s[i..][|a|..];
  }

  /** The parts of three sequences put together. */
  lemma Sliced<T>(a: seq<T>, b: seq<T>, c: seq<T>)
    ensures var s := a + b + c;
            && s[..|a|] == a && s[|a|..] == b + c && s[|a|..|a| + |b|] == b && s[|a| + |b|..] == c
            && a + (b + c) == s && forall i | 0 <= i < |a| :: s[i] == a[i]
  {
  }

  /** 256 to the n: one more than the largest unsigned integer of n bytes. */
  function Pow256(n: nat): (p: int)
    ensures p > 0
  {
    if n == 0 then 1 else 256 * Pow256(n - 1)
  }

  lemma PowTable()
    ensures Pow256(1) == 0x100
    ensures Pow256(2) == 0x1_0000
    ensures Pow256(4) == U32_LIMIT
    ensures Pow256(8) == U64_LIMIT
  {
    assert Pow256(3) == 0x100_0000 && Pow256(5) == 0x100_0000_0000;
    assert Pow256(6) == 0x1_0000_0000_0000 && Pow256(7) == 0x100_0000_0000_0000;
  }

  /** The n low bytes of u, lowest first. */
  function LittleEndian(u: nat, n: nat): (bs: seq<byte>)
    ensures |bs| == n
    decreases n
  {
    if n == 0 then [] else [u % 256] + LittleEndian(u / 256, n - 1)
  }

  function FromLittleEndian(bs: seq<byte>): (u: nat)
    ensures u < Pow256(|bs|)
  {
    if bs == [] then 0 else bs[0] + 256 * FromLittleEndian(bs[1..])
  }

  lemma {:induction false} LittleEndianRoundTrip(u: nat, n: nat)
    requires u < Pow256(n)
    ensures FromLittleEndian(LittleEndian(u, n)) == u
    decreases n
  {
    if n > 0 {
      LittleEndianRoundTrip(u / 256, n - 1);
      assert LittleEndian(u, n)[1..] == LittleEndian(u / 256, n - 1);
    }
  }

  lemma {:induction false} FromLittleEndianRoundTrip(bs: seq<byte>)
    ensures LittleEndian(FromLittleEndian(bs), |bs|) == bs
  {
    if bs != [] {
      var u := FromLittleEndian(bs[1..]);
      FromLittleEndianRoundTrip(bs[1..]);
      assert (bs[0] + 256 * u) % 256 == bs[0] && (bs[0] + 256 * u) / 256 == u;
      assert bs == [bs[0]] + bs[1..];
    }
  }

  lemma DivDiv(u: nat, p: int)
    requires p > 0
    ensures u / 256 / p == u / (256 * p)
  {
    var q, r := u / (256 * p), u % (256 * p);
    assert u == 256 * p * q + r;
    assert u / 256 == p * q + r / 256;
    assert 0 <= r / 256 < p;
    DivUnique(u / 256, p, q, r / 256);
  }

  lemma DivUnique(x: int, p: int, q: int, r: int)
    requires p > 0 && 0 <= r < p && x == p * q + r
    ensures x / p == q
  {
    var d := x / p - q;
    assert x == p * (x / p) + x % p;
    assert p * d == r - x % p;
    assert d >= 1 ==> p * d >= p;
    assert d <= -1 ==> p * d <= -p;
  }

  /** Appending the next byte of a shift-and-mask loop. */
  lemma {:induction false} LittleEndianStep(u: nat, n: nat)
    ensures u / Pow256(n) >= 0
    ensures LittleEndian(u, n + 1) == LittleEndian(u, n) + [u / Pow256(n) % 256]
    decreases n
  {
    if n > 0 {
      LittleEndianStep(u / 256, n - 1);
      DivDiv(u, Pow256(n - 1));
    }
  }

  /** Byte k is the k-th digit to the base 256. */
  lemma {:induction false} LittleEndianDigit(u: nat, n: nat, k: nat)
    requires k < n
    ensures LittleEndian(u, n)[k] == u / Pow256(k) % 256
    decreases k
  {
    if k > 0 {
      LittleEndianDigit(u / 256, n - 1, k - 1);
      DivDiv(u, Pow256(k - 1));
    }
  }

  lemma {:induction false} FromLittleEndianStep(bs: seq<byte>, b: byte)
    ensures FromLittleEndian(bs + [b]) == FromLittleEndian(bs) + b * Pow256(|bs|)
  {
    if bs == [] {
      assert bs + [b] == [b];
      assert FromLittleEndian([b]) == b + 256 * FromLittleEndian([b][1..]);
    } else {
      var p := Pow256(|bs| - 1);
      FromLittleEndianStep(bs[1..], b);
      assert (bs + [b])[1..] == bs[1..] + [b];
      assert 256 * (FromLittleEndian(bs[1..]) + b * p) == 256 * FromLittleEndian(bs[1..]) + b * (256 * p) by {
        MulShuffle(b, p);
      }
    }
  }

  lemma MulShuffle(b: int, p: int)
    ensures 256 * (b * p) == b * (256 * p)
  {
  }

  /** Only the residue counts. */
  lemma {:induction false} LittleEndianResidue(u: nat, v: nat, k: int, n: nat)
    requires u == v + Pow256(n) * k
    ensures LittleEndian(u, n) == LittleEndian(v, n)
    decreases n
  {
    if n > 0 {
      var m := Pow256(n - 1) * k;
      assert Pow256(n) * k == 256 * m by {
        MulAssoc(Pow256(n - 1), k);
      }
      LittleEndianResidue(u / 256, v / 256, k, n - 1);
    }
  }

  lemma MulAssoc(p: int, k: int)
    ensures 256 * p * k == 256 * (p * k)
  {
  }
}
