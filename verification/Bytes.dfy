/** Bytes, and integers as big-endian two's complement byte strings.

    Every binding moves values across the foreign interface as bytes, so this is the one place
    where the numeric meaning of a byte string is fixed. The strings of the records are byte
    strings too: all codecs leave UTF-8 to a library. */
module Bytes {
  type byte = b: int | 0 <= b < 256
  type bytes = seq<byte>

  const INT32_MAX := 0x7fff_ffff
  const INT64_MAX := 0x7fff_ffff_ffff_ffff
  const UINT32_MOD := 0x1_0000_0000
  const UINT64_MOD := 0x1_0000_0000_0000_0000

  function Pow256(w: nat): (p: nat)
    ensures p >= 1
  {
    if w == 0 then 1 else 256 * Pow256(w - 1)
  }

  /** The low `w` bytes of `v`, most significant first. Euclidean division by 256 floors, so a
      negative `v` yields its two's complement bytes. */
  function BigEndian(w: nat, v: int): (s: bytes)
    ensures |s| == w
  {
    if w == 0 then [] else BigEndian(w - 1, v / 256) + [v % 256]
  }

  function FromBigEndian(s: bytes): (n: nat)
  {
    if s == [] then 0 else 256 * FromBigEndian(s[..|s| - 1]) + s[|s| - 1]
  }

  function ToSigned(w: nat, u: nat): int {
    if 2 * u < Pow256(w) then u else u - Pow256(w)
  }

  predicate InRange(w: nat, signed: bool, v: int) {
    if signed then 0 - Pow256(w) <= 2 * v < Pow256(w) else 0 <= v < Pow256(w)
  }

  /** What a reader of `w` bytes makes of them. */
  function Interpret(signed: bool, s: bytes): (v: int) {
    if signed then ToSigned(|s|, FromBigEndian(s)) else FromBigEndian(s)
  }

  lemma Pow256Values()
    ensures Pow256(1) == 0x100 && Pow256(2) == 0x1_0000 && Pow256(4) == 0x1_0000_0000
    ensures Pow256(8) == 0x1_0000_0000_0000_0000
  {
    assert Pow256(3) == 0x100_0000;
    assert Pow256(4) == 0x1_0000_0000;
    assert Pow256(5) == 0x100_0000_0000;
    assert Pow256(6) == 0x1_0000_0000_0000;
    assert Pow256(7) == 0x100_0000_0000_0000;
  }

  lemma {:induction false} FromBigEndianBound(s: bytes)
    ensures FromBigEndian(s) < Pow256(|s|)
  {
    if s != [] {
      FromBigEndianBound(s[..|s| - 1]);
    }
  }

  lemma MulBounds(d: nat, e: int)
    requires d > 0
    ensures e >= 1 ==> d * e >= d
    ensures e <= -1 ==> d * e <= -1 * d
  {
    if e >= 1 {
      assert d * e == d + d * (e - 1);
    } else if e <= -1 {
      assert d * e == -1 * d + d * (e + 1);
    }
  }

  lemma DivUnique(v: int, d: nat, q: int, r: int)
    requires 0 <= r < d && v == d * q + r
    ensures v / d == q
  {
    MulBounds(d, v / d - q);
    assert d * (v / d - q) == r - v % d;
  }

  lemma Regroup(m: nat, n: nat, q: int, s: int, r: int)
    ensures m * (n * q + s) + r == m * n * q + (m * s + r)
  {
    assert m * (n * q) == m * n * q;
  }

  lemma RestBelow(m: nat, n: nat, s: int, r: int)
    requires 0 <= r < m && 0 <= s < n
    ensures 0 <= m * s + r < m * n
  {
    MulBounds(m, n - s);
    assert m * (n - s) == m * n - m * s;
  }

  lemma DivDiv(v: int, m: nat, n: nat)
    requires m > 0 && n > 0
    ensures m * n > 0 && v / m / n == v / (m * n)
  {
    var q, r := v / m, v % m;
    Regroup(m, n, q / n, q % n, r);
    RestBelow(m, n, q % n, r);
    assert q == n * (q / n) + q % n;
    DivUnique(v, m * n, q / n, m * (q % n) + r);
  }

  /** Byte `i` is the digit of weight 256^(w - 1 - i): the most significant byte comes first. */
  lemma {:induction false} BigEndianAt(w: nat, v: int, i: nat)
    requires i < w
    ensures BigEndian(w, v)[i] == v / Pow256(w - 1 - i) % 256
  {
    if i < w - 1 {
      BigEndianAt(w - 1, v / 256, i);
      DivDiv(v, 256, Pow256(w - 2 - i));
    }
  }

  /** Reading back `w` bytes of `v` gives the representative of `v` modulo 256^w. */
  lemma {:induction false} FromBigEndianOf(w: nat, v: int)
    requires 0 - Pow256(w) <= v < Pow256(w)
    ensures FromBigEndian(BigEndian(w, v)) == if v >= 0 then v else v + Pow256(w)
  {
    if w > 0 {
      FromBigEndianOf(w - 1, v / 256);
      assert BigEndian(w, v)[..w - 1] == BigEndian(w - 1, v / 256);
    }
  }

  /** The bytes of an unsigned value are unique. */
  lemma {:induction false} BigEndianOf(s: bytes)
    ensures BigEndian(|s|, FromBigEndian(s)) == s
  {
    if s != [] {
      var front := s[..|s| - 1];
      BigEndianOf(front);
      assert FromBigEndian(s) / 256 == FromBigEndian(front);
    }
  }

  /** Adding 256^w does not change the low `w` bytes: two's complement. */
  lemma {:induction false} BigEndianWraps(w: nat, v: int)
    ensures BigEndian(w, v + Pow256(w)) == BigEndian(w, v)
  {
    if w > 0 {
      BigEndianWraps(w - 1, v / 256);
      assert (v + Pow256(w)) / 256 == v / 256 + Pow256(w - 1);
    }
  }

  /** Writing then reading an integer of the declared range restores it, sign included. */
  lemma {:induction false} InterpretBigEndian(w: nat, signed: bool, v: int)
    requires InRange(w, signed, v)
    ensures Interpret(signed, BigEndian(w, v)) == v
  {
    FromBigEndianOf(w, v);
  }

  /** Reading then writing any `w` bytes restores them. */
  lemma {:induction false} BigEndianInterpret(signed: bool, s: bytes)
    ensures InRange(|s|, signed, Interpret(signed, s))
    ensures BigEndian(|s|, Interpret(signed, s)) == s
  {
    FromBigEndianBound(s);
    BigEndianOf(s);
    BigEndianWraps(|s|, Interpret(signed, s));
  }
}
