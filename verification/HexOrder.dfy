/** Byte-wise comparison of strings, and hexadecimal text of field elements. */
module HexOrder {
  import opened Wrappers
  import opened Bytes

  // ---------- Orderings ----------

  datatype Ordering = Less | Equal | Greater {
    function Then(next: Ordering): Ordering {
      if this == Equal then next else this
    }

    function Flip(): Ordering {
      match this
      case Less => Greater
      case Equal => Equal
      case Greater => Less
    }
  }

  function CompareNat(a: int, b: int): Ordering {
    if a < b then Less else if a > b then Greater else Equal
  }

  /** Lexicographic, as Rust compares strings. */
  function Compare(a: bytes, b: bytes): Ordering {
    if a == [] then (if b == [] then Equal else Less)
    else if b == [] then Greater
    else CompareNat(a[0], b[0]).Then(Compare(a[1..], b[1..]))
  }

  lemma {:induction false} CompareEqual(a: bytes, b: bytes)
    ensures Compare(a, b) == Equal <==> a == b
  {
    if a != [] && b != [] {
      CompareEqual(a[1..], b[1..]);
      assert a == [a[0]] + a[1..] && b == [b[0]] + b[1..];
    }
  }

  /** Lexicographic order, byte by byte: a proper prefix, or a smaller byte at the first difference. */
  ghost predicate Before(a: bytes, b: bytes) {
    || (|a| < |b| && a == b[..|a|])
    || (exists k :: 0 <= k < |a| && k < |b| && a[..k] == b[..k] && a[k] < b[k])
  }

  /** The comparison is that order. */
  lemma {:induction false} CompareLess(a: bytes, b: bytes)
    ensures Compare(a, b) == Less <==> Before(a, b)
  {
    if a != [] && b != [] {
      if a[0] == b[0] {
        CompareLess(a[1..], b[1..]);
        BeforeCons(a, b);
      } else {
        FirstByteDecides(a, b);
      }
    }
  }

  lemma FirstByteDecides(a: bytes, b: bytes)
    requires a != [] && b != [] && a[0] != b[0]
    ensures Before(a, b) <==> a[0] < b[0]
  {
    assert a[..0] == b[..0];
    forall k | 0 < k <= |a| && k <= |b| ensures a[..k] != b[..k] {
      assert a[..k][0] == a[0] && b[..k][0] == b[0];
    }
    assert a[..|a|] == a;
  }

  lemma PrefixCons(a: bytes, b: bytes, k: nat)
    requires k < |a| && k < |b| && a[0] == b[0]
    ensures a[..k + 1] == b[..k + 1] <==> a[1..][..k] == b[1..][..k]
  {
    assert a[..k + 1] == [a[0]] + a[1..][..k] && b[..k + 1] == [b[0]] + b[1..][..k];
    assert a[..k + 1][1..] == a[1..][..k] && b[..k + 1][1..] == b[1..][..k];
  }

  lemma BeforeCons(a: bytes, b: bytes)
    requires a != [] && b != [] && a[0] == b[0]
    ensures Before(a[1..], b[1..]) <==> Before(a, b)
  {
    forall k: nat | k < |a| && k < |b| ensures a[..k + 1] == b[..k + 1] <==> a[1..][..k] == b[1..][..k] {
      PrefixCons(a, b, k);
    }
    assert a[..|a|] == a && a[1..][..|a| - 1] == a[1..];
    if k :| 0 <= k < |a| - 1 && k < |b| - 1 && a[1..][..k] == b[1..][..k] && a[1..][k] < b[1..][k] {
      assert a[..k + 1] == b[..k + 1] && a[k + 1] < b[k + 1];
    }
    if k :| 0 <= k < |a| && k < |b| && a[..k] == b[..k] && a[k] < b[k] {
      assert a[..k - 1 + 1] == b[..k - 1 + 1];
      assert a[1..][..k - 1] == b[1..][..k - 1] && a[1..][k - 1] < b[1..][k - 1];
    }
  }

  lemma {:induction false} CompareFlip(a: bytes, b: bytes)
    ensures Compare(b, a) == Compare(a, b).Flip()
  {
    if a != [] && b != [] {
      CompareFlip(a[1..], b[1..]);
    }
  }

  lemma {:induction false} CompareTransitive(a: bytes, b: bytes, c: bytes)
    requires Compare(a, b) == Less && Compare(b, c) == Less
    ensures Compare(a, c) == Less
  {
    if a != [] && a[0] == b[0] == c[0] {
      CompareTransitive(a[1..], b[1..], c[1..]);
    }
  }

  /** Strings of one length: the last byte decides only between equal fronts. */
  lemma {:induction false} CompareSnoc(a: bytes, x: byte, b: bytes, y: byte)
    requires |a| == |b|
    ensures Compare(a + [x], b + [y]) == Compare(a, b).Then(CompareNat(x, y))
  {
    if a == [] {
      assert a + [x] == [x] && b + [y] == [y];
      assert [x][1..] == [] && [y][1..] == [];
    } else {
      CompareSnoc(a[1..], x, b[1..], y);
      assert (a + [x])[1..] == a[1..] + [x] && (b + [y])[1..] == b[1..] + [y];
    }
  }

  // ---------- Field elements and their text ----------

  /** 2^251 + 17 * 2^192 + 1 */
  const PRIME := 0x800000000000011000000000000000000000000000000000000000000000001

  type Felt = n: int | 0 <= n < PRIME

  const HEX_WIDTH := 64

  function HexDigit(d: int): byte
    requires 0 <= d < 16
  {
    if d < 10 then 48 + d else 87 + d
  }

  function Pow16(w: nat): (p: nat)
    ensures p >= 1
  {
    if w == 0 then 1 else 16 * Pow16(w - 1)
  }

  /** The low `w` hexadecimal digits of `n`. */
  function Hex(w: nat, n: nat): (s: bytes)
    ensures |s| == w
  {
    if w == 0 then [] else Hex(w - 1, n / 16) + [HexDigit(n % 16)]
  }

  /** "0x" and 64 lower-case digits. */
  function FormatHex(f: Felt): bytes {
    [48, 120] + Hex(HEX_WIDTH, f)
  }

  lemma {:induction false} HexCompare(w: nat, m: nat, n: nat)
    requires m < Pow16(w) && n < Pow16(w)
    ensures Compare(Hex(w, m), Hex(w, n)) == CompareNat(m, n)
    ensures Before(Hex(w, m), Hex(w, n)) <==> m < n
  {
    CompareLess(Hex(w, m), Hex(w, n));
    if w > 0 {
      HexCompare(w - 1, m / 16, n / 16);
      CompareSnoc(Hex(w - 1, m / 16), HexDigit(m % 16), Hex(w - 1, n / 16), HexDigit(n % 16));
    }
  }

  lemma {:induction false} Pow16Add(a: nat, b: nat)
    ensures Pow16(a + b) == Pow16(a) * Pow16(b)
  {
    if a > 0 {
      Pow16Add(a - 1, b);
      assert 16 * (Pow16(a - 1) * Pow16(b)) == 16 * Pow16(a - 1) * Pow16(b);
    }
  }

  lemma Pow16Eight()
    ensures Pow16(8) == 0x1_0000_0000
  {}

  lemma FeltFits()
    ensures PRIME <= Pow16(HEX_WIDTH)
  {
    hide Pow16;
    Pow16Eight();
    Pow16Add(8, 8);
    Pow16Add(16, 16);
    Pow16Add(32, 32);
  }

  /** Comparing the padded texts of two addresses is comparing the addresses. */
  lemma TextOrderIsNumericOrder(f: Felt, g: Felt)
    ensures Compare(FormatHex(f), FormatHex(g)) == CompareNat(f, g)
    ensures Before(FormatHex(f), FormatHex(g)) <==> f < g
    ensures FormatHex(f) == FormatHex(g) <==> f == g
  {
    CompareLess(FormatHex(f), FormatHex(g));
    CompareEqual(FormatHex(f), FormatHex(g));
    FeltFits();
    HexCompare(HEX_WIDTH, f, g);
    var a, b := Hex(HEX_WIDTH, f), Hex(HEX_WIDTH, g);
    assert ([48, 120] + a)[1..][1..] == a && ([48, 120] + b)[1..][1..] == b;
    assert ([48, 120] + a)[1..][0] == 120 == ([48, 120] + b)[1..][0];
  }

  /** The number that lower-case hexadecimal digits denote. */
  function HexNumber(digits: bytes): int {
    if digits == [] then 0 else
    var last: int := digits[|digits| - 1];
    16 * HexNumber(digits[..|digits| - 1]) + if last <= 57 then last - 48 else last - 87
  }

  predicate IsHexDigit(b: byte) { 48 <= b <= 57 || 97 <= b <= 102 }

  /** The registered spelling of an address: '0', 'x', and 64 digits 0-9 or a-f that denote it. */
  predicate AddressText(t: bytes, address: int) {
    && |t| == 66 && t[0] == 48 && t[1] == 120
    && (forall i :: 2 <= i < 66 ==> IsHexDigit(t[i]))
    && HexNumber(t[2..]) == address
  }

  lemma {:induction false} HexIsNumber(w: nat, n: nat)
    requires n < Pow16(w)
    ensures (forall i :: 0 <= i < w ==> IsHexDigit(Hex(w, n)[i])) && HexNumber(Hex(w, n)) == n
  {
    if w > 0 {
      HexIsNumber(w - 1, n / 16);
      assert Hex(w, n)[..w - 1] == Hex(w - 1, n / 16);
    }
  }

  lemma {:induction false} NumberDecidesDigits(a: bytes, b: bytes)
    requires |a| == |b| && HexNumber(a) == HexNumber(b)
    requires forall i :: 0 <= i < |a| ==> IsHexDigit(a[i]) && IsHexDigit(b[i])
    ensures a == b
  {
    if a != [] {
      var last := |a| - 1;
      assert IsHexDigit(a[last]) && IsHexDigit(b[last]);
      NumberDecidesDigits(a[..last], b[..last]);
      assert a == a[..last] + [a[last]] && b == b[..last] + [b[last]];
    }
  }

  /** Formatting produces that spelling, and there is no other. */
  lemma FormatHexIff(t: bytes, f: Felt)
    ensures t == FormatHex(f) <==> AddressText(t, f)
  {
    hide Pow16, Hex, HexNumber, IsHexDigit;
    FeltFits();
    HexIsNumber(64, f);
    var text := FormatHex(f);
    assert text[2..] == Hex(64, f);
    forall i | 2 <= i < 66 ensures IsHexDigit(text[i]) {
      assert text[i] == Hex(64, f)[i - 2];
    }
    if AddressText(t, f) {
      forall i | 0 <= i < 64 ensures IsHexDigit(t[2..][i]) {
        assert t[2..][i] == t[i + 2];
      }
      NumberDecidesDigits(t[2..], text[2..]);
      assert t == [48, 120] + t[2..];
    }
  }

  // ---------- Reading hexadecimal text ----------

  function DigitValue(b: byte): Option<nat> {
    if 48 <= b <= 57 then Some(b - 48)
    else if 97 <= b <= 102 then Some(b - 87)
    else if 65 <= b <= 70 then Some(b - 55)
    else None
  }

  /** The number the digits denote, whatever their case. */
  function DigitsValue(s: bytes): (r: Option<nat>) {
    if s == [] then Some(0) else
    match (DigitsValue(s[..|s| - 1]), DigitValue(s[|s| - 1]))
    case (Some(n), Some(d)) => Some(16 * n + d)
    case _ => None
  }

  /** A field element from hexadecimal text, with or without "0x". */
  function FromHex(s: bytes): Option<Felt> {
    var digits := if |s| > 2 && s[0] == 48 && s[1] == 120 then s[2..] else s;
    if digits == [] then None else
    match DigitsValue(digits)
    case Some(n) => if n < PRIME then Some(n) else None
    case None => None
  }

  lemma {:induction false} DigitsOfHex(w: nat, n: nat)
    requires n < Pow16(w)
    ensures DigitsValue(Hex(w, n)) == Some(n)
  {
    if w > 0 {
      DigitsOfHex(w - 1, n / 16);
      assert Hex(w, n)[..w - 1] == Hex(w - 1, n / 16);
      assert DigitValue(HexDigit(n % 16)) == Some(n % 16);
    }
  }

  /** Formatting an address and parsing it gives the address back. */
  lemma FromHexOfFormat(f: Felt)
    ensures FromHex(FormatHex(f)) == Some(f)
  {
    FeltFits();
    DigitsOfHex(HEX_WIDTH, f);
    assert FormatHex(f)[2..] == Hex(HEX_WIDTH, f);
  }

  function ToAsciiLower(b: byte): byte {
    if 65 <= b <= 90 then b + 32 else b
  }

  /** Letters A-Z are raised by 32, everything else is kept. */
  function Lower(s: bytes): (r: bytes)
    ensures |r| == |s|
    ensures forall i :: 0 <= i < |s| ==> r[i] == if 65 <= s[i] <= 90 then s[i] + 32 else s[i]
  {
    seq(|s|, i requires 0 <= i < |s| => ToAsciiLower(s[i]))
  }

  lemma {:induction false} DigitsIgnoreCase(s: bytes)
    ensures DigitsValue(Lower(s)) == DigitsValue(s)
  {
    if s != [] {
      DigitsIgnoreCase(s[..|s| - 1]);
      assert Lower(s)[..|s| - 1] == Lower(s[..|s| - 1]);
    }
  }

  lemma {:induction false} DigitsIgnoreZeros(s: bytes)
    ensures DigitsValue([48] + s) == DigitsValue(s)
  {
    if s == [] {
      assert [48] + s == [48];
      assert DigitsValue([48][..0]) == Some(0);
    } else {
      DigitsIgnoreZeros(s[..|s| - 1]);
      assert ([48] + s)[..|s|] == [48] + s[..|s| - 1];
    }
  }

  /** The digits after "0x" may be in either case and have any number of zeros in front. */
  lemma SpellingIrrelevant(digits: bytes)
    requires digits != []
    ensures FromHex([48, 120] + Lower(digits)) == FromHex([48, 120] + digits)
    ensures FromHex([48, 120] + ([48] + digits)) == FromHex([48, 120] + digits)
  {
    DigitsIgnoreCase(digits);
    DigitsIgnoreZeros(digits);
    assert ([48, 120] + Lower(digits))[2..] == Lower(digits);
    assert ([48, 120] + digits)[2..] == digits;
    assert ([48, 120] + ([48] + digits))[2..] == [48] + digits;
  }

  /** The "0x" may be missing. */
  lemma PrefixOptional(digits: bytes)
    requires digits != [] && !(|digits| > 2 && digits[0] == 48 && digits[1] == 120)
    ensures FromHex(digits) == FromHex([48, 120] + digits)
  {
    hide DigitsValue;
    assert ([48, 120] + digits)[2..] == digits;
  }

  /** A digit 0-9, a-f or A-F. */
  predicate IsDigit(b: byte) { IsHexDigit(b) || 65 <= b <= 70 }

  lemma {:induction false} DigitsAreNumber(digits: bytes)
    ensures DigitsValue(digits)
         == if forall i :: 0 <= i < |digits| ==> IsDigit(digits[i]) then Some(HexNumber(Lower(digits))) else None
  {
    if digits != [] {
      var last := |digits| - 1;
      DigitsAreNumber(digits[..last]);
      assert Lower(digits)[..last] == Lower(digits[..last]);
      assert forall i :: 0 <= i < last ==> digits[..last][i] == digits[i];
    }
  }

  /** Exactly what text after "0x" is accepted, and as which field element: digits in either case that
      denote a number below 2^251 + 17 * 2^192 + 1. */
  lemma FromHexIff(digits: bytes)
    requires digits != []
    ensures FromHex([48, 120] + digits).Some?
            <==> && (forall i :: 0 <= i < |digits| ==> IsDigit(digits[i]))
                 && HexNumber(Lower(digits)) < 8 * Pow16(62) + 17 * Pow16(48) + 1
    ensures FromHex([48, 120] + digits).Some? ==> FromHex([48, 120] + digits).value == HexNumber(Lower(digits))
  {
    hide Pow16, Lower, HexNumber, DigitsValue, IsDigit;
    DigitsAreNumber(digits);
    PrimeValue();
    assert ([48, 120] + digits)[2..] == digits;
  }

  /** 2^251 is 8 * 16^62, and 2^192 is 16^48. */
  lemma PrimeValue()
    ensures PRIME == 8 * Pow16(62) + 17 * Pow16(48) + 1
  {
    hide Pow16;
    Pow16Eight();
    Pow16Six();
    Pow16Add(8, 8);
    Pow16Add(16, 16);
    Pow16Add(32, 16);
    Pow16Add(48, 8);
    Pow16Add(56, 6);
  }

  lemma Pow16Six()
    ensures Pow16(6) == 0x100_0000
  {}
}
