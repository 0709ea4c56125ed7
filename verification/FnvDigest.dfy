/** `fnv1aDigest` of `packages/ai/src/context-cache.ts`: FNV-1a over UTF-16 code units, written with shifts. */
module FnvDigest {
  import opened CanonicalJson
  import JsonRoundTrip

  const TWO_32 := 0x1_0000_0000
  const OFFSET_BASIS: Word := 0x811c_9dc5
  const FNV_PRIME := 0x0100_0193

  /** An unsigned 32-bit word. */
  type Word = w: int | 0 <= w < 0x1_0000_0000

  /** Bitwise exclusive or. */
  function XorBits(a: nat, b: nat): nat {
    if a == 0 && b == 0 then 0 else 2 * XorBits(a / 2, b / 2) + (a % 2 + b % 2) % 2
  }

  function Power2(e: nat): nat {
    if e == 0 then 1 else 2 * Power2(e - 1)
  }

  lemma {:induction false} XorBitsWidth(a: nat, b: nat, width: nat)
    requires a < Power2(width) && b < Power2(width)
    ensures XorBits(a, b) < Power2(width)
  {
    if width > 0 { XorBitsWidth(a / 2, b / 2, width - 1); }
  }

  lemma WordIsPower2()
    ensures Power2(32) == TWO_32
  {
    assert Power2(8) == 256;
    assert Power2(16) == 256 * Power2(8);
    assert Power2(24) == 256 * Power2(16);
  }

  function Xor(a: Word, b: Word): Word {
    WordIsPower2();
    XorBitsWidth(a, b, 32);
    XorBits(a, b)
  }

  // ---------------------------------------------------------------- JavaScript 32-bit operators

  /** The signed 32-bit integer a number wraps to. */
  function ToInt32(n: int): int {
    var m := n % TWO_32;
    if m >= TWO_32 / 2 then m - TWO_32 else m
  }

  /** `n >>> 0`. */
  function ToUint32(n: int): Word {
    n % TWO_32
  }

  /** `a << k`, with the factor `2^k` given. */
  function ShiftLeft(a: int, factor: nat): int {
    ToInt32(a * factor)
  }

  /** One round of the loop in the source. */
  function Round(hash: Word, unit: Unit): Word {
    var h := ToInt32(Xor(hash, unit));
    ToUint32(h + (ShiftLeft(h, 2) + ShiftLeft(h, 16) + ShiftLeft(h, 128) + ShiftLeft(h, 256)
                  + ShiftLeft(h, 0x100_0000)))
  }

  // ---------------------------------------------------------------- FNV-1a as published

  function FnvStep(hash: Word, unit: Unit): Word {
    Xor(hash, unit) * FNV_PRIME % TWO_32
  }

  function Fnv1a(text: Text): Word {
    if text == [] then OFFSET_BASIS else FnvStep(Fnv1a(text[..|text| - 1]), text[|text| - 1])
  }

  lemma WrapIsMultiple(n: int) returns (q: int)
    ensures ToInt32(n) == n - TWO_32 * q
  {
    q := if n % TWO_32 >= TWO_32 / 2 then n / TWO_32 + 1 else n / TWO_32;
  }

  lemma ModIgnoresMultiples(n: int, q: int)
    ensures (n - TWO_32 * q) % TWO_32 == n % TWO_32
  {
    var r := n % TWO_32;
    var d := n / TWO_32;
    assert n - TWO_32 * q == TWO_32 * (d - q) + r;
    UniqueRemainder(n - TWO_32 * q, d - q, r);
  }

  lemma UniqueRemainder(n: int, q: int, r: int)
    requires n == TWO_32 * q + r && 0 <= r < TWO_32
    ensures n % TWO_32 == r
  {
  }

  /** The shifts multiply by the FNV prime: signs and wrapped-off bits do not matter modulo 2^32. */
  lemma ShiftsMultiplyByPrime(hash: Word, unit: Unit)
    ensures Round(hash, unit) == FnvStep(hash, unit)
  {
    hide Xor, ToInt32;
    var x := Xor(hash, unit);
    var h := ToInt32(x);
    var q := WrapIsMultiple(x);
    var q1 := WrapIsMultiple(h * 2);
    var q4 := WrapIsMultiple(h * 16);
    var q7 := WrapIsMultiple(h * 128);
    var q8 := WrapIsMultiple(h * 256);
    var q24 := WrapIsMultiple(h * 0x100_0000);
    var wrapped := q * FNV_PRIME + q1 + q4 + q7 + q8 + q24;
    ModIgnoresMultiples(x * FNV_PRIME, wrapped);
  }

  // ---------------------------------------------------------------- hex text

  function ToHex(n: nat): (s: Text)
  {
    if n < 16 then [HexDigit(n)] else ToHex(n / 16) + [HexDigit(n % 16)]
  }

  function PadStart(s: Text, width: nat): Text
    decreases width - |s|
  {
    if |s| >= width then s else PadStart([48] + s, width)
  }

  /** `n` in exactly `width` hexadecimal digits. */
  function FixedHex(n: nat, width: nat): (s: Text)
    ensures |s| == width
  {
    if width == 0 then [] else FixedHex(n / 16, width - 1) + [HexDigit(n % 16)]
  }

  function Power16(e: nat): nat {
    if e == 0 then 1 else 16 * Power16(e - 1)
  }

  lemma {:induction false} PadStartAppend(s: Text, d: Unit, width: nat)
    requires |s| <= width
    ensures PadStart(s + [d], width + 1) == PadStart(s, width) + [d]
    decreases width - |s|
  {
    if |s| < width {
      assert [48] + (s + [d]) == [48] + s + [d];
      PadStartAppend([48] + s, d, width);
    }
  }

  lemma {:induction false} PadZero(s: Text, width: nat)
    requires |s| <= width && forall i | 0 <= i < |s| :: s[i] == 48
    ensures |PadStart(s, width)| == width && forall i | 0 <= i < width :: PadStart(s, width)[i] == 48
    decreases width - |s|
  {
    if |s| < width { PadZero([48] + s, width); }
  }

  lemma {:induction false} FixedHexOfZero(width: nat)
    ensures forall i | 0 <= i < width :: FixedHex(0, width)[i] == 48
  {
    if width > 0 { FixedHexOfZero(width - 1); }
  }

  /** Printing and padding gives the fixed-width numeral. */
  lemma {:induction false} PaddedHexIsFixed(n: nat, width: nat)
    requires 1 <= width && n < Power16(width)
    ensures |ToHex(n)| <= width && PadStart(ToHex(n), width) == FixedHex(n, width)
  {
    if n < 16 {
      assert FixedHex(n, width) == FixedHex(0, width - 1) + [HexDigit(n)];
      assert [] + [HexDigit(n)] == ToHex(n);
      PadStartAppend([], HexDigit(n), width - 1);
      PadZero([], width - 1);
      FixedHexOfZero(width - 1);
      assert PadStart([], width - 1) == FixedHex(0, width - 1);
    } else {
      assert Power16(width) == 16 * Power16(width - 1);
      assert Power16(0) == 1;
      PaddedHexIsFixed(n / 16, width - 1);
      PadStartAppend(ToHex(n / 16), HexDigit(n % 16), width - 1);
    }
  }

  lemma {:induction false} FixedHexSeparates(a: nat, b: nat, width: nat)
    requires a < Power16(width) && b < Power16(width) && FixedHex(a, width) == FixedHex(b, width)
    ensures a == b
  {
    if width > 0 {
      var s, r := FixedHex(a, width), FixedHex(b, width);
      assert s[..width - 1] == FixedHex(a / 16, width - 1) && r[..width - 1] == FixedHex(b / 16, width - 1);
      assert s[width - 1] == HexDigit(a % 16) && r[width - 1] == HexDigit(b % 16);
      FixedHexSeparates(a / 16, b / 16, width - 1);
    }
  }

  // ---------------------------------------------------------------- the digest

  function DigestOfText(text: Text): Text {
    PadStart(ToHex(Fnv1a(text)), 8)
  }

  method Fnv1aDigest(value: Json) returns (digest: Text)
    ensures digest == DigestOfText(Stringify(value))
  {
    hide Round, FnvStep, ToHex, PadStart, Stringify;
    var json := Stringify(value);
    var hash := OFFSET_BASIS;
    for i := 0 to |json|
      invariant hash == Fnv1a(json[..i])
    {
      ShiftsMultiplyByPrime(hash, json[i]);
      hash := Round(hash, json[i]);
      assert json[..i + 1][..i] == json[..i];
    }
    assert json[..|json|] == json;
    digest := PadStart(ToHex(hash), 8);
  }

  lemma EightHexDigits()
    ensures Power16(8) == TWO_32
  {
    assert Power16(4) == 65536;
  }

  /** The digest is eight characters, and two digests agree only if the 32-bit hashes do. */
  lemma DigestShowsTheHash(s: Text, t: Text)
    ensures |DigestOfText(s)| == 8
    ensures DigestOfText(s) == DigestOfText(t) <==> Fnv1a(s) == Fnv1a(t)
  {
    hide Fnv1a, Power16, FixedHex;
    EightHexDigits();
    PaddedHexIsFixed(Fnv1a(s), 8);
    PaddedHexIsFixed(Fnv1a(t), 8);
    if DigestOfText(s) == DigestOfText(t) {
      FixedHexSeparates(Fnv1a(s), Fnv1a(t), 8);
    }
  }

  /** Objects that differ only in key order have the same digest. */
  lemma DigestIgnoresKeyOrder(v: Json, w: Json)
    requires Valid(v) && Valid(w) && JsonRoundTrip.Same(v, w)
    ensures DigestOfText(Stringify(v)) == DigestOfText(Stringify(w))
  {
    JsonRoundTrip.SameGivesSameText(v, w);
  }

  // ---------------------------------------------------------------- one changed unit always shows

  const PRIME_INVERSE := 0x359c_449b

  lemma MultiplyByPrimeSeparates(a: Word, b: Word)
    requires a * FNV_PRIME % TWO_32 == b * FNV_PRIME % TWO_32
    ensures a == b
  {
    UndoPrime(a);
    UndoPrime(b);
  }

  lemma UndoPrime(a: Word)
    ensures (a * FNV_PRIME % TWO_32) * PRIME_INVERSE % TWO_32 == a
  {
    var n := a * FNV_PRIME;
    var q := n / TWO_32;
    var k := FNV_PRIME * PRIME_INVERSE / TWO_32;
    assert FNV_PRIME * PRIME_INVERSE == TWO_32 * k + 1;
    assert n % TWO_32 == n - TWO_32 * q;
    calc {
      (n - TWO_32 * q) * PRIME_INVERSE;
      n * PRIME_INVERSE - TWO_32 * (q * PRIME_INVERSE);
      a * (TWO_32 * k + 1) - TWO_32 * (q * PRIME_INVERSE);
      TWO_32 * (a * k - q * PRIME_INVERSE) + a;
    }
    UniqueRemainder((n % TWO_32) * PRIME_INVERSE, a * k - q * PRIME_INVERSE, a);
  }

  lemma {:induction false} XorBitsSeparates(a: nat, b: nat, c: nat)
    requires XorBits(a, c) == XorBits(b, c)
    ensures a == b
  {
    hide XorBits;
    if a != 0 || b != 0 {
      XorBitsHalves(a, c);
      XorBitsHalves(b, c);
      XorBitsSeparates(a / 2, b / 2, c / 2);
    }
  }

  lemma XorBitsHalves(a: nat, c: nat)
    ensures XorBits(a, c) / 2 == XorBits(a / 2, c / 2) && XorBits(a, c) % 2 == (a % 2 + c % 2) % 2
  {
  }

  lemma {:induction false} XorBitsCommutes(a: nat, b: nat)
    ensures XorBits(a, b) == XorBits(b, a)
  {
    if a != 0 || b != 0 { XorBitsCommutes(a / 2, b / 2); }
  }

  /** From different hashes, the same remaining text leads to different hashes. */
  lemma {:induction false} SuffixKeepsHashesApart(s: Text, t: Text, suffix: Text)
    requires Fnv1a(s) != Fnv1a(t)
    ensures Fnv1a(s + suffix) != Fnv1a(t + suffix)
  {
    hide FnvStep;
    if suffix == [] {
      assert s + suffix == s && t + suffix == t;
    } else {
      var front, u := suffix[..|suffix| - 1], suffix[|suffix| - 1];
      SuffixKeepsHashesApart(s, t, front);
      assert (s + suffix)[..|s + suffix| - 1] == s + front && (t + suffix)[..|t + suffix| - 1] == t + front;
      StepSeparatesHashes(Fnv1a(s + front), Fnv1a(t + front), u);
    }
  }

  lemma StepSeparatesHashes(a: Word, b: Word, u: Unit)
    ensures FnvStep(a, u) == FnvStep(b, u) ==> a == b
  {
    hide XorBits;
    if FnvStep(a, u) == FnvStep(b, u) {
      MultiplyByPrimeSeparates(Xor(a, u), Xor(b, u));
      XorBitsSeparates(a, b, u);
    }
  }

  lemma StepSeparatesUnits(hash: Word, u: Unit, v: Unit)
    ensures FnvStep(hash, u) == FnvStep(hash, v) ==> u == v
  {
    hide XorBits;
    if FnvStep(hash, u) == FnvStep(hash, v) {
      MultiplyByPrimeSeparates(Xor(hash, u), Xor(hash, v));
      XorBitsCommutes(hash, u);
      XorBitsCommutes(hash, v);
      XorBitsSeparates(u, v, hash);
    }
  }

  /** Changing exactly one code unit of a text always changes its digest. */
  lemma OneChangedUnitShows(before: Text, u: Unit, v: Unit, after: Text)
    requires u != v
    ensures DigestOfText(before + [u] + after) != DigestOfText(before + [v] + after)
  {
    hide FnvStep, DigestOfText;
    assert (before + [u])[..|before|] == before && (before + [v])[..|before|] == before;
    StepSeparatesUnits(Fnv1a(before), u, v);
    SuffixKeepsHashesApart(before + [u], before + [v], after);
    DigestShowsTheHash(before + [u] + after, before + [v] + after);
  }

  // ---------------------------------------------------------------- a published hash

  lemma {:induction false} XorWithZero(a: nat)
    ensures XorBits(a, 0) == a
  {
    if a > 0 { XorWithZero(a / 2); }
  }

  /** One bit off either side. */
  lemma XorOneBit(a: nat, x: nat, b: nat, y: nat)
    requires x < 2 && y < 2 && XorBits(a, b) >= 0
    ensures XorBits(2 * a + x, 2 * b + y) == 2 * XorBits(a, b) + (x + y) % 2
  {
  }

  lemma OffsetXorLetterA()
    ensures XorBits(0x811c_9dc5, 97) == 0x811c_9da4
  {
    hide XorBits;
    XorWithZero(0x811c_9dc5 / 128);
    XorOneBit(0x811c_9dc5 / 128, 1, 0, 1);
    XorOneBit(0x811c_9dc5 / 64, 0, 1, 1);
    XorOneBit(0x811c_9dc5 / 32, 0, 3, 0);
    XorOneBit(0x811c_9dc5 / 16, 0, 6, 0);
    XorOneBit(0x811c_9dc5 / 8, 1, 12, 0);
    XorOneBit(0x811c_9dc5 / 4, 0, 24, 0);
    XorOneBit(0x811c_9dc5 / 2, 1, 48, 1);
  }

  /** The published values for the empty text and for `a`, and the digest of the latter, `e40c292c`. */
  lemma KnownHashes()
    ensures Fnv1a([]) == 0x811c_9dc5 && Fnv1a([97]) == 0xe40c_292c
    ensures DigestOfText([97]) == [101, 52, 48, 99, 50, 57, 50, 99]
  {
    hide XorBits, ToHex, PadStart;
    OffsetXorLetterA();
    assert [97][..0] == [];
    assert Fnv1a([97]) == FnvStep(0x811c_9dc5, 97) == 0x811c_9da4 * FNV_PRIME % TWO_32;
    EightHexDigits();
    PaddedHexIsFixed(Fnv1a([97]), 8);
    KnownDigits();
  }

  lemma TwoDigitsMore(q: nat, a: nat, b: nat, width: nat)
    requires a < 16 && b < 16
    ensures FixedHex(256 * q + 16 * a + b, width + 2) == FixedHex(q, width) + [HexDigit(a), HexDigit(b)]
  {
    hide HexDigit;
    assert FixedHex(256 * q + 16 * a + b, width + 2) == FixedHex(16 * q + a, width + 1) + [HexDigit(b)];
  }

  lemma KnownDigits()
    ensures FixedHex(0xe40c_292c, 8) == [101, 52, 48, 99, 50, 57, 50, 99]
  {
    assert FixedHex(0, 0) == [];
    hide FixedHex;
    TwoDigitsMore(0, 14, 4, 0);
    TwoDigitsMore(0xe4, 0, 12, 2);
    TwoDigitsMore(0xe40c, 2, 9, 4);
    TwoDigitsMore(0xe40c_29, 2, 12, 6);
  }
}
