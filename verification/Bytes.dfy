/** Bytes, and the JavaScript text helpers that `packages/cli/src/lib/starter.ts` applies to them. */
module Bytes {
  import opened Wrappers

  type Byte = b: int | 0 <= b < 256

  type Bytes = seq<Byte>

  const NUL: Byte := 0
  const NEWLINE: Byte := 10
  const SPACE: Byte := 32
  const EQUALS: Byte := 61

  /** The first index at or after `from` holding `b`, or `|s|` when there is none. */
  function FindFrom(s: Bytes, b: Byte, from: nat): (i: nat)
    requires from <= |s|
    ensures from <= i <= |s|
    ensures i < |s| ==> s[i] == b
    ensures forall j | from <= j < i :: s[j] != b
    decreases |s| - from
  {
    if from == |s| || s[from] == b then from else FindFrom(s, b, from + 1)
  }

  lemma FindFromIs(s: Bytes, b: Byte, from: nat, i: nat)
    requires from <= i < |s| && s[i] == b
    requires forall j | from <= j < i :: s[j] != b
    ensures FindFrom(s, b, from) == i
  {
    var found := FindFrom(s, b, from);
    if found != i { assert false; }
  }

  function UntilNul(s: Bytes): Bytes {
    s[..FindFrom(s, NUL, 0)]
  }

  /** `String.prototype.slice(from, to)` for non-negative arguments. */
  function JsSlice(s: Bytes, from: nat, to: nat): Bytes {
    var lo := if from < |s| then from else |s|;
    var hi := if to < |s| then to else |s|;
    if hi <= lo then [] else s[lo..hi]
  }

  /** Both ends are cut off at the end of the text, and an end before the start gives nothing. */
  lemma SliceMeaning(s: Bytes, from: nat, to: nat)
    ensures from <= to <= |s| ==> JsSlice(s, from, to) == s[from..to]
    ensures from <= |s| <= to ==> JsSlice(s, from, to) == s[from..]
    ensures |s| <= from || to <= from ==> JsSlice(s, from, to) == []
  {
  }

  predicate IsSpace(b: Byte) {
    9 <= b <= 13 || b == SPACE
  }

  function TrimStart(s: Bytes): Bytes {
    if s != [] && IsSpace(s[0]) then TrimStart(s[1..]) else s
  }

  function TrimEnd(s: Bytes): Bytes {
    if s != [] && IsSpace(s[|s| - 1]) then TrimEnd(s[..|s| - 1]) else s
  }

  /** `s.replace(/[\s\0]+$/u, '')`. */
  function TrimEndBlankOrNul(s: Bytes): Bytes {
    if s != [] && (IsSpace(s[|s| - 1]) || s[|s| - 1] == NUL) then TrimEndBlankOrNul(s[..|s| - 1]) else s
  }

  /** `s.replace(/\0+$/u, '')`. */
  function TrimEndNul(s: Bytes): Bytes {
    if s != [] && s[|s| - 1] == NUL then TrimEndNul(s[..|s| - 1]) else s
  }

  // ---------------------------------------------------------------- numbers

  predicate IsDigit(b: Byte, radix: nat) {
    48 <= b < 48 + radix
  }

  /** The longest prefix of `s` made of digits of `radix`. */
  function DigitPrefix(s: Bytes, radix: nat): (p: Bytes)
    ensures p <= s
    ensures forall b | b in p :: IsDigit(b, radix)
  {
    if s != [] && IsDigit(s[0], radix) then [s[0]] + DigitPrefix(s[1..], radix) else []
  }

  function Horner(digits: Bytes, radix: nat): nat
    requires forall b | b in digits :: IsDigit(b, radix)
  {
    if digits == [] then 0
    else
      assert IsDigit(digits[|digits| - 1], radix);
      Horner(digits[..|digits| - 1], radix) * radix + (digits[|digits| - 1] as int - 48)
  }

  /** JavaScript `parseInt(s, radix)` for radix 8 or 10; `None` is `NaN`. */
  function ParseInt(s: Bytes, radix: nat): Option<int>
  {
    var t := TrimStart(s);
    var signed := t != [] && (t[0] == 43 || t[0] == 45);
    var digits := DigitPrefix(if signed then t[1..] else t, radix);
    if digits == [] then None
    else if signed && t[0] == 45 then Some(-(Horner(digits, radix) as int))
    else Some(Horner(digits, radix))
  }

  lemma {:induction false} DigitPrefixOfDigits(s: Bytes, radix: nat)
    requires forall b | b in s :: IsDigit(b, radix)
    ensures DigitPrefix(s, radix) == s
  {
    if s != [] {
      DigitPrefixOfDigits(s[1..], radix);
      assert s == [s[0]] + s[1..];
    }
  }

  /** Reading back an unsigned run of digits yields its positional value. */
  lemma ParseIntOfDigits(s: Bytes, radix: nat)
    requires radix <= 10 && s != []
    requires forall b | b in s :: IsDigit(b, radix)
    ensures ParseInt(s, radix) == Some(Horner(s, radix))
  {
    assert IsDigit(s[0], radix);
    assert TrimStart(s) == s;
    DigitPrefixOfDigits(s, radix);
  }

  function Power(base: nat, e: nat): nat {
    if e == 0 then 1 else base * Power(base, e - 1)
  }

  /** `n` in octal, zero-padded to `width` digits: the ustar numeric field of IEEE Std 1003.1. */
  function Octal(n: nat, width: nat): (s: Bytes)
    ensures |s| == width
    ensures forall b | b in s :: IsDigit(b, 8)
  {
    if width == 0 then [] else Octal(n / 8, width - 1) + [48 + n % 8]
  }

  lemma {:induction false} OctalValue(n: nat, width: nat)
    requires n < Power(8, width)
    ensures Horner(Octal(n, width), 8) == n
  {
    if width > 0 {
      OctalValue(n / 8, width - 1);
      var s := Octal(n, width);
      assert s[..|s| - 1] == Octal(n / 8, width - 1);
    }
  }

  /** `n` in decimal without leading zeros. */
  function Decimal(n: nat): (s: Bytes)
    ensures s != []
    ensures forall b | b in s :: IsDigit(b, 10)
  {
    if n < 10 then [48 + n] else Decimal(n / 10) + [48 + n % 10]
  }

  lemma {:induction false} DecimalValue(n: nat)
    ensures Horner(Decimal(n), 10) == n
  {
    if n >= 10 {
      DecimalValue(n / 10);
      var s := Decimal(n);
      assert s[..|s| - 1] == Decimal(n / 10);
    }
  }

  /** A number below a power of ten has at most that many digits, and at least as many otherwise. */
  lemma {:induction false} DecimalWidth(n: nat, width: nat)
    requires width >= 1
    ensures |Decimal(n)| <= width <==> n < Power(10, width)
  {
    if n < 10 {
      PowerAtLeastBase(width);
    } else if width == 1 {
      assert |Decimal(n)| == |Decimal(n / 10)| + 1 >= 2;
      assert Power(10, 1) == 10 * Power(10, 0) == 10;
    } else {
      DecimalWidth(n / 10, width - 1);
    }
  }

  lemma {:induction false} PowerAtLeastBase(width: nat)
    requires width >= 1
    ensures Power(10, width) >= 10
  {
    if width > 1 { PowerAtLeastBase(width - 1); }
  }
}
