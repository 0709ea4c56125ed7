/**
 Canonical JSON text: `stableStringify` of `packages/ai/src/context-cache.ts` and `stableJson` of
 `packages/db/src/seed.ts`, with a reader that inverts them. Text is a sequence of UTF-16 code units.
 */
module CanonicalJson {
  import opened Wrappers
  import Sorting

  type Unit = u: int | 0 <= u < 0x1_0000

  type Text = seq<Unit>

  /**
   A JSON value. A number is the decimal numeral JavaScript prints for it; an object lists its members in
   insertion order.
   */
  datatype Json =
    | Null
    | Bool(b: bool)
    | Number(numeral: Text)
    | String(s: Text)
    | Array(items: seq<Json>)
    | Object(members: seq<Member>)

  datatype Member = Member(key: Text, value: Json)

  const QUOTE: Unit := 34
  const COMMA: Unit := 44
  const COLON: Unit := 58
  const OPEN_BRACKET: Unit := 91
  const BACKSLASH: Unit := 92
  const CLOSE_BRACKET: Unit := 93
  const OPEN_BRACE: Unit := 123
  const CLOSE_BRACE: Unit := 125

  const NULL_TEXT: Text := [110, 117, 108, 108]
  const TRUE_TEXT: Text := [116, 114, 117, 101]
  const FALSE_TEXT: Text := [102, 97, 108, 115, 101]

  /** Digits, sign, point and exponent: what a numeral is made of. */
  predicate IsNumeralUnit(u: Unit) {
    48 <= u <= 57 || u == 45 || u == 43 || u == 46 || u == 101 || u == 69
  }

  /** A numeral starts with a digit or a minus sign. */
  predicate IsNumeral(s: Text) {
    s != [] && (48 <= s[0] <= 57 || s[0] == 45) && forall u | u in s :: IsNumeralUnit(u)
  }

  /** The characters of a JSON number (RFC 8259, section 6) are digits, `+`, `-`, `.`, `E` and `e`. */
  lemma NumeralCharacters(u: Unit, s: Text)
    ensures IsNumeralUnit(u) <==> u in {48, 49, 50, 51, 52, 53, 54, 55, 56, 57, 43, 45, 46, 69, 101}
    ensures IsNumeral(s) <==> s != [] && s[0] in {45, 48, 49, 50, 51, 52, 53, 54, 55, 56, 57}
                              && forall v | v in s :: IsNumeralUnit(v)
  {
  }

  ghost predicate DistinctKeys(ms: seq<Member>) {
    forall i, j | 0 <= i < j < |ms| :: ms[i].key != ms[j].key
  }

  /** Numerals are numerals, and no object has a key twice. */
  ghost predicate Valid(v: Json) {
    match v
    case Number(numeral) => IsNumeral(numeral)
    case Array(items) => forall i | 0 <= i < |items| :: Valid(items[i])
    case Object(members) => DistinctKeys(members) && forall i | 0 <= i < |members| :: Valid(members[i].value)
    case _ => true
  }

  // ---------------------------------------------------------------- strings (RFC 8259, section 7)

  function HexDigit(d: nat): Unit
    requires d < 16
  {
    if d < 10 then 48 + d else 87 + d
  }

  function HexValue(u: Unit): Option<nat> {
    if 48 <= u <= 57 then Some(u - 48)
    else if 97 <= u <= 102 then Some(u - 87)
    else None
  }

  /** `\uXXXX`, lower case. */
  function HexEscape(u: Unit): Text {
    [BACKSLASH, 117] + HexDigits(u)
  }

  function HexDigits(u: Unit): (h: Text)
  {
    [HexDigit(u / 16 / 16 / 16), HexDigit(u / 16 / 16 % 16), HexDigit(u / 16 % 16), HexDigit(u % 16)]
  }

  predicate IsLead(u: Unit) {
    0xD800 <= u <= 0xDBFF
  }

  predicate IsTrail(u: Unit) {
    0xDC00 <= u <= 0xDFFF
  }

  /** One code unit other than a surrogate, as `JSON.stringify` writes it. */
  function EscapeUnit(u: Unit): Text {
    if u == QUOTE || u == BACKSLASH then [BACKSLASH, u]
    else if u == 8 then [BACKSLASH, 98]
    else if u == 9 then [BACKSLASH, 116]
    else if u == 10 then [BACKSLASH, 110]
    else if u == 12 then [BACKSLASH, 102]
    else if u == 13 then [BACKSLASH, 114]
    else if u < 32 then HexEscape(u)
    else [u]
  }

  /** Well-paired surrogates stand for themselves, lone ones are escaped. */
  function Escape(s: Text): Text
    decreases |s|
  {
    if s == [] then []
    else if IsLead(s[0]) && |s| > 1 && IsTrail(s[1]) then [s[0], s[1]] + Escape(s[2..])
    else if IsLead(s[0]) || IsTrail(s[0]) then HexEscape(s[0]) + Escape(s[1..])
    else EscapeUnit(s[0]) + Escape(s[1..])
  }

  function Quoted(s: Text): (q: Text)
    ensures |q| >= 2 && q[0] == QUOTE
  {
    [QUOTE] + Escape(s) + [QUOTE]
  }

  // ---------------------------------------------------------------- stableStringify

  function UnitCode(u: Unit): int {
    u
  }

  /** `keys.sort()`. */
  function SortKeys(ks: seq<Text>): (r: seq<Text>)
    ensures multiset(r) == multiset(ks) && |r| == |ks|
  {
    Sorting.Sort(UnitCode, ks)
  }

  /** `Object.keys`. */
  function Keys(ms: seq<Member>): (ks: seq<Text>)
    ensures |ks| == |ms| && forall i | 0 <= i < |ms| :: ks[i] == ms[i].key
  {
    seq(|ms|, i requires 0 <= i < |ms| => ms[i].key)
  }

  /** `obj[k]`: the index of the member `k`. */
  function IndexOfKey(ms: seq<Member>, k: Text): (i: nat)
    ensures i < |ms| ==> ms[i].key == k
    ensures i == |ms| ==> k !in Keys(ms)
    ensures i <= |ms| && forall j | 0 <= j < i :: ms[j].key != k
  {
    if ms == [] || ms[0].key == k then 0
    else
      assert Keys(ms) == [ms[0].key] + Keys(ms[1..]);
      1 + IndexOfKey(ms[1..], k)
  }

  function Stringify(v: Json): Text
    decreases v, 1
  {
    match v
    case Null => NULL_TEXT
    case Bool(b) => if b then TRUE_TEXT else FALSE_TEXT
    case Number(numeral) => numeral
    case String(s) => Quoted(s)
    case Array(items) => [OPEN_BRACKET] + StringifyItems(items) + [CLOSE_BRACKET]
    case Object(members) => [OPEN_BRACE] + StringifyKeys(members, SortKeys(Keys(members))) + [CLOSE_BRACE]
  }

  function StringifyItems(items: seq<Json>): Text
    decreases items, 0
  {
    if items == [] then []
    else if |items| == 1 then Stringify(items[0])
    else Stringify(items[0]) + [COMMA] + StringifyItems(items[1..])
  }

  /** The members named by `ks`, in that order; an absent key cannot occur and prints nothing. */
  function StringifyKeys(ms: seq<Member>, ks: seq<Text>): Text
    decreases ms, 0, |ks|
  {
    if ks == [] then []
    else
      var i := IndexOfKey(ms, ks[0]);
      var field := Quoted(ks[0]) + [COLON] + if i < |ms| then Stringify(ms[i].value) else [];
      if |ks| == 1 then field else field + [COMMA] + StringifyKeys(ms, ks[1..])
  }

  // ---------------------------------------------------------------- a reader (RFC 8259, sections 4 and 7)

  datatype Parsed<+T> = Fail | Done(value: T, rest: Text)

  function Emit(u: Unit, p: Parsed<Text>): Parsed<Text> {
    match p
    case Fail => Fail
    case Done(s, rest) => Done([u] + s, rest)
  }

  function UnescapeShort(u: Unit): Option<Unit> {
    if u == QUOTE || u == BACKSLASH || u == 47 then Some(u)
    else if u == 98 then Some(8)
    else if u == 116 then Some(9)
    else if u == 110 then Some(10)
    else if u == 102 then Some(12)
    else if u == 114 then Some(13)
    else None
  }

  function ReadHex(t: Text): Option<Unit>
    requires |t| >= 4
  {
    var a, b, c, d := HexValue(t[0]), HexValue(t[1]), HexValue(t[2]), HexValue(t[3]);
    if a.None? || b.None? || c.None? || d.None? then None
    else Some(((a.value * 16 + b.value) * 16 + c.value) * 16 + d.value)
  }

  /** The rest of a string literal, after its opening quote. */
  function ReadChars(t: Text): (p: Parsed<Text>)
    ensures p.Done? ==> |p.rest| < |t|
    decreases |t|
  {
    if t == [] then Fail
    else if t[0] == QUOTE then Done([], t[1..])
    else if t[0] != BACKSLASH then
      if t[0] < 32 then Fail else Emit(t[0], ReadChars(t[1..]))
    else if |t| >= 6 && t[1] == 117 then
      match ReadHex(t[2..6])
      case None => Fail
      case Some(u) => Emit(u, ReadChars(t[6..]))
    else if |t| >= 2 && UnescapeShort(t[1]).Some? then Emit(UnescapeShort(t[1]).value, ReadChars(t[2..]))
    else Fail
  }

  function NumeralPrefix(t: Text): (n: Text)
    ensures n <= t
  {
    if t != [] && IsNumeralUnit(t[0]) then [t[0]] + NumeralPrefix(t[1..]) else []
  }

  function ReadValue(t: Text): (p: Parsed<Json>)
    ensures p.Done? ==> |p.rest| < |t|
    decreases |t|, 1
  {
    if t == [] then Fail
    else if NULL_TEXT <= t then Done(Null, t[4..])
    else if TRUE_TEXT <= t then Done(Bool(true), t[4..])
    else if FALSE_TEXT <= t then Done(Bool(false), t[5..])
    else if t[0] == QUOTE then
      match ReadChars(t[1..])
      case Fail => Fail
      case Done(s, rest) => Done(String(s), rest)
    else if t[0] == OPEN_BRACKET then
      if |t| > 1 && t[1] == CLOSE_BRACKET then Done(Array([]), t[2..])
      else
        match ReadItems(t[1..])
        case Fail => Fail
        case Done(items, rest) => Done(Array(items), rest)
    else if t[0] == OPEN_BRACE then
      if |t| > 1 && t[1] == CLOSE_BRACE then Done(Object([]), t[2..])
      else
        match ReadMembers(t[1..])
        case Fail => Fail
        case Done(members, rest) => Done(Object(members), rest)
    else if IsNumeral(NumeralPrefix(t)) then Done(Number(NumeralPrefix(t)), t[|NumeralPrefix(t)|..])
    else Fail
  }

  function ReadItems(t: Text): (p: Parsed<seq<Json>>)
    ensures p.Done? ==> |p.rest| < |t|
    decreases |t|, 2
  {
    match ReadValue(t)
    case Fail => Fail
    case Done(v, rest) =>
      if rest == [] then Fail
      else if rest[0] == CLOSE_BRACKET then Done([v], rest[1..])
      else if rest[0] != COMMA then Fail
      else
        match ReadItems(rest[1..])
        case Fail => Fail
        case Done(more, last) => Done([v] + more, last)
  }

  function ReadField(t: Text): (p: Parsed<Member>)
    decreases |t|, 2
  {
    if t == [] || t[0] != QUOTE then Fail
    else
      match ReadChars(t[1..])
      case Fail => Fail
      case Done(key, colon) =>
        if colon == [] || colon[0] != COLON then Fail
        else
          match ReadValue(colon[1..])
          case Fail => Fail
          case Done(v, rest) => Done(Member(key, v), rest)
  }

  function ReadMembers(t: Text): (p: Parsed<seq<Member>>)
    ensures p.Done? ==> |p.rest| < |t|
    decreases |t|, 3
  {
    match ReadField(t)
    case Fail => Fail
    case Done(m, rest) =>
      if rest == [] then Fail
      else if rest[0] == CLOSE_BRACE then Done([m], rest[1..])
      else if rest[0] != COMMA then Fail
      else
        match ReadMembers(rest[1..])
        case Fail => Fail
        case Done(more, last) => Done([m] + more, last)
  }

  // ---------------------------------------------------------------- strings read back

  lemma HexReadsBack(u: Unit, t: Text)
    ensures ReadChars(HexEscape(u) + t) == Emit(u, ReadChars(t))
  {
    hide ReadHex, HexDigit;
    var s := HexEscape(u) + t;
    var hex := HexDigits(u);
    HexDigitsReadBack(u);
    assert s[2..6] == hex && s[6..] == t && s[0] == BACKSLASH && s[1] == 117;
  }

  lemma HexDigitsReadBack(u: Unit)
    ensures ReadHex(HexDigits(u)) == Some(u)
  {
    hide HexValue, HexDigit;
    HexDigitReadsBack(u / 16 / 16 / 16);
    HexDigitReadsBack(u / 16 / 16 % 16);
    HexDigitReadsBack(u / 16 % 16);
    HexDigitReadsBack(u % 16);
  }

  lemma HexDigitReadsBack(d: nat)
    requires d < 16
    ensures HexValue(HexDigit(d)) == Some(d)
  {
  }

  lemma RawReadsBack(u: Unit, t: Text)
    requires u >= 32 && u != QUOTE && u != BACKSLASH
    ensures ReadChars([u] + t) == Emit(u, ReadChars(t))
  {
    assert ([u] + t)[1..] == t;
  }

  lemma UnitReadsBack(u: Unit, t: Text)
    ensures ReadChars(EscapeUnit(u) + t) == Emit(u, ReadChars(t))
  {
    hide HexEscape, ReadChars;
    var e := EscapeUnit(u);
    if u == QUOTE || u == BACKSLASH || u in [8, 9, 10, 12, 13] {
      ShortReadsBack(e, u, t);
    } else if u < 32 {
      HexReadsBack(u, t);
    } else {
      RawReadsBack(u, t);
    }
  }

  lemma ShortReadsBack(e: Text, u: Unit, t: Text)
    requires |e| == 2 && e[0] == BACKSLASH && UnescapeShort(e[1]) == Some(u)
    ensures ReadChars(e + t) == Emit(u, ReadChars(t))
  {
    hide ReadHex;
    assert (e + t)[2..] == t && (e + t)[1] == e[1];
  }

  lemma {:induction false} CharsReadBack(s: Text, rest: Text)
    ensures ReadChars(Escape(s) + [QUOTE] + rest) == Done(s, rest)
    decreases |s|
  {
    hide ReadChars, Escape, HeadEscape, HeadSize;
    EscapeHead(s);
    if s == [] {
      QuoteEnds(rest);
      assert Escape(s) + [QUOTE] + rest == [QUOTE] + rest;
    } else {
      var n := HeadSize(s);
      CharsReadBack(s[n..], rest);
      var t := Escape(s[n..]) + [QUOTE] + rest;
      assert Escape(s) + [QUOTE] + rest == HeadEscape(s) + t;
      HeadReadsBack(s, t);
      assert s[..n] + s[n..] == s;
    }
  }

  /** How many code units the first character takes. */
  function HeadSize(s: Text): (n: nat)
    requires s != []
    ensures 1 <= n <= |s|
  {
    if IsLead(s[0]) && |s| > 1 && IsTrail(s[1]) then 2 else 1
  }

  lemma EscapeHead(s: Text)
    ensures if s == [] then Escape(s) == [] else Escape(s) == HeadEscape(s) + Escape(s[HeadSize(s)..])
  {
    hide EscapeUnit, HexEscape;
  }

  /** How `Escape` writes the first character: one code unit, or a pair of surrogates. */
  function HeadEscape(s: Text): Text
    requires s != []
  {
    if IsLead(s[0]) && |s| > 1 && IsTrail(s[1]) then [s[0], s[1]]
    else if IsLead(s[0]) || IsTrail(s[0]) then HexEscape(s[0])
    else EscapeUnit(s[0])
  }

  lemma HeadReadsBack(s: Text, t: Text)
    requires s != []
    ensures ReadChars(t).Done? ==>
              ReadChars(HeadEscape(s) + t) == Done(s[..HeadSize(s)] + ReadChars(t).value, ReadChars(t).rest)
  {
    hide ReadChars, EscapeUnit, HexEscape;
    if HeadSize(s) == 2 {
      RawReadsBack(s[1], t);
      RawReadsBack(s[0], [s[1]] + t);
      assert [s[0], s[1]] + t == [s[0]] + ([s[1]] + t);
      if ReadChars(t).Done? {
        assert [s[0]] + ([s[1]] + ReadChars(t).value) == s[..2] + ReadChars(t).value;
      }
    } else {
      HexReadsBack(s[0], t);
      UnitReadsBack(s[0], t);
      assert s[..1] == [s[0]];
    }
  }

  lemma QuoteEnds(rest: Text)
    ensures ReadChars([QUOTE] + rest) == Done([], rest)
  {
    assert ([QUOTE] + rest)[1..] == rest;
  }

  // ---------------------------------------------------------------- the text in code units

  /** The words and the punctuation, as RFC 8259, sections 2 and 3, has them. */
  lemma PrintedTokens(v: Json, w: Json, m: Member)
    ensures Stringify(Null) == [110, 117, 108, 108]                       // null
    ensures Stringify(Bool(true)) == [116, 114, 117, 101]                 // true
    ensures Stringify(Bool(false)) == [102, 97, 108, 115, 101]            // false
    ensures Stringify(String(m.key)) == [34] + Escape(m.key) + [34]
    ensures Stringify(Array([])) == [91, 93] && Stringify(Object([])) == [123, 125]
    ensures Stringify(Array([v, w])) == [91] + Stringify(v) + [44] + Stringify(w) + [93]
    ensures Stringify(Object([m])) == [123] + ([34] + Escape(m.key) + [34] + [58] + Stringify(m.value)) + [125]
  {
    hide Escape, Stringify;
    PrintedWords();
    PrintedArrays(v, w);
    PrintedObjects(m);
  }

  lemma PrintedWords()
    ensures Stringify(Null) == [110, 117, 108, 108] && Stringify(Bool(true)) == [116, 114, 117, 101]
    ensures Stringify(Bool(false)) == [102, 97, 108, 115, 101]
    ensures forall s :: Stringify(String(s)) == [34] + Escape(s) + [34]
  {
    hide Escape;
  }

  lemma TwoItems(v: Json, w: Json)
    ensures StringifyItems([v, w]) == Stringify(v) + [44] + Stringify(w)
  {
    hide Stringify;
    assert [v, w][1..] == [w];
  }

  lemma PrintedArrays(v: Json, w: Json)
    ensures Stringify(Array([])) == [91, 93]
    ensures Stringify(Array([v, w])) == [91] + Stringify(v) + [44] + Stringify(w) + [93]
  {
    assert StringifyItems([]) == [];
    TwoItems(v, w);
    hide StringifyItems;
    assert [91] + (Stringify(v) + [44] + Stringify(w)) == [91] + Stringify(v) + [44] + Stringify(w);
  }

  lemma PrintedObjects(m: Member)
    ensures Stringify(Object([])) == [123, 125]
    ensures Stringify(Object([m])) == [123] + ([34] + Escape(m.key) + [34] + [58] + Stringify(m.value)) + [125]
  {
    hide Escape;
    var none: seq<Text> := [];
    SortedAlone(m.key);
    assert Keys([m]) == [m.key] && Keys([]) == none;
    assert SortKeys(none) == none;
    assert StringifyKeys([m], [m.key]) == Quoted(m.key) + [58] + Stringify(m.value);
  }

  lemma SortedAlone(k: Text)
    ensures SortKeys([k]) == [k]
  {
    assert SortKeys([k])[0] in multiset([k]);
  }

  /** A lower-case hexadecimal digit. */
  function DigitUnit(d: nat): int {
    if d <= 9 then 48 + d else 97 + (d - 10)
  }

  /** How a code unit other than a surrogate is written (RFC 8259, section 7): the short escapes, or four digits. */
  lemma EscapesOfUnits(u: Unit)
    ensures EscapeUnit(u) ==
            if u == 34 then [92, 34] else if u == 92 then [92, 92]
            else if u == 8 then [92, 98] else if u == 9 then [92, 116] else if u == 10 then [92, 110]
            else if u == 12 then [92, 102] else if u == 13 then [92, 114]
            else if u < 32 then [92, 117, 48, 48, 48 + u / 16, DigitUnit(u % 16)]
            else [u]
  {
  }

  /** A pair of surrogates stands as it is, a lone one is written with its four digits, anything else by itself. */
  lemma EscapesOfSurrogates(s: Text)
    requires s != []
    ensures Escape([]) == []
    ensures IsPair(s) ==> Escape(s) == [s[0], s[1]] + Escape(s[2..])
    ensures 0xD800 <= s[0] <= 0xDFFF && !IsPair(s) ==>
              exists four :: AreDigitsOf(four, s[0]) && Escape(s) == [92, 117] + four + Escape(s[1..])
    ensures !(0xD800 <= s[0] <= 0xDFFF) ==> Escape(s) == EscapeUnit(s[0]) + Escape(s[1..])
  {
    hide EscapeUnit, HexDigits, AreDigitsOf;
    DigitsOfUnit(s[0]);
    var four := HexDigits(s[0]);
  }

  predicate IsPair(s: Text) {
    |s| >= 2 && 0xD800 <= s[0] <= 0xDBFF && 0xDC00 <= s[1] <= 0xDFFF
  }

  ghost predicate AreDigitsOf(four: Text, u: Unit) {
    exists a: nat, b: nat, c: nat, d: nat ::
      && a < 16 && b < 16 && c < 16 && d < 16 && u == 4096 * a + 256 * b + 16 * c + d
      && four == [DigitUnit(a), DigitUnit(b), DigitUnit(c), DigitUnit(d)]
  }

  lemma DigitsOfUnit(u: Unit)
    ensures AreDigitsOf(HexDigits(u), u)
  {
    var a, b, c, d := u / 16 / 16 / 16, u / 16 / 16 % 16, u / 16 % 16, u % 16;
    assert u == 4096 * a + 256 * b + 16 * c + d;
    assert HexDigits(u) == [DigitUnit(a), DigitUnit(b), DigitUnit(c), DigitUnit(d)];
  }
}
