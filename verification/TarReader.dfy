/** The USTAR / GNU / PAX reader of `packages/cli/src/lib/starter.ts`. */
module TarReader {
  import opened Wrappers
  import opened Bytes

  datatype EntryKind = File | Directory | Other

  datatype TarEntry = TarEntry(name: Bytes, kind: EntryKind, size: nat, data: Bytes)

  datatype TarError = Truncated | InvalidSize

  /** Names announced by earlier records for the next entry. */
  datatype Pending = Pending(longName: Option<Bytes>, paxPath: Option<Bytes>)

  const NOTHING_PENDING := Pending(None, None)

  const BLOCK := 512

  const FLAG_FILE: Byte := 48
  const FLAG_DIRECTORY: Byte := 53
  const FLAG_LONG_NAME: Byte := 76
  const FLAG_PAX: Byte := 120
  const FLAG_PAX_GLOBAL: Byte := 103

  const USTAR: Bytes := [117, 115, 116, 97, 114]
  const PATH_KEY: Bytes := [112, 97, 116, 104]
  const SLASH: Bytes := [47]

  function ReadString(buf: Bytes, start: nat, len: nat): Bytes
    requires start + len <= |buf|
  {
    UntilNul(buf[start..start + len])
  }

  /** `None` is the thrown "Invalid tar size field". */
  function ParseOctal(s: Bytes): Option<nat> {
    var trimmed := TrimEnd(TrimStart(TrimEndBlankOrNul(s)));
    if trimmed == [] then Some(0)
    else
      match ParseInt(trimmed, 8)
      case None => None
      case Some(n) => if n < 0 then None else Some(n)
  }

  function RoundUp512(n: nat): (r: nat)
    ensures n <= r < n + BLOCK && r % BLOCK == 0
  {
    var rem := n % BLOCK;
    if rem == 0 then n else n + (BLOCK - rem)
  }

  predicate AllZero(s: Bytes) {
    forall b | b in s :: b == 0
  }

  // ---------------------------------------------------------------- PAX records

  datatype PaxStep = Stop | Found(path: Bytes) | Next(at: nat)

  /** One round of the scan: `<len> <key>=<value>` followed by a newline, at `i`. */
  function PaxRecordAt(text: Bytes, i: nat): (step: PaxStep)
    requires i < |text|
  {
    var sp := FindFrom(text, SPACE, i);
    if sp == |text| then Stop
    else
      var recLen := ParseInt(text[i..sp], 10);
      if recLen.None? || recLen.value <= 0 then Stop
      else
        var rec := JsSlice(text, sp + 1, i + recLen.value - 1);
        var eq := FindFrom(rec, EQUALS, 0);
        if eq < |rec| && rec[..eq] == PATH_KEY then Found(rec[eq + 1..]) else Next(i + recLen.value)
  }

  /** The value of the first `path` record from `i` on. */
  function PaxPathFrom(text: Bytes, i: nat): Option<Bytes>
    decreases |text| - i
  {
    if i >= |text| then None
    else
      match PaxRecordAt(text, i)
      case Stop => None
      case Found(path) => Some(path)
      case Next(at) => PaxPathFrom(text, at)
  }

  method ParsePaxPath(text: Bytes) returns (path: Option<Bytes>)
    ensures path == PaxPathFrom(text, 0)
  {
    var i: nat := 0;
    while i < |text|
      invariant PaxPathFrom(text, i) == PaxPathFrom(text, 0)
      decreases |text| - i
    {
      match PaxRecordAt(text, i) {
        case Stop => return None;
        case Found(found) => return Some(found);
        case Next(at) => i := at;
      }
    }
    path := None;
  }

  // ---------------------------------------------------------------- entries

  predicate NonEmpty(s: Option<Bytes>) {
    s.Some? && s.value != []
  }

  function KindOf(flag: Byte): EntryKind {
    if flag == FLAG_FILE || flag == NUL then File
    else if flag == FLAG_DIRECTORY then Directory
    else Other
  }

  predicate IsExtension(flag: Byte) {
    flag == FLAG_LONG_NAME || flag == FLAG_PAX || flag == FLAG_PAX_GLOBAL
  }

  /** What an extension record leaves pending for the next entry. */
  function Extend(flag: Byte, data: Bytes, p: Pending): Pending
    requires IsExtension(flag)
  {
    if flag == FLAG_LONG_NAME then p.(longName := Some(TrimEndNul(data)))
    else
      var path := PaxPathFrom(data, 0);
      if flag == FLAG_PAX && NonEmpty(path) then p.(paxPath := path) else p
  }

  /** The name in the header itself. */
  function HeaderName(header: Bytes): Bytes
    requires |header| == BLOCK
  {
    var rawName := ReadString(header, 0, 100);
    var prefix := ReadString(header, 345, 155);
    if USTAR <= ReadString(header, 257, 6) && |prefix| > 0 then prefix + SLASH + rawName else rawName
  }

  /** A PAX path beats a GNU long name, which beats the header. */
  function Resolve(headerName: Bytes, p: Pending): Bytes {
    if NonEmpty(p.paxPath) then p.paxPath.value
    else if NonEmpty(p.longName) then p.longName.value
    else headerName
  }

  /** A used pending name is cleared; an empty one is falsy in the source and stays. */
  function Consumed(p: Pending): Pending {
    Pending(if NonEmpty(p.longName) then None else p.longName,
            if NonEmpty(p.paxPath) then None else p.paxPath)
  }

  function Drop(s: Bytes, n: nat): (r: Bytes)
  {
    if n <= |s| then s[n..] else []
  }

  function Prepend(es: seq<TarEntry>, r: Result<seq<TarEntry>, TarError>): Result<seq<TarEntry>, TarError> {
    match r
    case Ok(more) => Ok(es + more)
    case Err(e) => Err(e)
  }

  /** One header block with its data, and the bytes after the padding. */
  datatype Record = End | Bad(error: TarError) | Record(header: Bytes, data: Bytes, next: Bytes)

  function ReadRecord(rest: Bytes): (rec: Record)
    ensures rec.Record? ==> |rec.header| == BLOCK && |rec.next| + BLOCK <= |rest|
    ensures rec.Record? ==> |rec.next| + BLOCK + |rec.data| <= |rest| || rec.next == []
    ensures rec.Record? ==> BLOCK + |rec.data| <= |rest|
  {
    if |rest| < BLOCK || AllZero(rest[..BLOCK]) then End
    else
      match ParseOctal(ReadString(rest[..BLOCK], 124, 12))
      case None => Bad(InvalidSize)
      case Some(size) =>
        if BLOCK + size > |rest| then Bad(Truncated)
        else Record(rest[..BLOCK], rest[BLOCK..BLOCK + size], Drop(rest, BLOCK + RoundUp512(size)))
  }

  function EntryOf(header: Bytes, data: Bytes, p: Pending): TarEntry
    requires |header| == BLOCK
  {
    var kind := KindOf(header[156]);
    TarEntry(Resolve(HeaderName(header), p), kind, |data|, if kind == File then data else [])
  }

  /** What the reader makes of the unread part of the buffer. */
  function ParseFrom(rest: Bytes, p: Pending): Result<seq<TarEntry>, TarError>
    decreases |rest|
  {
    match ReadRecord(rest)
    case End => Ok([])
    case Bad(error) => Err(error)
    case Record(header, data, next) =>
      if IsExtension(header[156]) then ParseFrom(next, Extend(header[156], data, p))
      else Prepend([EntryOf(header, data, p)], ParseFrom(next, Consumed(p)))
  }

  method ParseTar(buf: Bytes) returns (r: Result<seq<TarEntry>, TarError>)
    ensures r == ParseFrom(buf, NOTHING_PENDING)
  {
    hide ParseOctal, ReadString, AllZero, RoundUp512, TrimEndNul, PaxPathFrom, HeaderName, ReadRecord;
    var entries: seq<TarEntry> := [];
    var offset: nat := 0;
    var pendingLongName: Option<Bytes> := None;
    var pendingPaxPath: Option<Bytes> := None;
    PrependNone(ParseFrom(buf, NOTHING_PENDING));
    while offset + BLOCK <= |buf|
      invariant Prepend(entries, ParseFrom(Drop(buf, offset), Pending(pendingLongName, pendingPaxPath)))
             == ParseFrom(buf, NOTHING_PENDING)
      decreases |buf| - offset
    {
      RecordAtOffset(buf, offset);
      var header := buf[offset..offset + BLOCK];
      if AllZero(header) { break; }
      var parsed := ParseOctal(ReadString(header, 124, 12));
      if parsed.None? {
        return Err(InvalidSize);
      }
      var size := parsed.value;
      var dataStart := offset + BLOCK;
      var dataEnd := dataStart + size;
      var blockEnd := dataStart + RoundUp512(size);
      if dataEnd > |buf| {
        return Err(Truncated);
      }
      var data := buf[dataStart..dataEnd];
      var typeflag := header[156];
      if typeflag == FLAG_LONG_NAME {
        pendingLongName := Some(TrimEndNul(data));
        offset := blockEnd;
        continue;
      }
      if typeflag == FLAG_PAX || typeflag == FLAG_PAX_GLOBAL {
        var paxPath := ParsePaxPath(data);
        if typeflag == FLAG_PAX && NonEmpty(paxPath) {
          pendingPaxPath := paxPath;
        }
        offset := blockEnd;
        continue;
      }
      ghost var before := Pending(pendingLongName, pendingPaxPath);
      var name := HeaderName(header);
      if NonEmpty(pendingLongName) {
        name := pendingLongName.value;
        pendingLongName := None;
      }
      if NonEmpty(pendingPaxPath) {
        name := pendingPaxPath.value;
        pendingPaxPath := None;
      }
      var kind := KindOf(typeflag);
      var entry := TarEntry(name, kind, size, if kind == File then data else []);
      PrependTwice(entries, [entry], ParseFrom(Drop(buf, blockEnd), Consumed(before)));
      entries := entries + [entry];
      offset := blockEnd;
    }
    ShortRestEnds(Drop(buf, offset));
    r := Ok(entries);
    assert entries + [] == entries;
  }

  lemma ShortRestEnds(rest: Bytes)
    ensures |rest| < BLOCK ==> ReadRecord(rest) == End
  {
  }

  lemma RecordAtOffset(buf: Bytes, offset: nat)
    requires offset + BLOCK <= |buf|
    ensures var header := buf[offset..offset + BLOCK];
            var size := ParseOctal(ReadString(header, 124, 12));
            ReadRecord(Drop(buf, offset)) ==
            if AllZero(header) then End
            else if size.None? then Bad(InvalidSize)
            else if offset + BLOCK + size.value > |buf| then Bad(Truncated)
            else Record(header, buf[offset + BLOCK..offset + BLOCK + size.value],
                        Drop(buf, offset + BLOCK + RoundUp512(size.value)))
  {
    hide ParseOctal, ReadString, AllZero, RoundUp512;
    var rest := Drop(buf, offset);
    assert rest[..BLOCK] == buf[offset..offset + BLOCK];
    var size := ParseOctal(ReadString(rest[..BLOCK], 124, 12));
    if size.Some? && offset + BLOCK + size.value <= |buf| {
      assert rest[BLOCK..BLOCK + size.value] == buf[offset + BLOCK..offset + BLOCK + size.value];
      assert Drop(rest, BLOCK + RoundUp512(size.value)) == Drop(buf, offset + BLOCK + RoundUp512(size.value));
    }
  }

  lemma PrependNone(r: Result<seq<TarEntry>, TarError>)
    ensures Prepend([], r) == r
  {
    if r.Ok? {
      assert [] + r.value == r.value;
    }
  }

  lemma PrependTwice(es: seq<TarEntry>, fs: seq<TarEntry>, r: Result<seq<TarEntry>, TarError>)
    ensures Prepend(es, Prepend(fs, r)) == Prepend(es + fs, r)
  {
    if r.Ok? {
      assert es + (fs + r.value) == es + fs + r.value;
    }
  }

  // ---------------------------------------------------------------- size fields

  /** White space as `\s` has it, below 128. */
  predicate IsBlankByte(b: Byte) {
    b == 9 || b == 10 || b == 11 || b == 12 || b == 13 || b == 32
  }

  predicate IsOctalDigit(b: Byte) {
    b == 48 || b == 49 || b == 50 || b == 51 || b == 52 || b == 53 || b == 54 || b == 55
  }

  /** What the digits stand for. */
  function OctalNumber(digits: Bytes): int {
    if digits == [] then 0 else 8 * OctalNumber(digits[..|digits| - 1]) + digits[|digits| - 1] - 48
  }

  lemma {:induction false} HornerIsOctal(digits: Bytes)
    requires forall b | b in digits :: IsDigit(b, 8)
    ensures Horner(digits, 8) == OctalNumber(digits)
  {
    if digits != [] {
      assert IsDigit(digits[|digits| - 1], 8);
      HornerIsOctal(digits[..|digits| - 1]);
    }
  }

  lemma {:induction false} BlankFieldTrims(s: Bytes)
    requires forall b | b in s :: IsBlankByte(b) || b == 0
    ensures TrimEndBlankOrNul(s) == []
  {
    if s != [] {
      assert s[|s| - 1] in s;
      BlankFieldTrims(s[..|s| - 1]);
    }
  }

  /** A field of blanks says zero. */
  lemma BlankSizeIsZero(s: Bytes)
    requires forall b | b in s :: IsBlankByte(b) || b == 0
    ensures ParseOctal(s) == Some(0)
  {
    BlankFieldTrims(s);
  }

  /** Trimming the end takes blanks and NULs off what follows, and never more. */
  lemma {:induction false} TrimEndKeeps(kept: Bytes, after: Bytes) returns (rest: Bytes)
    requires kept != [] && !IsSpace(kept[|kept| - 1]) && kept[|kept| - 1] != NUL
    ensures TrimEndBlankOrNul(kept + after) == kept + rest && rest <= after
    ensures TrimEnd(kept + rest) == kept + rest
    decreases |after|
  {
    var s := kept + after;
    if after != [] && (IsSpace(s[|s| - 1]) || s[|s| - 1] == NUL) {
      assert s[..|s| - 1] == kept + after[..|after| - 1];
      rest := TrimEndKeeps(kept, after[..|after| - 1]);
    } else {
      rest := after;
      assert s[|s| - 1] == if after == [] then kept[|kept| - 1] else after[|after| - 1];
    }
  }

  lemma {:induction false} TrimStartSkips(blanks: Bytes, s: Bytes)
    requires (forall b | b in blanks :: IsSpace(b)) && s != [] && !IsSpace(s[0])
    ensures TrimStart(blanks + s) == s
  {
    if blanks == [] {
      assert blanks + s == s;
    } else {
      assert (blanks + s)[1..] == blanks[1..] + s;
      TrimStartSkips(blanks[1..], s);
    }
  }

  lemma {:induction false} DigitPrefixStops(digits: Bytes, rest: Bytes)
    requires (forall b | b in digits :: IsDigit(b, 8)) && (rest != [] ==> !IsDigit(rest[0], 8))
    ensures DigitPrefix(digits + rest, 8) == digits
  {
    if digits == [] {
      assert digits + rest == rest;
    } else {
      assert (digits + rest)[1..] == digits[1..] + rest;
      DigitPrefixStops(digits[1..], rest);
    }
  }

  /** The sign in front of a number, if any: plus or minus. */
  predicate IsSign(sign: Bytes) {
    sign == [] || sign == [43] || sign == [45]
  }

  /** What trimming leaves of blanks, something that neither begins nor ends in a blank, and more. */
  lemma FieldTrims(blanks: Bytes, core: Bytes, after: Bytes) returns (rest: Bytes)
    requires (forall b | b in blanks :: IsBlankByte(b)) && core != [] && !IsSpace(core[0])
    requires !IsSpace(core[|core| - 1]) && core[|core| - 1] != NUL
    ensures rest <= after && TrimStart(core + rest) == core + rest
    ensures TrimEnd(TrimStart(TrimEndBlankOrNul(blanks + core + after))) == core + rest
  {
    hide TrimStart, TrimEnd, TrimEndBlankOrNul;
    var kept := blanks + core;
    assert kept[|kept| - 1] == core[|core| - 1];
    rest := TrimEndKeeps(kept, after);
    assert kept + rest == blanks + (core + rest);
    TrimStartSkips(blanks, core + rest);
    EndKeptWithoutBlanks(blanks, core + rest);
    TrimStartSkips([], core + rest);
    assert [] + (core + rest) == core + rest;
  }

  /** `parseInt` of what needs no trimming, by its sign. */
  lemma ParseIntOfSigned(sign: Bytes, t: Bytes)
    requires IsSign(sign) && t != [] && TrimStart(sign + t) == sign + t && (sign == [] ==> t[0] != 43 && t[0] != 45)
    ensures var digits := DigitPrefix(t, 8);
            ParseInt(sign + t, 8)
            == if digits == [] then None
               else Some(if sign == [45] then -(Horner(digits, 8) as int) else Horner(digits, 8) as int)
  {
    hide Horner, TrimStart, DigitPrefix;
    assert (sign + t)[0] == if sign == [] then t[0] else sign[0];
    assert sign != [] ==> (sign + t)[1..] == t;
    assert sign == [] ==> sign + t == t;
  }

  lemma SignedDigits(sign: Bytes, digits: Bytes, rest: Bytes)
    requires IsSign(sign) && digits != [] && (forall b | b in digits :: IsOctalDigit(b))
    requires rest != [] ==> !IsOctalDigit(rest[0])
    requires TrimStart(sign + digits + rest) == sign + digits + rest
    ensures ParseInt(sign + digits + rest, 8)
         == Some(if sign == [45] then -OctalNumber(digits) else OctalNumber(digits))
  {
    hide Horner, OctalNumber, TrimStart, DigitPrefix, ParseInt;
    assert digits[0] in digits && (digits + rest)[0] == digits[0];
    assert sign + (digits + rest) == sign + digits + rest;
    ParseIntOfSigned(sign, digits + rest);
    DigitPrefixStops(digits, rest);
    HornerIsOctal(digits);
  }

  /**
   A size field with blanks, perhaps a sign, octal digits and anything that is no further digit says what the digits
   say, and is refused where that is negative.
   */
  lemma SizeFieldMeaning(blanks: Bytes, sign: Bytes, digits: Bytes, after: Bytes)
    requires (forall b | b in blanks :: IsBlankByte(b)) && IsSign(sign)
    requires digits != [] && (forall b | b in digits :: IsOctalDigit(b)) && (after != [] ==> !IsOctalDigit(after[0]))
    ensures ParseOctal(blanks + (sign + digits) + after)
         == if sign == [45] && OctalNumber(digits) > 0 then None else Some(OctalNumber(digits))
  {
    hide ParseInt, OctalNumber, TrimStart, TrimEnd, TrimEndBlankOrNul;
    var core := sign + digits;
    assert digits[|digits| - 1] in digits && digits[0] in digits;
    assert core[|core| - 1] == digits[|digits| - 1] && core[0] == if sign == [] then digits[0] else sign[0];
    var rest := FieldTrims(blanks, core, after);
    SignedDigits(sign, digits, rest);
    OctalIsNatural(digits);
  }

  lemma {:induction false} OctalIsNatural(digits: Bytes)
    requires forall b | b in digits :: IsOctalDigit(b)
    ensures OctalNumber(digits) >= 0
  {
    if digits != [] {
      assert digits[|digits| - 1] in digits;
      OctalIsNatural(digits[..|digits| - 1]);
    }
  }

  lemma {:induction false} EndKeptWithoutBlanks(blanks: Bytes, s: Bytes)
    requires s != [] && TrimEnd(blanks + s) == blanks + s
    ensures TrimEnd(s) == s
  {
    assert (blanks + s)[|blanks + s| - 1] == s[|s| - 1];
    var all := blanks + s;
    if IsSpace(s[|s| - 1]) {
      TrimEndShortens(all[..|all| - 1]);
    }
  }

  lemma {:induction false} TrimEndShortens(s: Bytes)
    ensures |TrimEnd(s)| <= |s|
  {
    if s != [] { TrimEndShortens(s[..|s| - 1]); }
  }

  /** Anything else is refused. */
  lemma NoNumberIsInvalid(blanks: Bytes, sign: Bytes, c: Byte, after: Bytes)
    requires (forall b | b in blanks :: IsBlankByte(b)) && IsSign(sign)
    requires !IsBlankByte(c) && c != 0 && !IsOctalDigit(c) && (sign == [] ==> c != 43 && c != 45)
    ensures ParseOctal(blanks + (sign + [c]) + after) == None
  {
    hide Horner, TrimStart, TrimEnd, TrimEndBlankOrNul, DigitPrefix, ParseInt;
    var core := sign + [c];
    assert core[|core| - 1] == c;
    var rest := FieldTrims(blanks, core, after);
    DigitPrefixStops([], [c] + rest);
    assert [] + ([c] + rest) == [c] + rest && core + rest == sign + ([c] + rest);
    ParseIntOfSigned(sign, [c] + rest);
  }

  // ---------------------------------------------------------------- resource bound

  function DataBytes(es: seq<TarEntry>): nat {
    if es == [] then 0 else |es[0].data| + DataBytes(es[1..])
  }

  /** On any bytes at all, the entries hold no more than the buffer does, a block of header each included. */
  lemma {:induction false} EntriesFitTheBuffer(rest: Bytes, p: Pending)
    ensures var r := ParseFrom(rest, p);
            r.Ok? ==> && BLOCK * |r.value| + DataBytes(r.value) <= |rest|
                      && forall e | e in r.value :: |e.data| == if e.kind == File then e.size else 0
    decreases |rest|
  {
    match ReadRecord(rest)
    case End =>
    case Bad(_) =>
    case Record(header, data, next) =>
      if IsExtension(header[156]) {
        EntriesFitTheBuffer(next, Extend(header[156], data, p));
      } else {
        EntriesFitTheBuffer(next, Consumed(p));
        var more := ParseFrom(next, Consumed(p));
        if more.Ok? {
          var all := ParseFrom(rest, p).value;
          assert all == [EntryOf(header, data, p)] + more.value;
          assert all[1..] == more.value;
        }
      }
  }
}
