/**
 An archive writer after IEEE Std 1003.1-2017, pax utility, "ustar Interchange Format" and "pax Extended
 Header", with the GNU long-name record, and the proof that the reader inverts it.
 */
module TarWriter {
  import opened Wrappers
  import opened Bytes
  import opened TarReader

  // ---------------------------------------------------------------- the bytes of the standards

  const BLOCK_SIZE := 512

  const ZERO: Byte := 0
  const LINE_FEED: Byte := 10
  const BLANK: Byte := 32
  const SLASH_BYTE: Byte := 47                             // '/'
  const EQUALS_SIGN: Byte := 61                            // '='

  const TYPE_FILE: Byte := 48                              // '0'
  const TYPE_OLD_FILE: Byte := 0
  const TYPE_DIRECTORY: Byte := 53                         // '5'
  const TYPE_LONG_NAME: Byte := 76                         // 'L'
  const TYPE_PAX: Byte := 120                              // 'x'
  const TYPE_PAX_GLOBAL: Byte := 103                       // 'g'

  const MAGIC: Bytes := [117, 115, 116, 97, 114]           // "ustar"
  const PATH: Bytes := [112, 97, 116, 104]                 // "path"

  ghost predicate NulFree(s: Bytes) {
    forall b | b in s :: b != ZERO
  }

  function Zeros(n: nat): Bytes {
    seq(n, i => ZERO)
  }

  /** `text` padded with NULs to `width` bytes. */
  function PadNul(text: Bytes, width: nat): (s: Bytes)
    requires |text| <= width
    ensures |s| == width
  {
    text + Zeros(width - |text|)
  }

  lemma UntilNulOfPadded(text: Bytes, width: nat)
    requires |text| <= width && NulFree(text)
    ensures UntilNul(PadNul(text, width)) == text
  {
    var s := PadNul(text, width);
    assert forall j | 0 <= j < |text| :: s[j] == text[j] && text[j] in text;
    if |text| < width {
      FindFromIs(s, NUL, 0, |text|);
    } else {
      assert s == text;
    }
  }

  // ---------------------------------------------------------------- header blocks

  /** The header fields the reader never looks at, with any contents of the right widths. */
  datatype Unread = Unread(owner: Bytes, stamp: Bytes, link: Bytes, identity: Bytes, pad: Bytes,
                           sizeEnd: Byte, magicEnd: Byte)

  ghost predicate ValidUnread(u: Unread) {
    && |u.owner| == 24      // mode, uid, gid
    && |u.stamp| == 20      // mtime, chksum
    && |u.link| == 100      // linkname
    && |u.identity| == 82   // version, uname, gname, devmajor, devminor
    && |u.pad| == 12
    && (u.sizeEnd == ZERO || u.sizeEnd == BLANK)
  }

  const SIZE_DIGITS := 11

  ghost predicate FitsSizeField(n: nat) {
    n < Power(8, SIZE_DIGITS)
  }

  function SizeField(n: nat, u: Unread): (s: Bytes)
    ensures |s| == 12
  {
    Octal(n, SIZE_DIGITS) + [u.sizeEnd]
  }

  function Header(name: Bytes, size: nat, flag: Byte, prefix: Bytes, u: Unread): Bytes
    requires |name| <= 100 && |prefix| <= 155
  {
    PadNul(name, 100) + u.owner + SizeField(size, u) + u.stamp + [flag] + u.link
    + (MAGIC + [u.magicEnd]) + u.identity + PadNul(prefix, 155) + u.pad
  }

  /** Where each field of a header lies. */
  lemma HeaderLayout(name: Bytes, size: nat, flag: Byte, prefix: Bytes, u: Unread)
    requires |name| <= 100 && |prefix| <= 155 && ValidUnread(u)
    ensures var h := Header(name, size, flag, prefix, u);
            && |h| == BLOCK_SIZE
            && h[0..100] == PadNul(name, 100)
            && h[124..136] == SizeField(size, u)
            && h[156] == flag
            && h[257..263] == MAGIC + [u.magicEnd]
            && h[345..500] == PadNul(prefix, 155)
  {
    hide PadNul, SizeField;
    var a := PadNul(name, 100) + u.owner;
    var b := a + SizeField(size, u) + u.stamp;
    var c := b + [flag] + u.link;
    var d := c + (MAGIC + [u.magicEnd]) + u.identity;
    var e := d + PadNul(prefix, 155);
    var h := e + u.pad;
    assert h[0..100] == a[0..100] == PadNul(name, 100);
    assert h[124..136] == b[124..136] == SizeField(size, u);
    assert h[257..263] == d[257..263] == MAGIC + [u.magicEnd];
    assert h[345..500] == e[345..500] == PadNul(prefix, 155);
  }

  /** A zero-padded octal size reads back as the size. */
  lemma SizeFieldReadsBack(size: nat, u: Unread)
    requires ValidUnread(u) && FitsSizeField(size)
    ensures ParseOctal(UntilNul(SizeField(size, u))) == Some(size)
  {
    hide ParseInt, Octal, Horner, Power;
    var digits := Octal(size, SIZE_DIGITS);
    var field := SizeField(size, u);
    OctalValue(size, SIZE_DIGITS);
    ParseIntOfDigits(digits, 8);
    assert forall j | 0 <= j < 11 :: digits[j] in digits && field[j] == digits[j];
    assert field[11] == u.sizeEnd;
    if u.sizeEnd == NUL {
      FindFromIs(field, NUL, 0, 11);
      assert field[..11] == digits;
    } else {
      assert UntilNul(field) == field;
      assert field[..11] == digits;
      assert TrimEndBlankOrNul(field) == TrimEndBlankOrNul(digits);
    }
    TrimDigits(digits);
  }

  lemma TrimDigits(digits: Bytes)
    requires digits != [] && forall b | b in digits :: IsDigit(b, 8)
    ensures TrimEndBlankOrNul(digits) == TrimStart(digits) == TrimEnd(digits) == digits
  {
    assert IsDigit(digits[0], 8) && IsDigit(digits[|digits| - 1], 8);
  }

  /** As few NULs as fill up the last block. */
  function Padding(n: nat): Bytes {
    Zeros((BLOCK_SIZE - n % BLOCK_SIZE) % BLOCK_SIZE)
  }

  lemma PaddingRoundsUp(n: nat)
    ensures n + |Padding(n)| == RoundUp512(n)
  {
  }

  /** A header, its data, and NULs up to the next block boundary. */
  function Block(name: Bytes, flag: Byte, prefix: Bytes, u: Unread, data: Bytes): Bytes
    requires |name| <= 100 && |prefix| <= 155
  {
    Header(name, |data|, flag, prefix, u) + data + Padding(|data|)
  }

  lemma BlockReadsBack(name: Bytes, flag: Byte, prefix: Bytes, u: Unread, data: Bytes, more: Bytes)
    requires |name| <= 100 && |prefix| <= 155 && ValidUnread(u) && FitsSizeField(|data|)
    ensures ReadRecord(Block(name, flag, prefix, u, data) + more)
         == Record(Header(name, |data|, flag, prefix, u), data, more)
  {
    hide ParseOctal, Header, SizeField, Power, UntilNul, RoundUp512, PadNul;
    var header := Header(name, |data|, flag, prefix, u);
    HeaderLayout(name, |data|, flag, prefix, u);
    SizeFieldReadsBack(|data|, u);
    var rest := Block(name, flag, prefix, u, data) + more;
    var padded := data + Padding(|data|);
    assert rest == header + (padded + more);
    assert rest[..BLOCK] == header;
    assert header[257] == header[257..263][0] == 117 && header[257] in header;
    assert ReadString(rest[..BLOCK], 124, 12) == UntilNul(SizeField(|data|, u));
    assert rest[BLOCK..] == padded + more;
    assert rest[BLOCK..BLOCK + |data|] == data;
    PaddingRoundsUp(|data|);
    assert |padded| == RoundUp512(|data|);
    assert Drop(rest, BLOCK + RoundUp512(|data|)) == more;
  }

  // ---------------------------------------------------------------- pax records

  datatype PaxRecord = PaxRecord(key: Bytes, value: Bytes)

  /** The keyword has no `=`; the value is free. */
  ghost predicate ValidRecord(r: PaxRecord) {
    EQUALS_SIGN !in r.key
  }

  /** How many digits a record length takes when the rest of the record takes `payload` bytes. */
  function LengthDigits(payload: nat, guess: nat): (d: nat)
    requires guess >= 1
    requires guess == 1 || payload + (guess - 1) >= Power(10, guess - 1)
    ensures d >= 1 && payload + d < Power(10, d)
    ensures d == 1 || payload + (d - 1) >= Power(10, d - 1)
    decreases payload + guess - Power(10, guess)
  {
    if payload + guess < Power(10, guess) then guess
    else
      PowerAtLeastBase(guess);
      LengthDigits(payload, guess + 1)
  }

  /** The record's own length in decimal, counting the digits that express it. */
  function RecordLength(r: PaxRecord): nat {
    var payload := |r.key| + |r.value| + 3;
    payload + LengthDigits(payload, 1)
  }

  function Fields(r: PaxRecord): Bytes {
    r.key + [EQUALS_SIGN] + r.value
  }

  /** `<len> <key>=<value>` and a newline. */
  function Render(r: PaxRecord): Bytes {
    Decimal(RecordLength(r)) + [BLANK] + Fields(r) + [LINE_FEED]
  }

  /** The length a record states is the length it has. */
  lemma RecordLengthIsTrue(r: PaxRecord)
    ensures |Render(r)| == RecordLength(r)
    ensures |Decimal(RecordLength(r))| + |Fields(r)| + 2 == RecordLength(r)
  {
    hide Decimal;
    var payload := |r.key| + |r.value| + 3;
    var d := LengthDigits(payload, 1);
    DecimalWidth(payload + d, d);
    if d > 1 {
      DecimalWidth(payload + d, d - 1);
    }
  }

  function RenderAll(rs: seq<PaxRecord>): Bytes {
    if rs == [] then [] else Render(rs[0]) + RenderAll(rs[1..])
  }

  /** The value of the first record whose keyword is `path`. */
  function FirstPath(rs: seq<PaxRecord>): Option<Bytes> {
    if rs == [] then None
    else if rs[0].key == PATH then Some(rs[0].value)
    else FirstPath(rs[1..])
  }

  lemma LengthReadsBack(text: Bytes, i: nat, length: nat)
    requires i + |Decimal(length)| < |text|
    requires text[i..i + |Decimal(length)|] == Decimal(length) && text[i + |Decimal(length)|] == SPACE
    ensures FindFrom(text, SPACE, i) == i + |Decimal(length)|
    ensures ParseInt(text[i..i + |Decimal(length)|], 10) == Some(length)
  {
    hide ParseInt, Decimal, Horner;
    var digits := Decimal(length);
    assert forall j | i <= j < i + |digits| :: text[j] == digits[j - i] && digits[j - i] in digits;
    FindFromIs(text, SPACE, i, i + |digits|);
    ParseIntOfDigits(digits, 10);
    DecimalValue(length);
  }

  lemma FieldsReadBack(r: PaxRecord)
    requires ValidRecord(r)
    ensures var eq := FindFrom(Fields(r), EQUALS, 0);
            eq == |r.key| < |Fields(r)| && Fields(r)[..eq] == r.key && Fields(r)[eq + 1..] == r.value
  {
    var rec := Fields(r);
    assert forall j | 0 <= j < |r.key| :: rec[j] == r.key[j] && r.key[j] in r.key;
    FindFromIs(rec, EQUALS, 0, |r.key|);
  }

  lemma RecordReadsBack(before: Bytes, r: PaxRecord, after: Bytes)
    requires ValidRecord(r)
    ensures |before + Render(r) + after| > |before|
    ensures PaxRecordAt(before + Render(r) + after, |before|)
         == if r.key == PATH_KEY then Found(r.value) else Next(|before| + |Render(r)|)
  {
    hide ParseInt, Decimal, FindFrom, RecordLength, Fields, JsSlice, PaxRecordAt;
    var text := before + Render(r) + after;
    var i := |before|;
    var digits := Decimal(RecordLength(r));
    RecordLengthIsTrue(r);
    RecordLayout(before, digits, Fields(r), after);
    assert Render(r) == digits + [SPACE] + Fields(r) + [NEWLINE];
    hide Render;
    LengthReadsBack(text, i, RecordLength(r));
    FieldsReadBack(r);
    PaxRecordIs(text, i, i + |digits|, RecordLength(r), Fields(r), |r.key|);
  }

  lemma PaxRecordIs(text: Bytes, i: nat, sp: nat, length: nat, fields: Bytes, eq: nat)
    requires i < |text| && FindFrom(text, SPACE, i) == sp && i <= sp < |text|
    requires length > 0 && ParseInt(text[i..sp], 10) == Some(length)
    requires JsSlice(text, sp + 1, i + length - 1) == fields && FindFrom(fields, EQUALS, 0) == eq < |fields|
    ensures PaxRecordAt(text, i)
         == if fields[..eq] == PATH_KEY then Found(fields[eq + 1..]) else Next(i + length)
  {
    hide ParseInt, FindFrom, JsSlice;
  }

  /** Where the parts of a record lie. */
  lemma RecordLayout(before: Bytes, digits: Bytes, fields: Bytes, after: Bytes)
    ensures var text := before + (digits + [SPACE] + fields + [NEWLINE]) + after;
            var i, sp := |before|, |before| + |digits|;
            && sp < |text| && text[i..sp] == digits && text[sp] == SPACE
            && JsSlice(text, sp + 1, sp + 1 + |fields|) == fields
  {
    var text := before + (digits + [SPACE] + fields + [NEWLINE]) + after;
    var sp := |before| + |digits|;
    assert text[sp + 1..sp + 1 + |fields|] == fields;
  }

  /** The reader's scan finds the first path in a rendered header, whatever bytes follow the records. */
  lemma {:induction false} PaxReadsBack(before: Bytes, rs: seq<PaxRecord>)
    requires forall r | r in rs :: ValidRecord(r)
    ensures PaxPathFrom(before + RenderAll(rs), |before|) == FirstPath(rs)
    decreases rs
  {
    hide PaxRecordAt, Render;
    if rs == [] {
      assert before + RenderAll(rs) == before;
    } else {
      var r := rs[0];
      var tail := RenderAll(rs[1..]);
      var text := before + RenderAll(rs);
      assert text == before + Render(r) + tail;
      RecordReadsBack(before, r, tail);
      RecordLengthIsTrue(r);
      PaxReadsBack(before + Render(r), rs[1..]);
    }
  }

  // ---------------------------------------------------------------- which path counts

  /** The value of the last record whose keyword is `path`. */
  function LastPath(rs: seq<PaxRecord>): Option<Bytes> {
    if rs == [] then None
    else
      var r := rs[|rs| - 1];
      if r.key == PATH then Some(r.value) else LastPath(rs[..|rs| - 1])
  }

  /** The standard's reading of one header: a later record overrides an earlier one, and an empty value deletes it. */
  function StandardPath(rs: seq<PaxRecord>): Option<Bytes> {
    if LastPath(rs) == Some([]) then None else LastPath(rs)
  }

  /** What the reader makes of the same header: an empty name announces nothing. */
  function PathTaken(rs: seq<PaxRecord>): Option<Bytes> {
    Extend(TYPE_PAX, RenderAll(rs), NOTHING_PENDING).paxPath
  }

  predicate IsFirstPath(rs: seq<PaxRecord>, i: nat) {
    i < |rs| && rs[i].key == PATH && forall k | 0 <= k < i :: rs[k].key != PATH
  }

  predicate IsLastPath(rs: seq<PaxRecord>, i: nat) {
    i < |rs| && rs[i].key == PATH && forall k | i < k < |rs| :: rs[k].key != PATH
  }

  lemma {:induction false} FirstPathIsThere(rs: seq<PaxRecord>) returns (i: nat)
    ensures if exists r | r in rs :: r.key == PATH
            then IsFirstPath(rs, i) && FirstPath(rs) == Some(rs[i].value)
            else FirstPath(rs) == None
  {
    i := 0;
    if rs != [] && rs[0].key != PATH {
      i := FirstPathIsThere(rs[1..]);
      i := i + 1;
    }
  }

  lemma {:induction false} LastPathIsThere(rs: seq<PaxRecord>) returns (i: nat)
    ensures if exists r | r in rs :: r.key == PATH
            then IsLastPath(rs, i) && LastPath(rs) == Some(rs[i].value)
            else LastPath(rs) == None
  {
    i := 0;
    if rs != [] {
      var last := |rs| - 1;
      if rs[last].key == PATH {
        i := last;
      } else {
        i := LastPathIsThere(rs[..last]);
      }
    }
  }

  /** The reader gives the standard's answer exactly when the first and the last `path` carry one value. */
  lemma FirstPathAgreesWithLast(rs: seq<PaxRecord>)
    requires forall r | r in rs :: ValidRecord(r)
    ensures PathTaken(rs) == StandardPath(rs)
       <==> forall i: nat, j: nat | IsFirstPath(rs, i) && IsLastPath(rs, j) :: rs[i].value == rs[j].value
  {
    hide PaxPathFrom, RenderAll;
    PaxReadsBack([], rs);
    assert [] + RenderAll(rs) == RenderAll(rs);
    var i := FirstPathIsThere(rs);
    var j := LastPathIsThere(rs);
  }

  /** The reader takes a name that the standard says is overridden, or deleted. */
  lemma OverriddenPathIsTaken(second: Bytes)
    requires second != [97]
    ensures var rs := [PaxRecord(PATH, [97]), PaxRecord(PATH, second)];
            && PathTaken(rs) == Some([97])
            && StandardPath(rs) == if second == [] then None else Some(second)
  {
    hide PaxPathFrom, RenderAll;
    var rs := [PaxRecord(PATH, [97]), PaxRecord(PATH, second)];
    PaxReadsBack([], rs);
    assert [] + RenderAll(rs) == RenderAll(rs);
  }
}
