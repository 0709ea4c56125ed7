/** Whole archives: extension records, entries, and the round trip through the reader. */
module TarRoundTrip {
  import opened Wrappers
  import opened Bytes
  import opened TarReader
  import opened TarWriter

  /** A record that renames the next entry (or, if global, does not). `title` is its own header name. */
  datatype Extension =
    | LongName(name: Bytes, title: Bytes, unread: Unread)
    | PaxHeader(records: seq<PaxRecord>, title: Bytes, unread: Unread)
    | GlobalHeader(payload: Bytes, title: Bytes, unread: Unread)

  function Payload(x: Extension): Bytes {
    match x
    case LongName(name, _, _) => name + [ZERO]
    case PaxHeader(records, _, _) => RenderAll(records)
    case GlobalHeader(payload, _, _) => payload
  }

  function ExtensionFlag(x: Extension): Byte {
    match x
    case LongName(_, _, _) => TYPE_LONG_NAME
    case PaxHeader(_, _, _) => TYPE_PAX
    case GlobalHeader(_, _, _) => TYPE_PAX_GLOBAL
  }

  ghost predicate ValidExtension(x: Extension) {
    && |x.title| <= 100 && ValidUnread(x.unread) && FitsSizeField(|Payload(x)|)
    && (x.LongName? ==> NulFree(x.name))
    && (x.PaxHeader? ==> forall r | r in x.records :: ValidRecord(r))
  }

  function EncodeExtension(x: Extension): Bytes
    requires |x.title| <= 100
  {
    Block(x.title, ExtensionFlag(x), [], x.unread, Payload(x))
  }

  datatype Body =
    | FileBody(data: Bytes, oldStyle: bool)   // old style: type flag NUL instead of '0'
    | DirectoryBody
    | SpecialBody(flag: Byte, skipped: Bytes) // links, devices, ...; the reader skips any data

  datatype Item = Item(prelude: seq<Extension>, shortName: Bytes, prefix: Bytes, body: Body, unread: Unread)

  function Data(body: Body): Bytes {
    match body
    case FileBody(data, _) => data
    case DirectoryBody => []
    case SpecialBody(_, skipped) => skipped
  }

  function BodyFlag(body: Body): Byte {
    match body
    case FileBody(_, oldStyle) => if oldStyle then TYPE_OLD_FILE else TYPE_FILE
    case DirectoryBody => TYPE_DIRECTORY
    case SpecialBody(flag, _) => flag
  }

  /** The type flags that make no file, directory or name record. */
  predicate IsSpecialType(flag: Byte) {
    flag !in {TYPE_FILE, TYPE_OLD_FILE, TYPE_DIRECTORY, TYPE_LONG_NAME, TYPE_PAX, TYPE_PAX_GLOBAL}
  }

  ghost predicate ValidItem(it: Item) {
    && |it.shortName| <= 100 && |it.prefix| <= 155 && NulFree(it.shortName) && NulFree(it.prefix)
    && ValidUnread(it.unread) && FitsSizeField(|Data(it.body)|)
    && (it.body.SpecialBody? ==> IsSpecialType(it.body.flag))
    && forall x | x in it.prelude :: ValidExtension(x)
  }

  ghost function EncodePrelude(xs: seq<Extension>): Bytes
    requires forall x | x in xs :: ValidExtension(x)
  {
    if xs == [] then []
    else
      assert ValidExtension(xs[0]);
      EncodeExtension(xs[0]) + EncodePrelude(xs[1..])
  }

  ghost function EncodeItem(it: Item): Bytes
    requires ValidItem(it)
  {
    EncodePrelude(it.prelude) + Block(it.shortName, BodyFlag(it.body), it.prefix, it.unread, Data(it.body))
  }

  ghost function EncodeAll(items: seq<Item>): Bytes
    requires forall it | it in items :: ValidItem(it)
  {
    if items == [] then [] else EncodeItem(items[0]) + EncodeAll(items[1..])
  }

  // ---------------------------------------------------------------- what an item is called

  predicate NamesSomething(name: Option<Bytes>) {
    name.Some? && |name.value| > 0
  }

  /** The path of the last PAX header that has a non-empty one. */
  function LastPath(xs: seq<Extension>): (path: Option<Bytes>)
    ensures path.Some? ==> NamesSomething(path)
  {
    if xs == [] then None
    else
      var x := xs[|xs| - 1];
      if x.PaxHeader? && NamesSomething(FirstPath(x.records)) then FirstPath(x.records)
      else LastPath(xs[..|xs| - 1])
  }

  /** The name in the last GNU long-name record. */
  function LastLongName(xs: seq<Extension>): Option<Bytes> {
    if xs == [] then None
    else
      var x := xs[|xs| - 1];
      if x.LongName? then Some(x.name) else LastLongName(xs[..|xs| - 1])
  }

  function NameInHeader(it: Item): Bytes {
    if it.prefix == [] then it.shortName else it.prefix + [SLASH_BYTE] + it.shortName
  }

  /** A PAX path goes before a GNU long name, and either before the name in the header; empty names do not count. */
  function NameOf(it: Item): Bytes {
    if LastPath(it.prelude).Some? then LastPath(it.prelude).value
    else if NamesSomething(LastLongName(it.prelude)) then LastLongName(it.prelude).value
    else NameInHeader(it)
  }

  function EntryFor(it: Item): TarEntry {
    var kind := if it.body.FileBody? then File else if it.body.DirectoryBody? then Directory else Other;
    TarEntry(NameOf(it), kind, |Data(it.body)|, if it.body.FileBody? then it.body.data else [])
  }

  function EntriesFor(items: seq<Item>): seq<TarEntry> {
    if items == [] then [] else [EntryFor(items[0])] + EntriesFor(items[1..])
  }

  // ---------------------------------------------------------------- the reader inverts the writer

  /** Nothing that would rename the next entry is pending. */
  ghost predicate Idle(p: Pending) {
    !NonEmpty(p.longName) && !NonEmpty(p.paxPath)
  }

  function Announce(x: Extension, p: Pending): Pending {
    match x
    case LongName(name, _, _) => p.(longName := Some(name))
    case PaxHeader(records, _, _) => if NamesSomething(FirstPath(records)) then p.(paxPath := FirstPath(records)) else p
    case GlobalHeader(_, _, _) => p
  }

  function AnnounceAll(xs: seq<Extension>, p: Pending): Pending {
    if xs == [] then p else AnnounceAll(xs[1..], Announce(xs[0], p))
  }

  lemma ExtensionReadsBack(x: Extension, p: Pending, more: Bytes)
    requires ValidExtension(x)
    ensures ParseFrom(EncodeExtension(x) + more, p) == ParseFrom(more, Announce(x, p))
  {
    hide ReadRecord, Block, Header, PaxPathFrom, FirstPath, RenderAll, Power, RoundUp512;
    var data := Payload(x);
    HeaderLayout(x.title, |data|, ExtensionFlag(x), [], x.unread);
    BlockReadsBack(x.title, ExtensionFlag(x), [], x.unread, data, more);
    match x
    case LongName(name, _, _) =>
      LongNameReadsBack(name);
    case PaxHeader(records, _, _) =>
      PaxReadsBack([], records);
      assert [] + RenderAll(records) == data;
    case GlobalHeader(_, _, _) =>
  }

  lemma LongNameReadsBack(name: Bytes)
    requires NulFree(name)
    ensures TrimEndNul(name + [ZERO]) == name
  {
    assert (name + [ZERO])[..|name|] == name;
    if name != [] {
      assert name[|name| - 1] in name;
    }
  }

  lemma TitleFits(x: Extension)
    requires ValidExtension(x)
    ensures |x.title| <= 100
  {
  }

  lemma {:induction false} PreludeReadsBack(xs: seq<Extension>, p: Pending, more: Bytes)
    requires forall x | x in xs :: ValidExtension(x)
    ensures ParseFrom(EncodePrelude(xs) + more, p) == ParseFrom(more, AnnounceAll(xs, p))
  {
    hide ParseFrom, EncodeExtension, Announce, ValidExtension;
    if xs == [] {
      assert EncodePrelude(xs) + more == more;
    } else {
      var rest := EncodePrelude(xs[1..]) + more;
      ExtensionReadsBack(xs[0], p, rest);
      TitleFits(xs[0]);
      assert EncodePrelude(xs) + more == EncodeExtension(xs[0]) + rest;
      PreludeReadsBack(xs[1..], Announce(xs[0], p), more);
    }
  }

  /** What the records leave pending, said of the last record of each kind. */
  lemma {:induction false} AnnouncedNames(xs: seq<Extension>, p: Pending)
    ensures var q := AnnounceAll(xs, p);
            && q.longName == (if LastLongName(xs).Some? then LastLongName(xs) else p.longName)
            && q.paxPath == (if LastPath(xs).Some? then LastPath(xs) else p.paxPath)
  {
    hide FirstPath;
    if xs != [] {
      var front := xs[..|xs| - 1];
      AnnouncedNames(front, p);
      AnnounceLast(front, xs[|xs| - 1], p);
      assert front + [xs[|xs| - 1]] == xs;
    }
  }

  lemma {:induction false} AnnounceLast(xs: seq<Extension>, x: Extension, p: Pending)
    ensures AnnounceAll(xs + [x], p) == Announce(x, AnnounceAll(xs, p))
  {
    hide Announce;
    if xs == [] {
      assert (xs + [x])[1..] == [];
    } else {
      assert (xs + [x])[1..] == xs[1..] + [x];
      AnnounceLast(xs[1..], x, Announce(xs[0], p));
    }
  }

  lemma HeaderNameReadsBack(it: Item)
    requires ValidItem(it)
    ensures var h := Header(it.shortName, |Data(it.body)|, BodyFlag(it.body), it.prefix, it.unread);
            |h| == BLOCK && h[156] == BodyFlag(it.body) && HeaderName(h) == NameInHeader(it)
  {
    hide Header, UntilNul, PadNul, SizeField, Power;
    var h := Header(it.shortName, |Data(it.body)|, BodyFlag(it.body), it.prefix, it.unread);
    HeaderLayout(it.shortName, |Data(it.body)|, BodyFlag(it.body), it.prefix, it.unread);
    UntilNulOfPadded(it.shortName, 100);
    UntilNulOfPadded(it.prefix, 155);
    MagicReadsBack(it.unread.magicEnd);
  }

  lemma MagicReadsBack(end: Byte)
    ensures USTAR <= UntilNul(MAGIC + [end])
  {
    var magic := MAGIC + [end];
    if end == NUL {
      FindFromIs(magic, NUL, 0, 5);
    } else {
      assert UntilNul(magic) == magic;
    }
  }

  lemma ItemReadsBack(it: Item, p: Pending, more: Bytes)
    requires ValidItem(it) && Idle(p)
    ensures var q := Consumed(AnnounceAll(it.prelude, p));
            Idle(q) && ParseFrom(EncodeItem(it) + more, p) == Prepend([EntryFor(it)], ParseFrom(more, q))
  {
    hide ReadRecord, Block, Header, HeaderName, Power, EncodePrelude, ValidExtension, AnnounceAll,
         LastPath, LastLongName;
    var q := AnnounceAll(it.prelude, p);
    var data := Data(it.body);
    var block := Block(it.shortName, BodyFlag(it.body), it.prefix, it.unread, data);
    var header := Header(it.shortName, |data|, BodyFlag(it.body), it.prefix, it.unread);
    assert EncodeItem(it) + more == EncodePrelude(it.prelude) + (block + more);
    PreludeReadsBack(it.prelude, p, block + more);
    AnnouncedNames(it.prelude, p);
    HeaderNameReadsBack(it);
    BlockReadsBack(it.shortName, BodyFlag(it.body), it.prefix, it.unread, data, more);
    assert EntryOf(header, data, q) == EntryFor(it);
  }

  /** What may follow the last entry: too few bytes for a block, or a zero block and then anything. */
  ghost predicate IsTrailer(s: Bytes) {
    |s| < BLOCK_SIZE || forall i | 0 <= i < BLOCK_SIZE :: s[i] == ZERO
  }

  function PendingAfter(items: seq<Item>, p: Pending): Pending {
    if items == [] then p else PendingAfter(items[1..], Consumed(AnnounceAll(items[0].prelude, p)))
  }

  lemma {:induction false} ItemsReadBack(items: seq<Item>, p: Pending, more: Bytes)
    requires (forall it | it in items :: ValidItem(it)) && Idle(p)
    ensures Idle(PendingAfter(items, p))
    ensures ParseFrom(EncodeAll(items) + more, p)
         == Prepend(EntriesFor(items), ParseFrom(more, PendingAfter(items, p)))
  {
    hide EncodeItem, ValidItem, EntryFor, AnnounceAll, ParseFrom;
    if items == [] {
      assert EncodeAll(items) + more == more;
      PrependNone(ParseFrom(more, p));
    } else {
      var it := items[0];
      var rest := EncodeAll(items[1..]) + more;
      assert EncodeAll(items) + more == EncodeItem(it) + rest;
      ItemReadsBack(it, p, rest);
      ItemsReadBack(items[1..], Consumed(AnnounceAll(it.prelude, p)), more);
      PrependTwice([EntryFor(it)], EntriesFor(items[1..]), ParseFrom(more, PendingAfter(items, p)));
    }
  }

  /**
   The round trip: any list of files, directories and special entries, each renamed by any mix of GNU and
   PAX records, is read back with its names, kinds, sizes and data, in order and with nothing else.
   */
  lemma ArchiveRoundTrip(items: seq<Item>, trailer: Bytes)
    requires (forall it | it in items :: ValidItem(it)) && IsTrailer(trailer)
    ensures ParseFrom(EncodeAll(items) + trailer, NOTHING_PENDING) == Ok(EntriesFor(items))
  {
    ItemsReadBack(items, NOTHING_PENDING, trailer);
    assert EntriesFor(items) + [] == EntriesFor(items);
  }

  /** The bytes of one item up to and including the first `kept` bytes of its data. */
  ghost function EncodeCut(it: Item, kept: nat): Bytes
    requires ValidItem(it) && kept < |Data(it.body)|
  {
    var data := Data(it.body);
    EncodePrelude(it.prelude)
    + (Header(it.shortName, |data|, BodyFlag(it.body), it.prefix, it.unread) + data[..kept])
  }

  /** An archive that stops inside the data of an entry is refused, whatever came before. */
  lemma CutArchiveIsRefused(items: seq<Item>, it: Item, kept: nat)
    requires (forall i | i in items :: ValidItem(i)) && ValidItem(it) && kept < |Data(it.body)|
    ensures ParseFrom(EncodeAll(items) + EncodeCut(it, kept), NOTHING_PENDING) == Err(Truncated)
  {
    hide ReadRecord, Header, EncodePrelude, ValidExtension, AnnounceAll, EncodeAll, EntriesFor, Power;
    var data := Data(it.body);
    var header := Header(it.shortName, |data|, BodyFlag(it.body), it.prefix, it.unread);
    var p := PendingAfter(items, NOTHING_PENDING);
    ItemsReadBack(items, NOTHING_PENDING, EncodeCut(it, kept));
    PreludeReadsBack(it.prelude, p, header + data[..kept]);
    CutBlockIsTruncated(it.shortName, BodyFlag(it.body), it.prefix, it.unread, data, kept);
  }

  lemma CutBlockIsTruncated(name: Bytes, flag: Byte, prefix: Bytes, u: Unread, data: Bytes, kept: nat)
    requires |name| <= 100 && |prefix| <= 155 && ValidUnread(u) && FitsSizeField(|data|) && kept < |data|
    ensures ReadRecord(Header(name, |data|, flag, prefix, u) + data[..kept]) == Bad(Truncated)
  {
    hide ParseOctal, Header, SizeField, Power, UntilNul, RoundUp512, PadNul;
    var header := Header(name, |data|, flag, prefix, u);
    HeaderLayout(name, |data|, flag, prefix, u);
    SizeFieldReadsBack(|data|, u);
    var rest := header + data[..kept];
    assert rest[..BLOCK] == header;
    assert header[257] == header[257..263][0] == 117 && header[257] in header;
    assert ReadString(rest[..BLOCK], 124, 12) == UntilNul(SizeField(|data|, u));
  }

  // ---------------------------------------------------------------- the usual ways to write a name

  datatype Naming = Plain | Split(at: nat) | Gnu | Pax(before: seq<PaxRecord>, after: seq<PaxRecord>)

  function PathRecord(name: Bytes): PaxRecord {
    PaxRecord(PATH, name)
  }

  ghost predicate CanName(how: Naming, name: Bytes) {
    match how
    case Plain => |name| <= 100
    case Split(at) => 0 < at < |name| && name[at] == SLASH_BYTE && at <= 155 && |name| - at - 1 <= 100
    case Gnu => name != [] && FitsSizeField(|name| + 1)
    case Pax(before, after) =>
      && name != []
      && FitsSizeField(|RenderAll(before + [PathRecord(name)] + after)|)
      && (forall r | r in before :: ValidRecord(r) && r.key != PATH)
      && (forall r | r in after :: ValidRecord(r))
  }

  /** One entry called `name`, written in one of the four ways; GNU and PAX cut the header name short. */
  function Named(how: Naming, name: Bytes, body: Body, u: Unread): Item
    requires how.Split? ==> how.at < |name|
  {
    var cut := if |name| <= 100 then name else name[..100];
    match how
    case Plain => Item([], cut, [], body, u)
    case Split(at) => Item([], name[at + 1..], name[..at], body, u)
    case Gnu => Item([LongName(name, [], u)], cut, [], body, u)
    case Pax(before, after) => Item([PaxHeader(before + [PathRecord(name)] + after, [], u)], cut, [], body, u)
  }

  ghost predicate CanWrite(name: Bytes, body: Body, u: Unread) {
    && NulFree(name) && ValidUnread(u) && FitsSizeField(|Data(body)|)
    && (body.SpecialBody? ==> IsSpecialType(body.flag))
  }

  lemma NamedIsValid(how: Naming, name: Bytes, body: Body, u: Unread)
    requires CanName(how, name) && CanWrite(name, body, u)
    ensures ValidItem(Named(how, name, body, u))
  {
    hide Power, RenderAll, IsSpecialType, Data;
    var it := Named(how, name, body, u);
    assert forall b | b in it.shortName || b in it.prefix :: b in name;
    if how.Gnu? {
      assert |Payload(it.prelude[0])| == |name| + 1;
    }
  }

  lemma NamedKeepsTheName(how: Naming, name: Bytes, body: Body, u: Unread)
    requires CanName(how, name)
    ensures NameOf(Named(how, name, body, u)) == name
  {
    hide Power, RenderAll, ValidRecord, FirstPath;
    var xs := Named(how, name, body, u).prelude;
    match how
    case Plain =>
    case Split(at) =>
      assert name[..at] + [SLASH_BYTE] + name[at + 1..] == name;
    case Gnu =>
      assert LastPath(xs) == LastPath(xs[..0]) == None;
    case Pax(before, after) =>
      FirstPathIs(before, name, after);
  }

  /** Each of the four ways gives a well-formed item that is called `name`. */
  lemma EveryNamingReadsBack(how: Naming, name: Bytes, body: Body, u: Unread)
    requires CanName(how, name) && CanWrite(name, body, u)
    ensures ValidItem(Named(how, name, body, u)) && NameOf(Named(how, name, body, u)) == name
  {
    NamedIsValid(how, name, body, u);
    NamedKeepsTheName(how, name, body, u);
  }

  lemma {:induction false} FirstPathIs(before: seq<PaxRecord>, name: Bytes, after: seq<PaxRecord>)
    requires forall r | r in before :: r.key != PATH
    ensures FirstPath(before + [PathRecord(name)] + after) == Some(name)
  {
    var rs := before + [PathRecord(name)] + after;
    if before == [] {
      assert rs[0] == PathRecord(name);
    } else {
      assert rs[1..] == before[1..] + [PathRecord(name)] + after;
      FirstPathIs(before[1..], name, after);
    }
  }
}
