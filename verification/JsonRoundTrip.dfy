/** Canonical text says exactly as much as the value, up to the order of object keys. */
module JsonRoundTrip {
  import Sorting
  import opened CanonicalJson

  // ---------------------------------------------------------------- canonical values

  /** The value with the members of every object in key order. */
  function Canon(v: Json): Json
    decreases v, 1
  {
    match v
    case Array(items) => Array(CanonItems(items))
    case Object(members) => Object(CanonMembers(members, SortKeys(Keys(members))))
    case _ => v
  }

  function CanonItems(items: seq<Json>): (cs: seq<Json>)
    ensures |cs| == |items|
    decreases items, 0
  {
    if items == [] then [] else [Canon(items[0])] + CanonItems(items[1..])
  }

  function CanonMembers(ms: seq<Member>, ks: seq<Text>): (cs: seq<Member>)
    ensures |cs| == |ks|
    decreases ms, 0, |ks|
  {
    if ks == [] then []
    else
      var i := IndexOfKey(ms, ks[0]);
      [Member(ks[0], if i < |ms| then Canon(ms[i].value) else Null)] + CanonMembers(ms, ks[1..])
  }

  ghost predicate AllValid(vs: seq<Json>) {
    forall i | 0 <= i < |vs| :: Valid(vs[i])
  }

  ghost predicate AllValidMembers(ms: seq<Member>) {
    forall i | 0 <= i < |ms| :: Valid(ms[i].value)
  }

  ghost predicate KeysOf(ms: seq<Member>, ks: seq<Text>) {
    forall i | 0 <= i < |ks| :: ks[i] in Keys(ms)
  }

  // ---------------------------------------------------------------- reading back values

  /** The text that follows cannot be taken for more of a numeral. */
  ghost predicate Ends(rest: Text) {
    rest == [] || !IsNumeralUnit(rest[0])
  }

  lemma {:induction false} NumeralReadsBack(n: Text, rest: Text)
    requires Ends(rest) && forall u | u in n :: IsNumeralUnit(u)
    ensures NumeralPrefix(n + rest) == n
  {
    if n == [] {
      assert n + rest == rest;
    } else {
      assert n[0] in n && (n + rest)[1..] == n[1..] + rest;
      NumeralReadsBack(n[1..], rest);
      assert [n[0]] + n[1..] == n;
    }
  }

  lemma LiteralReadsBack(v: Json, rest: Text)
    requires Valid(v) && Ends(rest) && (v.Null? || v.Bool? || v.Number?)
    ensures ReadValue(Stringify(v) + rest) == Done(v, rest)
  {
    var t := Stringify(v) + rest;
    match v
    case Null =>
      assert t[4..] == rest;
    case Bool(b) =>
      if b {
        assert t[0] == 116 && t[4..] == rest;
      } else {
        assert t[0] == 102 && t[5..] == rest;
      }
    case Number(n) =>
      assert n[0] in n && IsNumeralUnit(n[0]);
      NumeralReadsBack(n, rest);
      assert t[|n|..] == rest && t[0] == n[0];
  }

  lemma QuotedReadsBack(s: Text, rest: Text)
    ensures var t := Quoted(s) + rest; t[0] == QUOTE && ReadChars(t[1..]) == Done(s, rest)
  {
    hide ReadChars, Escape;
    CharsReadBack(s, rest);
    assert (Quoted(s) + rest)[1..] == Escape(s) + [QUOTE] + rest;
  }

  lemma {:induction false} ValueReadsBack(v: Json, rest: Text)
    requires Valid(v) && Ends(rest)
    ensures ReadValue(Stringify(v) + rest) == Done(Canon(v), rest)
    decreases v, 2
  {
    hide ReadValue, Stringify;
    match v
    case String(s) => StringReadsBack(s, rest);
    case Array(items) => ArrayReadsBack(items, rest);
    case Object(members) => ObjectReadsBack(members, rest);
    case _ => LiteralReadsBack(v, rest);
  }

  lemma StringReadsBack(s: Text, rest: Text)
    ensures ReadValue(Stringify(String(s)) + rest) == Done(String(s), rest)
  {
    hide ReadChars, Quoted;
    QuotedReadsBack(s, rest);
  }

  lemma OpenerReads(t: Text)
    requires |t| > 1 && (t[0] == OPEN_BRACKET || t[0] == OPEN_BRACE)
    ensures t[0] == OPEN_BRACKET && t[1] == CLOSE_BRACKET ==> ReadValue(t) == Done(Array([]), t[2..])
    ensures t[0] == OPEN_BRACKET && t[1] != CLOSE_BRACKET && ReadItems(t[1..]).Done? ==>
              ReadValue(t) == Done(Array(ReadItems(t[1..]).value), ReadItems(t[1..]).rest)
    ensures t[0] == OPEN_BRACE && t[1] == CLOSE_BRACE ==> ReadValue(t) == Done(Object([]), t[2..])
    ensures t[0] == OPEN_BRACE && t[1] != CLOSE_BRACE && ReadMembers(t[1..]).Done? ==>
              ReadValue(t) == Done(Object(ReadMembers(t[1..]).value), ReadMembers(t[1..]).rest)
  {
    hide ReadItems, ReadMembers, ReadChars, NumeralPrefix;
  }

  lemma {:induction false} ArrayReadsBack(items: seq<Json>, rest: Text)
    requires AllValid(items) && Ends(rest)
    ensures ReadValue(Stringify(Array(items)) + rest) == Done(Array(CanonItems(items)), rest)
    decreases items, 1
  {
    hide Canon, ReadValue, ReadItems, StringifyItems, CanonItems;
    var t := Stringify(Array(items)) + rest;
    assert t == [OPEN_BRACKET] + (StringifyItems(items) + [CLOSE_BRACKET] + rest);
    assert t[1..] == StringifyItems(items) + [CLOSE_BRACKET] + rest;
    OpenerReads(t);
    FirstOfItems(items);
    if items == [] {
      assert t[2..] == rest;
    } else {
      ItemsReadBack(items, rest);
    }
  }

  lemma FirstOfItems(items: seq<Json>)
    requires AllValid(items)
    ensures items == [] ==> StringifyItems(items) == [] && CanonItems(items) == []
    ensures items != [] ==> StringifyItems(items) != [] && StringifyItems(items)[0] != CLOSE_BRACKET
  {
    hide Canon, Escape;
    if items != [] {
      assert Stringify(items[0]) != [] && StringifyItems(items)[0] == Stringify(items[0])[0];
    }
  }

  lemma {:induction false} ObjectReadsBack(ms: seq<Member>, rest: Text)
    requires DistinctKeys(ms) && AllValidMembers(ms) && Ends(rest)
    ensures ReadValue(Stringify(Object(ms)) + rest)
         == Done(Object(CanonMembers(ms, SortKeys(Keys(ms)))), rest)
    decreases ms, 1
  {
    hide Canon, Quoted, SortKeys, Keys, ReadValue, ReadMembers, StringifyKeys, CanonMembers, DistinctKeys;
    var t := Stringify(Object(ms)) + rest;
    var ks := SortKeys(Keys(ms));
    assert t == [OPEN_BRACE] + (StringifyKeys(ms, ks) + [CLOSE_BRACE] + rest);
    assert t[1..] == StringifyKeys(ms, ks) + [CLOSE_BRACE] + rest;
    OpenerReads(t);
    KeysSurviveSorting(ms);
    FirstOfMembers(ms, ks);
    if ks == [] {
      assert t[2..] == rest;
    } else {
      MembersReadBack(ms, ks, rest);
    }
  }

  lemma FirstOfMembers(ms: seq<Member>, ks: seq<Text>)
    ensures ks == [] ==> StringifyKeys(ms, ks) == [] && CanonMembers(ms, ks) == []
    ensures ks != [] ==> StringifyKeys(ms, ks) != [] && StringifyKeys(ms, ks)[0] == QUOTE
  {
    hide Stringify, Canon, Escape;
    if ks != [] {
      assert StringifyKeys(ms, ks)[0] == Quoted(ks[0])[0];
    }
  }

  lemma KeysSurviveSorting(ms: seq<Member>)
    requires DistinctKeys(ms)
    ensures KeysOf(ms, SortKeys(Keys(ms))) && |SortKeys(Keys(ms))| == |ms|
  {
    var ks := SortKeys(Keys(ms));
    forall i | 0 <= i < |ks| ensures ks[i] in Keys(ms) {
      assert ks[i] in multiset(ks);
    }
  }

  lemma {:induction false} ItemsReadBack(items: seq<Json>, rest: Text)
    requires items != [] && AllValid(items)
    ensures ReadItems(StringifyItems(items) + [CLOSE_BRACKET] + rest) == Done(CanonItems(items), rest)
    decreases items, 0
  {
    hide ReadValue, Stringify, Canon;
    var v := items[0];
    var close := [CLOSE_BRACKET] + rest;
    if |items| == 1 {
      assert StringifyItems(items) == Stringify(v);
      assert StringifyItems(items) + [CLOSE_BRACKET] + rest == Stringify(v) + close;
      ValueReadsBack(v, close);
      assert close[1..] == rest;
      assert ReadItems(Stringify(v) + close) == Done([Canon(v)], rest);
      assert CanonItems(items[1..]) == [];
      assert CanonItems(items) == [Canon(v)];
    } else {
      var more := StringifyItems(items[1..]) + [CLOSE_BRACKET] + rest;
      assert StringifyItems(items) + [CLOSE_BRACKET] + rest == Stringify(v) + ([COMMA] + more);
      ValueReadsBack(v, [COMMA] + more);
      assert ([COMMA] + more)[1..] == more;
      ItemsReadBack(items[1..], rest);
    }
  }

  lemma {:induction false} FieldReadsBack(ms: seq<Member>, i: nat, k: Text, rest: Text)
    requires i < |ms| && Valid(ms[i].value) && Ends(rest)
    ensures ReadField(Quoted(k) + [COLON] + Stringify(ms[i].value) + rest)
         == Done(Member(k, Canon(ms[i].value)), rest)
    decreases ms, 0, 0
  {
    hide ReadValue, ReadChars, Stringify, Canon, Quoted;
    var v := ms[i].value;
    var colon := [COLON] + Stringify(v) + rest;
    assert Quoted(k) + [COLON] + Stringify(v) + rest == Quoted(k) + colon;
    QuotedReadsBack(k, colon);
    assert colon[1..] == Stringify(v) + rest;
    ValueReadsBack(v, rest);
  }

  lemma {:induction false} MembersReadBack(ms: seq<Member>, ks: seq<Text>, rest: Text)
    requires ks != [] && AllValidMembers(ms) && KeysOf(ms, ks)
    ensures ReadMembers(StringifyKeys(ms, ks) + [CLOSE_BRACE] + rest) == Done(CanonMembers(ms, ks), rest)
    decreases ms, 0, |ks|
  {
    hide ReadField, Stringify, Canon, Quoted;
    var i := IndexOfKey(ms, ks[0]);
    assert ks[0] in Keys(ms);
    var field := Quoted(ks[0]) + [COLON] + Stringify(ms[i].value);
    var close := [CLOSE_BRACE] + rest;
    if |ks| == 1 {
      assert StringifyKeys(ms, ks) == field;
      assert StringifyKeys(ms, ks) + [CLOSE_BRACE] + rest == field + close;
      FieldReadsBack(ms, i, ks[0], close);
      assert CanonMembers(ms, ks) == [Member(ks[0], Canon(ms[i].value))];
      assert close[1..] == rest && CanonMembers(ms, ks[1..]) == [];
    } else {
      var more := StringifyKeys(ms, ks[1..]) + [CLOSE_BRACE] + rest;
      assert StringifyKeys(ms, ks) + [CLOSE_BRACE] + rest == field + ([COMMA] + more);
      FieldReadsBack(ms, i, ks[0], [COMMA] + more);
      assert ([COMMA] + more)[1..] == more;
      MembersReadBack(ms, ks[1..], rest);
    }
  }

  /** Reading canonical text gives back the value in canonical form, and uses up the text. */
  lemma CanonicalTextReadsBack(v: Json)
    requires Valid(v)
    ensures ReadValue(Stringify(v)) == Done(Canon(v), [])
  {
    ValueReadsBack(v, []);
    assert Stringify(v) + [] == Stringify(v);
  }

  // ---------------------------------------------------------------- equality up to key order

  /** Equal, but for the order in which objects list their members. */
  ghost predicate Same(v: Json, w: Json)
    decreases v
  {
    match (v, w)
    case (Array(xs), Array(ys)) => |xs| == |ys| && forall i | 0 <= i < |xs| :: Same(xs[i], ys[i])
    case (Object(ms), Object(ns)) =>
      && |ms| == |ns|
      && forall i | 0 <= i < |ms| ::
           var j := IndexOfKey(ns, ms[i].key);
           j < |ns| && Same(ms[i].value, ns[j].value)
    case _ => v == w
  }

  lemma OwnIndex(ms: seq<Member>, i: nat)
    requires i < |ms| && DistinctKeys(ms)
    ensures IndexOfKey(ms, ms[i].key) == i
  {
    var j := IndexOfKey(ms, ms[i].key);
    assert Keys(ms)[i] == ms[i].key;
  }

  ghost predicate Distinct(ks: seq<Text>) {
    forall i, j | 0 <= i < j < |ks| :: ks[i] != ks[j]
  }

  ghost predicate SameFields(ms: seq<Member>, ns: seq<Member>) {
    forall i | 0 <= i < |ms| ::
      var j := IndexOfKey(ns, ms[i].key);
      j < |ns| && Same(ms[i].value, ns[j].value)
  }

  // Same values, same text.

  lemma WithoutOne(ks: seq<Text>, j: nat)
    requires Distinct(ks) && j < |ks|
    ensures var rest := ks[..j] + ks[j + 1..];
            && Distinct(rest) && multiset(ks) == multiset{ks[j]} + multiset(rest)
            && forall k | k in ks && k != ks[j] :: k in rest
  {
    assert ks == ks[..j] + [ks[j]] + ks[j + 1..];
  }

  lemma {:induction false} SameKeysSameMultiset(a: seq<Text>, b: seq<Text>)
    requires Distinct(a) && Distinct(b) && |a| == |b| && forall k | k in a :: k in b
    ensures multiset(a) == multiset(b)
  {
    if a != [] {
      assert a[0] in b;
      var j :| 0 <= j < |b| && b[j] == a[0];
      WithoutOne(b, j);
      assert a == [a[0]] + a[1..];
      SameKeysSameMultiset(a[1..], b[..j] + b[j + 1..]);
    }
  }

  lemma SameSortedKeys(ms: seq<Member>, ns: seq<Member>)
    requires DistinctKeys(ms) && DistinctKeys(ns) && |ms| == |ns|
    requires forall i | 0 <= i < |ms| :: IndexOfKey(ns, ms[i].key) < |ns|
    ensures SortKeys(Keys(ms)) == SortKeys(Keys(ns))
  {
    forall k | k in Keys(ms) ensures k in Keys(ns) {
      var i :| 0 <= i < |ms| && ms[i].key == k;
      assert Keys(ns)[IndexOfKey(ns, k)] == k;
    }
    SameKeysSameMultiset(Keys(ms), Keys(ns));
    Sorting.SortIsCanonical(UnitCode, Keys(ms), Keys(ns));
  }

  lemma {:induction false} SameGivesSameText(v: Json, w: Json)
    requires Valid(v) && Valid(w) && Same(v, w)
    ensures Stringify(v) == Stringify(w)
    decreases v, 1
  {
    hide SortKeys, Keys;
    match (v, w)
    case (Array(xs), Array(ys)) =>
      SameItems(xs, ys);
    case (Object(ms), Object(ns)) =>
      SameSortedKeys(ms, ns);
      KeysSurviveSorting(ms);
      SameMembers(ms, ns, SortKeys(Keys(ms)));
    case _ =>
  }

  lemma {:induction false} SameItems(xs: seq<Json>, ys: seq<Json>)
    requires AllValid(xs) && AllValid(ys) && |xs| == |ys| && forall i | 0 <= i < |xs| :: Same(xs[i], ys[i])
    ensures StringifyItems(xs) == StringifyItems(ys)
    decreases xs, 0
  {
    hide Stringify, Same, Valid;
    if xs != [] {
      SameGivesSameText(xs[0], ys[0]);
      SameItems(xs[1..], ys[1..]);
    }
  }

  lemma {:induction false} SameMembers(ms: seq<Member>, ns: seq<Member>, ks: seq<Text>)
    requires AllValidMembers(ms) && AllValidMembers(ns) && KeysOf(ms, ks) && SameFields(ms, ns)
    ensures StringifyKeys(ms, ks) == StringifyKeys(ns, ks)
    decreases ms, 0, |ks|
  {
    hide Stringify, Same, Valid, Quoted;
    if ks != [] {
      assert ks[0] in Keys(ms);
      var i := IndexOfKey(ms, ks[0]);
      SameGivesSameText(ms[i].value, ns[IndexOfKey(ns, ms[i].key)].value);
      SameMembers(ms, ns, ks[1..]);
    }
  }

  // Same canonical form, same value.

  lemma {:induction false} CanonItemsAt(items: seq<Json>, i: nat)
    requires i < |items|
    ensures CanonItems(items)[i] == Canon(items[i])
  {
    if i > 0 { CanonItemsAt(items[1..], i - 1); }
  }

  lemma {:induction false} CanonMembersAt(ms: seq<Member>, ks: seq<Text>, p: nat)
    requires p < |ks|
    ensures CanonMembers(ms, ks)[p].key == ks[p]
    ensures var i := IndexOfKey(ms, ks[p]); i < |ms| ==> CanonMembers(ms, ks)[p].value == Canon(ms[i].value)
    decreases |ks|
  {
    if p > 0 { CanonMembersAt(ms, ks[1..], p - 1); }
  }

  lemma {:induction false} SameCanonSameValue(v: Json, w: Json)
    requires Valid(v) && Valid(w) && Canon(v) == Canon(w)
    ensures Same(v, w)
    decreases v
  {
    match (v, w)
    case (Array(xs), Array(ys)) =>
      forall i | 0 <= i < |xs| ensures Same(xs[i], ys[i]) {
        CanonItemsAt(xs, i);
        CanonItemsAt(ys, i);
        SameCanonSameValue(xs[i], ys[i]);
      }
    case (Object(ms), Object(ns)) =>
      KeysSurviveSorting(ms);
      KeysSurviveSorting(ns);
      forall i | 0 <= i < |ms|
        ensures var j := IndexOfKey(ns, ms[i].key); j < |ns| && Same(ms[i].value, ns[j].value)
      {
        var j := SameField(ms, ns, i);
        SameCanonSameValue(ms[i].value, ns[j].value);
      }
    case _ =>
  }

  lemma SameField(ms: seq<Member>, ns: seq<Member>, i: nat) returns (j: nat)
    requires DistinctKeys(ms) && DistinctKeys(ns) && i < |ms|
    requires CanonMembers(ms, SortKeys(Keys(ms))) == CanonMembers(ns, SortKeys(Keys(ns)))
    ensures j == IndexOfKey(ns, ms[i].key) < |ns| && Canon(ms[i].value) == Canon(ns[j].value)
  {
    hide Canon, SortKeys;
    var ks, ls := SortKeys(Keys(ms)), SortKeys(Keys(ns));
    KeysSurviveSorting(ns);
    var k := ms[i].key;
    assert Keys(ms)[i] == k && k in multiset(ks);
    var p :| 0 <= p < |ks| && ks[p] == k;
    CanonMembersAt(ms, ks, p);
    CanonMembersAt(ns, ls, p);
    assert ls[p] == k && ls[p] in Keys(ns);
    j := IndexOfKey(ns, k);
    OwnIndex(ms, i);
  }

  /** Two values have the same canonical text exactly when they are equal up to the order of object keys. */
  lemma CanonicalTextSeparatesValues(v: Json, w: Json)
    requires Valid(v) && Valid(w)
    ensures Stringify(v) == Stringify(w) <==> Same(v, w)
  {
    if Stringify(v) == Stringify(w) {
      CanonicalTextReadsBack(v);
      CanonicalTextReadsBack(w);
      SameCanonSameValue(v, w);
    }
    if Same(v, w) {
      SameGivesSameText(v, w);
    }
  }

  // ---------------------------------------------------------------- stableJson

  function InsertMember(m: Member, ms: seq<Member>): seq<Member> {
    if ms == [] || !Sorting.Before(UnitCode, ms[0].key, m.key) then [m] + ms else [ms[0]] + InsertMember(m, ms[1..])
  }

  /** `Object.entries(value).sort(...)`: the entries travel with their keys. */
  function SortMembers(ms: seq<Member>): seq<Member> {
    if ms == [] then [] else InsertMember(ms[0], SortMembers(ms[1..]))
  }

  function StableJson(v: Json): Text
    decreases v, 1
  {
    match v
    case Null => NULL_TEXT
    case Array(items) => [OPEN_BRACKET] + StableItems(items) + [CLOSE_BRACKET]
    case Object(members) =>
      MembersSurviveSorting(members);
      [OPEN_BRACE] + StableFields(members, SortMembers(members)) + [CLOSE_BRACE]
    case Bool(b) => if b then TRUE_TEXT else FALSE_TEXT
    case Number(numeral) => numeral
    case String(s) => Quoted(s)
  }

  function StableItems(items: seq<Json>): Text
    decreases items, 0
  {
    if items == [] then []
    else if |items| == 1 then StableJson(items[0])
    else StableJson(items[0]) + [COMMA] + StableItems(items[1..])
  }

  /** Prints `es`, a rearrangement of the members `of` the object. */
  function StableFields(ghost of: seq<Member>, es: seq<Member>): Text
    requires forall e | e in es :: e in of
    decreases of, 0, |es|
  {
    if es == [] then []
    else
      assert es[0] in of;
      var field := Quoted(es[0].key) + [COLON] + StableJson(es[0].value);
      if |es| == 1 then field else field + [COMMA] + StableFields(of, es[1..])
  }

  lemma {:induction false} InsertMemberKeeps(m: Member, ms: seq<Member>)
    ensures forall e | e in InsertMember(m, ms) :: e == m || e in ms
    ensures Keys(InsertMember(m, ms)) == Sorting.Insert(UnitCode, m.key, Keys(ms))
  {
    hide Sorting.Before, Keys;
    if ms == [] {
      KeysOneMore(m, ms);
    } else {
      InsertMemberKeeps(m, ms[1..]);
      assert ms == [ms[0]] + ms[1..];
      KeysOneMore(ms[0], ms[1..]);
      KeysOneMore(m, ms);
      KeysOneMore(ms[0], InsertMember(m, ms[1..]));
    }
  }

  lemma KeysOneMore(m: Member, ms: seq<Member>)
    ensures Keys([m] + ms) == [m.key] + Keys(ms)
  {
  }

  lemma {:induction false} MembersSurviveSorting(ms: seq<Member>)
    ensures forall e | e in SortMembers(ms) :: e in ms
    ensures Keys(SortMembers(ms)) == SortKeys(Keys(ms))
  {
    if ms != [] {
      MembersSurviveSorting(ms[1..]);
      InsertMemberKeeps(ms[0], SortMembers(ms[1..]));
      assert Keys(ms) == [ms[0].key] + Keys(ms[1..]);
      assert forall e | e in ms[1..] :: e in ms;
    }
  }

  /** The seed script's serializer, which sorts entries, prints the same text as the cache's, which sorts keys. */
  lemma {:induction false} StableJsonAgrees(v: Json)
    requires Valid(v)
    ensures StableJson(v) == Stringify(v)
    decreases v, 1
  {
    hide SortKeys, SortMembers, Keys;
    match v
    case Array(items) =>
      StableItemsAgree(items);
    case Object(members) =>
      MembersSurviveSorting(members);
      StableFieldsAgree(members, SortMembers(members));
    case _ =>
  }

  lemma {:induction false} StableItemsAgree(items: seq<Json>)
    requires AllValid(items)
    ensures StableItems(items) == StringifyItems(items)
    decreases items, 0
  {
    hide Valid, Stringify, StableJson;
    if items != [] {
      StableJsonAgrees(items[0]);
      StableItemsAgree(items[1..]);
    }
  }

  lemma {:induction false} StableFieldsAgree(ms: seq<Member>, es: seq<Member>)
    requires DistinctKeys(ms) && AllValidMembers(ms) && forall e | e in es :: e in ms
    ensures StableFields(ms, es) == StringifyKeys(ms, Keys(es))
    decreases ms, 0, |es|
  {
    hide Valid, Stringify, StableJson, Quoted;
    if es != [] {
      assert es[0] in ms;
      var i :| 0 <= i < |ms| && ms[i] == es[0];
      OwnIndex(ms, i);
      StableJsonAgrees(ms[i].value);
      assert Keys(es)[1..] == Keys(es[1..]);
      StableFieldsAgree(ms, es[1..]);
    }
  }

  /** The members of a canonical object are those of the value, by ascending keys. */
  lemma CanonicalKeysAscend(members: seq<Member>)
    ensures var canon := Canon(Object(members)).members;
            && multiset(Keys(canon)) == multiset(Keys(members))
            && forall i, j | 0 <= i < j < |canon| :: !Sorting.Precedes(UnitCode, canon[j].key, canon[i].key)
  {
    hide Sorting.Precedes, Sorting.Sort;
    var ks := SortKeys(Keys(members));
    Sorting.SortAscends(UnitCode, Keys(members));
    CanonKeys(members, ks);
  }

  lemma {:induction false} CanonKeys(ms: seq<Member>, ks: seq<Text>)
    ensures Keys(CanonMembers(ms, ks)) == ks
  {
    if ks != [] {
      CanonKeys(ms, ks[1..]);
      assert CanonMembers(ms, ks)[1..] == CanonMembers(ms, ks[1..]);
      assert forall k | 0 < k < |ks| :: CanonMembers(ms, ks)[k].key == Keys(CanonMembers(ms, ks[1..]))[k - 1];
    }
  }
}
