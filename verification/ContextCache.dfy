/** The TTL and FIFO cache of `packages/ai/src/context-cache.ts`. */
module ContextCache {
  import opened Wrappers

  type Millis = real

  datatype Slot<V> = Slot(key: string, value: V, expiresAt: Millis)

  /** A JavaScript `Map`: the slots in insertion order. */
  type Slots<V> = seq<Slot<V>>

  datatype Config = Config(ttlMs: Millis, maxEntries: int)

  // ---------------------------------------------------------------- Map

  /** The index of `key`, or the size when absent. */
  function IndexOf<V>(slots: Slots<V>, key: string): (i: nat)
    ensures i <= |slots|
    ensures i < |slots| ==> slots[i].key == key
    ensures forall j | 0 <= j < i :: slots[j].key != key
  {
    if slots == [] || slots[0].key == key then 0 else 1 + IndexOf(slots[1..], key)
  }

  predicate Has<V>(slots: Slots<V>, key: string) {
    IndexOf(slots, key) < |slots|
  }

  function RemoveAt<V>(slots: Slots<V>, i: nat): Slots<V>
    requires i < |slots|
  {
    slots[..i] + slots[i + 1..]
  }

  /** `Map.delete`. */
  function Delete<V>(slots: Slots<V>, key: string): Slots<V> {
    var i := IndexOf(slots, key);
    if i < |slots| then RemoveAt(slots, i) else slots
  }

  // ---------------------------------------------------------------- the cache operations

  function Get<V>(slots: Slots<V>, now: Millis, key: string): (Option<V>, Slots<V>) {
    var i := IndexOf(slots, key);
    if i == |slots| then (None, slots)
    else if slots[i].expiresAt <= now then (None, Delete(slots, key))
    else (Some(slots[i].value), slots)
  }

  function Set<V>(cfg: Config, slots: Slots<V>, now: Millis, key: string, value: V): Slots<V> {
    var room := if Has(slots, key) then Delete(slots, key)
                else if |slots| >= cfg.maxEntries && slots != [] then slots[1..]
                else slots;
    room + [Slot(key, value, now + cfg.ttlMs)]
  }

  class InMemoryMentorContextCache<V> {
    const cfg: Config
    var entries: Slots<V>

    constructor (cfg: Config)
      ensures this.cfg == cfg && entries == []
    {
      this.cfg := cfg;
      entries := [];
    }

    method Lookup(now: Millis, key: string) returns (hit: Option<V>)
      modifies this
      ensures (hit, entries) == Get(old(entries), now, key)
    {
      var i := IndexOf(entries, key);
      if i == |entries| {
        return None;
      }
      var entry := entries[i];
      if entry.expiresAt <= now {
        entries := Delete(entries, key);
        return None;
      }
      hit := Some(entry.value);
    }

    method Store(now: Millis, key: string, value: V)
      modifies this
      ensures entries == Set(cfg, old(entries), now, key, value)
    {
      if Has(entries, key) {
        entries := Delete(entries, key);
      } else if |entries| >= cfg.maxEntries {
        if entries != [] {
          entries := entries[1..];
        }
      }
      entries := entries + [Slot(key, value, now + cfg.ttlMs)];
    }

    method Remove(key: string)
      modifies this
      ensures entries == Delete(old(entries), key)
    {
      entries := Delete(entries, key);
    }

    method Clear()
      modifies this
      ensures entries == []
    {
      entries := [];
    }
  }

  // ---------------------------------------------------------------- runs

  datatype Op<V> =
    | GetOp(at: Millis, key: string)
    | SetOp(at: Millis, key: string, value: V)
    | DeleteOp(at: Millis, key: string)
    | ClearOp(at: Millis)

  function Apply<V>(cfg: Config, slots: Slots<V>, op: Op<V>): Slots<V> {
    match op
    case GetOp(at, key) => Get(slots, at, key).1
    case SetOp(at, key, value) => Set(cfg, slots, at, key, value)
    case DeleteOp(_, key) => Delete(slots, key)
    case ClearOp(_) => []
  }

  function Play<V>(cfg: Config, ops: seq<Op<V>>): Slots<V> {
    if ops == [] then [] else Apply(cfg, Play(cfg, ops[..|ops| - 1]), ops[|ops| - 1])
  }

  ghost predicate InOrder<V>(ops: seq<Op<V>>) {
    forall i, j | 0 <= i < j < |ops| :: ops[i].at <= ops[j].at
  }

  /** The latest write of `key` that no delete or clear has undone. */
  function LastWrite<V>(ops: seq<Op<V>>, key: string): Option<Op<V>> {
    if ops == [] then None
    else
      var op := ops[|ops| - 1];
      match op
      case SetOp(_, k, _) => if k == key then Some(op) else LastWrite(ops[..|ops| - 1], key)
      case DeleteOp(_, k) => if k == key then None else LastWrite(ops[..|ops| - 1], key)
      case ClearOp(_) => None
      case GetOp(_, _) => LastWrite(ops[..|ops| - 1], key)
  }

  /** The distinct other keys written since `key` last was. */
  function OthersSince<V>(ops: seq<Op<V>>, key: string): set<string> {
    if ops == [] then {}
    else
      var op := ops[|ops| - 1];
      if op.SetOp? && op.key == key then {}
      else OthersSince(ops[..|ops| - 1], key) + if op.SetOp? then {op.key} else {}
  }

  // ---------------------------------------------------------------- size and order

  ghost predicate DistinctKeys<V>(slots: Slots<V>) {
    forall i, j | 0 <= i < j < |slots| :: slots[i].key != slots[j].key
  }

  ghost predicate ExpiryOrder<V>(slots: Slots<V>, latest: Millis) {
    && (forall i, j | 0 <= i < j < |slots| :: slots[i].expiresAt <= slots[j].expiresAt)
    && (forall i | 0 <= i < |slots| :: slots[i].expiresAt <= latest)
  }

  function MaxSize(cfg: Config): int {
    if cfg.maxEntries > 1 then cfg.maxEntries else 1
  }

  lemma DeleteShape<V>(slots: Slots<V>, key: string, latest: Millis)
    requires DistinctKeys(slots) && ExpiryOrder(slots, latest)
    ensures var rest := Delete(slots, key);
            && DistinctKeys(rest) && ExpiryOrder(rest, latest) && !Has(rest, key)
            && |rest| == |slots| - if Has(slots, key) then 1 else 0
  {
    var i, rest := IndexOf(slots, key), Delete(slots, key);
    if i < |slots| {
      RemoveAtShape(slots, i, latest);
    }
  }

  lemma RemoveAtShape<V>(slots: Slots<V>, i: nat, latest: Millis)
    requires DistinctKeys(slots) && ExpiryOrder(slots, latest) && i < |slots|
    ensures var rest := RemoveAt(slots, i);
            && DistinctKeys(rest) && ExpiryOrder(rest, latest) && !Has(rest, slots[i].key)
            && |rest| == |slots| - 1
  {
    hide IndexOf;
    var rest := RemoveAt(slots, i);
    assert forall k | 0 <= k < |rest| :: rest[k] == slots[if k < i then k else k + 1];
  }

  lemma SetShape<V>(cfg: Config, slots: Slots<V>, now: Millis, key: string, value: V, latest: Millis)
    requires DistinctKeys(slots) && ExpiryOrder(slots, latest) && latest <= now + cfg.ttlMs
    requires |slots| <= MaxSize(cfg)
    ensures var next := Set(cfg, slots, now, key, value);
            DistinctKeys(next) && ExpiryOrder(next, now + cfg.ttlMs) && |next| <= MaxSize(cfg)
  {
    hide Delete, IndexOf, DistinctKeys, ExpiryOrder;
    var room := if Has(slots, key) then Delete(slots, key)
                else if |slots| >= cfg.maxEntries && slots != [] then slots[1..]
                else slots;
    DeleteShape(slots, key, latest);
    if !Has(slots, key) && slots != [] {
      RemoveAtShape(slots, 0, latest);
      assert RemoveAt(slots, 0) == slots[1..];
    }
    assert !Has(room, key) by {
      if slots != [] { NotAmongFewer(slots, key); }
    }
    AppendShape(room, Slot(key, value, now + cfg.ttlMs), latest);
  }

  lemma NotAmongFewer<V>(slots: Slots<V>, key: string)
    requires slots != []
    ensures !Has(slots, key) ==> !Has(slots[1..], key)
  {
  }

  lemma AppendShape<V>(room: Slots<V>, last: Slot<V>, latest: Millis)
    requires DistinctKeys(room) && ExpiryOrder(room, latest) && !Has(room, last.key) && latest <= last.expiresAt
    ensures DistinctKeys(room + [last]) && ExpiryOrder(room + [last], last.expiresAt)
  {
    hide IndexOf;
    var i := IndexOf(room, last.key);
  }

  function Clock<V>(ops: seq<Op<V>>, start: Millis): Millis {
    if ops == [] then start else ops[|ops| - 1].at
  }

  /**
   On every run the keys stay distinct and the cache never holds more than `maxEntries` slots (one, if
   `maxEntries` is below one); with a clock that does not go back, insertion order is expiry order.
   */
  lemma {:induction false} SizeAndOrder<V>(cfg: Config, ops: seq<Op<V>>, start: Millis)
    requires InOrder(ops) && (ops != [] ==> start <= ops[0].at)
    ensures var slots := Play(cfg, ops);
            && DistinctKeys(slots) && |slots| <= MaxSize(cfg)
            && ExpiryOrder(slots, Clock(ops, start) + cfg.ttlMs)
  {
    hide Set, Delete, MaxSize, IndexOf, DistinctKeys, ExpiryOrder;
    if ops != [] {
      var front, op := ops[..|ops| - 1], ops[|ops| - 1];
      var slots := Play(cfg, front);
      SizeAndOrder(cfg, front, start);
      var latest := Clock(front, start) + cfg.ttlMs;
      assert latest <= op.at + cfg.ttlMs;
      match op {
        case GetOp(_, key) => DeleteShape(slots, key, latest);
        case SetOp(at, key, value) => SetShape(cfg, slots, at, key, value, latest);
        case DeleteOp(_, key) => DeleteShape(slots, key, latest);
        case ClearOp(at) => EmptyShape<V>(cfg, at + cfg.ttlMs);
      }
      LaterShape(Play(cfg, ops), latest, op.at + cfg.ttlMs);
    } else {
      EmptyShape<V>(cfg, start + cfg.ttlMs);
    }
  }

  lemma LaterShape<V>(slots: Slots<V>, latest: Millis, later: Millis)
    requires latest <= later
    ensures ExpiryOrder(slots, latest) ==> ExpiryOrder(slots, later)
  {
  }

  lemma EmptyShape<V>(cfg: Config, latest: Millis)
    ensures MaxSize(cfg) > 0
    ensures var none: Slots<V> := []; DistinctKeys(none) && ExpiryOrder(none, latest)
  {
  }

  /** With no room at all the cache still keeps the last slot written. */
  lemma ZeroRoomKeepsOne(cfg: Config, at: Millis, key: string)
    requires cfg.maxEntries <= 0
    ensures |Play(cfg, [SetOp(at, key, 0)])| == 1 > cfg.maxEntries
  {
    assert [SetOp(at, key, 0)][..0] == [];
  }

  // ---------------------------------------------------------------- hits

  /** Every slot is the latest write of its key, and every later slot was written since. */
  ghost predicate SlotsAreWrites<V(!new)>(cfg: Config, ops: seq<Op<V>>, slots: Slots<V>) {
    && (forall s | s in slots :: IsLatestWrite(cfg, ops, s))
    && (forall i, j | 0 <= i < j < |slots| :: slots[j].key in OthersSince(ops, slots[i].key))
  }

  ghost predicate IsLatestWrite<V(!new)>(cfg: Config, ops: seq<Op<V>>, s: Slot<V>) {
    && LastWrite(ops, s.key).Some?
    && var w := LastWrite(ops, s.key).value;
       w.SetOp? && w.value == s.value && s.expiresAt == w.at + cfg.ttlMs
  }

  lemma HistoryOneMore<V>(ops: seq<Op<V>>, op: Op<V>, key: string)
    ensures op.GetOp? || ((op.SetOp? || op.DeleteOp?) && op.key != key) ==>
              LastWrite(ops + [op], key) == LastWrite(ops, key)
    ensures op.SetOp? && op.key == key ==>
              LastWrite(ops + [op], key) == Some(op) && OthersSince(ops + [op], key) == {}
    ensures op.SetOp? && op.key != key ==> OthersSince(ops + [op], key) == OthersSince(ops, key) + {op.key}
    ensures !op.SetOp? ==> OthersSince(ops + [op], key) == OthersSince(ops, key)
    ensures op.ClearOp? || (op.DeleteOp? && op.key == key) ==> LastWrite(ops + [op], key) == None
  {
    assert (ops + [op])[..|ops|] == ops;
  }

  /** Slots taken out in any way that keeps the order leave the rest as they were. */
  lemma FewerSlotsAreWrites<V(!new)>(cfg: Config, ops: seq<Op<V>>, slots: Slots<V>, i: nat)
    requires SlotsAreWrites(cfg, ops, slots) && i < |slots|
    ensures SlotsAreWrites(cfg, ops, RemoveAt(slots, i))
  {
    hide IsLatestWrite, OthersSince;
    var rest := RemoveAt(slots, i);
    assert forall k | 0 <= k < |rest| :: rest[k] == slots[if k < i then k else k + 1];
  }

  lemma RemainingSlotsAreWrites<V(!new)>(cfg: Config, ops: seq<Op<V>>, op: Op<V>, slots: Slots<V>)
    requires SlotsAreWrites(cfg, ops, slots) && !op.ClearOp?
    requires op.GetOp? || !Has(slots, op.key)
    ensures SlotsAreWrites(cfg, ops + [op], slots)
  {
    hide LastWrite, OthersSince;
    forall s | s in slots ensures IsLatestWrite(cfg, ops + [op], s) {
      HistoryOneMore(ops, op, s.key);
    }
    forall i, j | 0 <= i < j < |slots| ensures slots[j].key in OthersSince(ops + [op], slots[i].key) {
      HistoryOneMore(ops, op, slots[i].key);
    }
  }

  lemma SetKeepsWrites<V(!new)>(cfg: Config, ops: seq<Op<V>>, op: Op<V>, slots: Slots<V>)
    requires SlotsAreWrites(cfg, ops, slots) && DistinctKeys(slots) && op.SetOp?
    ensures SlotsAreWrites(cfg, ops + [op], Set(cfg, slots, op.at, op.key, op.value))
  {
    hide IsLatestWrite, OthersSince, LastWrite;
    hide SlotsAreWrites, IndexOf;
    var i := IndexOf(slots, op.key);
    var room := if i < |slots| then RemoveAt(slots, i)
                else if |slots| >= cfg.maxEntries && slots != [] then slots[1..] else slots;
    if i < |slots| {
      FewerSlotsAreWrites(cfg, ops, slots, i);
    } else if slots != [] {
      FewerSlotsAreWrites(cfg, ops, slots, 0);
      assert RemoveAt(slots, 0) == slots[1..];
      NotAmongFewer(slots, op.key);
    }
    assert !Has(room, op.key);
    RemainingSlotsAreWrites(cfg, ops, op, room);
    AppendWrite(cfg, ops, op, room);
  }

  lemma AppendWrite<V(!new)>(cfg: Config, ops: seq<Op<V>>, op: Op<V>, room: Slots<V>)
    requires op.SetOp? && SlotsAreWrites(cfg, ops + [op], room) && !Has(room, op.key)
    ensures SlotsAreWrites(cfg, ops + [op], room + [Slot(op.key, op.value, op.at + cfg.ttlMs)])
  {
    hide OthersSince, LastWrite;
    var last := Slot(op.key, op.value, op.at + cfg.ttlMs);
    HistoryOneMore(ops, op, op.key);
    assert IsLatestWrite(cfg, ops + [op], last);
    forall i | 0 <= i < |room| ensures op.key in OthersSince(ops + [op], room[i].key) {
      HistoryOneMore(ops, op, room[i].key);
    }
  }

  lemma {:induction false} PlayKeepsWrites<V(!new)>(cfg: Config, ops: seq<Op<V>>, start: Millis)
    requires InOrder(ops) && (ops != [] ==> start <= ops[0].at)
    ensures SlotsAreWrites(cfg, ops, Play(cfg, ops))
  {
    hide Set;
    var none: Slots<V> := [];
    assert SlotsAreWrites(cfg, ops, none);
    if ops != [] {
      hide SlotsAreWrites;
      var front, op := ops[..|ops| - 1], ops[|ops| - 1];
      assert ops == front + [op];
      var slots := Play(cfg, front);
      PlayKeepsWrites(cfg, front, start);
      SizeAndOrder(cfg, front, start);
      match op
      case SetOp(_, _, _) =>
        SetKeepsWrites(cfg, front, op, slots);
      case ClearOp(_) =>
      case _ =>
        var next := Apply(cfg, slots, op);
        var i := IndexOf(slots, op.key);
        if i < |slots| { FewerSlotsAreWrites(cfg, front, slots, i); }
        DeleteShape(slots, op.key, Clock(front, start) + cfg.ttlMs);
        RemainingSlotsAreWrites(cfg, front, op, next);
    }
  }

  // ---------------------------------------------------------------- evictions

  /** Written, not undone, and not yet expired at `now`. */
  ghost predicate Live<V>(cfg: Config, ops: seq<Op<V>>, key: string, now: Millis) {
    LastWrite(ops, key).Some? && now < LastWrite(ops, key).value.at + cfg.ttlMs
  }

  function KeysIn<V>(slots: Slots<V>): set<string> {
    set i | 0 <= i < |slots| :: slots[i].key
  }

  lemma {:induction false} DistinctKeysCount<V>(slots: Slots<V>)
    requires DistinctKeys(slots)
    ensures |KeysIn(slots)| == |slots|
  {
    if slots != [] {
      DistinctKeysCount(slots[1..]);
      assert forall i | 0 <= i < |slots[1..]| :: slots[1..][i] == slots[i + 1];
      assert KeysIn(slots) == {slots[0].key} + KeysIn(slots[1..]);
      assert slots[0].key !in KeysIn(slots[1..]);
    }
  }

  /** The slot about to be evicted has seen a full cache of other writes. */
  lemma EvictedHasSeenEnough<V(!new)>(cfg: Config, ops: seq<Op<V>>, op: Op<V>, slots: Slots<V>)
    requires SlotsAreWrites(cfg, ops, slots) && DistinctKeys(slots) && slots != []
    requires op.SetOp? && !Has(slots, op.key)
    ensures |OthersSince(ops + [op], slots[0].key)| >= |slots|
  {
    hide LastWrite, OthersSince;
    var key := slots[0].key;
    var later := KeysIn(slots[1..]);
    assert forall i | 0 <= i < |slots[1..]| :: slots[1..][i] == slots[i + 1];
    DistinctKeysCount(slots[1..]);
    HistoryOneMore(ops, op, key);
    assert later + {op.key} <= OthersSince(ops + [op], key);
    assert op.key !in later;
    SubsetCount(later + {op.key}, OthersSince(ops + [op], key));
  }

  lemma {:induction false} SubsetCount(a: set<string>, b: set<string>)
    requires a <= b
    ensures |a| <= |b|
  {
    if a != {} {
      var x :| x in a;
      SubsetCount(a - {x}, b - {x});
    }
  }

  lemma OthersGrow<V>(ops: seq<Op<V>>, op: Op<V>, key: string)
    requires !(op.SetOp? && op.key == key)
    ensures |OthersSince(ops, key)| <= |OthersSince(ops + [op], key)|
  {
    HistoryOneMore(ops, op, key);
    SubsetCount(OthersSince(ops, key), OthersSince(ops + [op], key));
  }

  lemma DeleteKeepsOthers<V>(slots: Slots<V>, key: string, other: string)
    requires Has(slots, other) && other != key
    ensures Has(Delete(slots, key), other)
  {
    var i, rest := IndexOf(slots, other), Delete(slots, key);
    var k := IndexOf(slots, key);
    if k < |slots| {
      assert rest[if i < k then i else i - 1].key == other;
    }
  }

  lemma ApplyKeepsOthers<V(!new)>(cfg: Config, ops: seq<Op<V>>, op: Op<V>, slots: Slots<V>, key: string)
    requires SlotsAreWrites(cfg, ops, slots) && DistinctKeys(slots) && Has(slots, key)
    requires (op.GetOp? && op.key != key) || (op.SetOp? && op.key != key) || (op.DeleteOp? && op.key != key)
    requires |OthersSince(ops + [op], key)| < cfg.maxEntries
    ensures Has(Apply(cfg, slots, op), key)
  {
    hide OthersSince, LastWrite, Delete, SlotsAreWrites;
    DeleteKeepsOthers(slots, op.key, key);
    if op.SetOp? {
      var i := IndexOf(slots, key);
      if !Has(slots, op.key) && |slots| >= cfg.maxEntries {
        EvictedHasSeenEnough(cfg, ops, op, slots);
        assert slots[1..][i - 1].key == key;
      }
      AppendKeeps(if Has(slots, op.key) then Delete(slots, op.key)
                  else if |slots| >= cfg.maxEntries && slots != [] then slots[1..] else slots,
                  Slot(op.key, op.value, op.at + cfg.ttlMs), key);
    }
  }

  lemma AppendKeeps<V>(room: Slots<V>, last: Slot<V>, key: string)
    ensures Has(room + [last], key) <==> Has(room, key) || last.key == key
  {
    var i := IndexOf(room, key);
    if i < |room| { assert (room + [last])[i].key == key; }
    assert (room + [last])[|room|] == last;
  }

  lemma {:induction false} LiveWriteIsKept<V(!new)>(cfg: Config, ops: seq<Op<V>>, key: string, start: Millis)
    requires InOrder(ops) && (ops != [] ==> start <= ops[0].at)
    requires Live(cfg, ops, key, Clock(ops, start)) && |OthersSince(ops, key)| < cfg.maxEntries
    ensures Has(Play(cfg, ops), key)
  {
    hide Set, SlotsAreWrites, Delete;
    var front, op := ops[..|ops| - 1], ops[|ops| - 1];
    assert ops == front + [op];
    var slots := Play(cfg, front);
    if op.SetOp? && op.key == key {
      SetStores(cfg, slots, op.at, key, op.value);
    } else {
      HistoryOneMore(front, op, key);
      OthersGrow(front, op, key);
      assert Clock(front, start) <= op.at;
      LiveWriteIsKept(cfg, front, key, start);
      PlayKeepsWrites(cfg, front, start);
      SizeAndOrder(cfg, front, start);
      if op.GetOp? && op.key == key {
        LiveGetKeeps(cfg, front, slots, key, op.at);
      } else {
        ApplyKeepsOthers(cfg, front, op, slots, key);
      }
    }
  }

  lemma SetStores<V>(cfg: Config, slots: Slots<V>, at: Millis, key: string, value: V)
    ensures Has(Set(cfg, slots, at, key, value), key)
  {
    hide Delete;
    var next := Set(cfg, slots, at, key, value);
    assert next[|next| - 1].key == key;
  }

  lemma LiveGetKeeps<V(!new)>(cfg: Config, ops: seq<Op<V>>, slots: Slots<V>, key: string, now: Millis)
    requires SlotsAreWrites(cfg, ops, slots) && Has(slots, key) && Live(cfg, ops, key, now)
    ensures LastWrite(ops, key).value.SetOp?
    ensures Get(slots, now, key) == (Some(LastWrite(ops, key).value.value), slots)
  {
    hide LastWrite, OthersSince;
    var i := IndexOf(slots, key);
    assert IsLatestWrite(cfg, ops, slots[i]);
  }

  /**
   What a lookup finds. On every run with a clock that does not go back, a hit is the latest write of its key,
   not undone and not expired; and such a write is found for as long as fewer than `maxEntries` other keys
   have been written since.
   */
  lemma HitIsTheLatestLiveWrite<V(!new)>(cfg: Config, ops: seq<Op<V>>, now: Millis, key: string, start: Millis)
    requires InOrder(ops) && (ops != [] ==> start <= ops[0].at) && Clock(ops, start) <= now
    ensures var hit := Get(Play(cfg, ops), now, key).0;
            && (hit.Some? ==> Live(cfg, ops, key, now) && LastWrite(ops, key).value.SetOp?
                              && hit.value == LastWrite(ops, key).value.value)
            && (Live(cfg, ops, key, now) && |OthersSince(ops, key)| < cfg.maxEntries ==> hit.Some?)
  {
    hide LastWrite, OthersSince, Play, Delete;
    var slots := Play(cfg, ops);
    PlayKeepsWrites(cfg, ops, start);
    var i := IndexOf(slots, key);
    if i < |slots| {
      assert IsLatestWrite(cfg, ops, slots[i]);
    }
    if Live(cfg, ops, key, now) && |OthersSince(ops, key)| < cfg.maxEntries {
      LiveWriteIsKept(cfg, ops, key, start);
    }
  }
}
