/** Keys that join parts with `::`, and when the parts can be told apart again. */
module Keys {
  import opened Wrappers

  const SEP := "::"

  predicate SepAt(s: string, i: nat) {
    i + 1 < |s| && s[i] == ':' && s[i + 1] == ':'
  }

  /** The first `::` at or after `from`, or the length when there is none. */
  function FindSep(s: string, from: nat): (i: nat)
    requires from <= |s|
    ensures from <= i <= |s|
    ensures i < |s| ==> SepAt(s, i)
    ensures forall j | from <= j < i :: !SepAt(s, j)
    decreases |s| - from
  {
    if from == |s| || SepAt(s, from) then from else FindSep(s, from + 1)
  }

  predicate HasSep(s: string) {
    FindSep(s, 0) < |s|
  }

  predicate EndsInColon(s: string) {
    s != "" && s[|s| - 1] == ':'
  }

  /** A part that ends where the next `::` begins. */
  predicate Separable(s: string) {
    !HasSep(s) && !EndsInColon(s)
  }

  /** `s.split('::')`. */
  function Split(s: string): (parts: seq<string>)
    decreases |s|
  {
    var i := FindSep(s, 0);
    if i == |s| then [s] else [s[..i]] + Split(s[i + 2..])
  }

  /** The first separator of `a :: rest` is the one that was put there exactly when `a` is separable. */
  lemma FirstSeparator(a: string, rest: string)
    ensures FindSep(a + SEP + rest, 0) == |a| <==> Separable(a)
    ensures FindSep(a + SEP + rest, 0) <= |a|
  {
    var s := a + SEP + rest;
    var i := FindSep(s, 0);
    assert SepAt(s, |a|);
    assert forall j | 0 <= j < |a| :: s[j] == a[j];
    assert forall j | 0 <= j && j + 1 < |a| :: SepAt(s, j) <==> SepAt(a, j);
    if EndsInColon(a) {
      assert SepAt(s, |a| - 1);
    } else if HasSep(a) {
      assert SepAt(s, FindSep(a, 0));
    }
  }

  lemma SplitFirst(a: string, rest: string)
    ensures Separable(a) ==> Split(a + SEP + rest) == [a] + Split(rest)
    ensures !Separable(a) ==> Split(a + SEP + rest)[0] != a
  {
    FirstSeparator(a, rest);
    var s := a + SEP + rest;
    assert s[..|a|] == a && s[|a| + 2..] == rest;
  }

  /** Separable parts in front can be taken off one by one. */
  lemma SeparableIsCancellable(a: string, r: string, b: string, s: string)
    requires Separable(a) && Separable(b) && a + SEP + r == b + SEP + s
    ensures a == b && r == s
  {
    FirstSeparator(a, r);
    FirstSeparator(b, s);
    assert (a + SEP + r)[..|a|] == a && (b + SEP + s)[..|b|] == b;
    assert (a + SEP + r)[|a| + 2..] == r && (b + SEP + s)[|b| + 2..] == s;
  }

  // ---------------------------------------------------------------- idempotency keys

  datatype GradeTuple = GradeTuple(submissionId: string, rubricVersion: string, evaluatorVersion: string)

  /** `idempotencyKey` of `packages/evaluator-sdk/src/idempotency.ts`. */
  function IdempotencyKey(t: GradeTuple): string {
    t.submissionId + SEP + t.rubricVersion + SEP + t.evaluatorVersion
  }

  /** `parseIdempotencyKey` of `packages/db/src/grade-store.ts`. */
  function ParseIdempotencyKey(key: string): Option<GradeTuple> {
    var parts := Split(key);
    if |parts| != 3 then None
    else if parts[0] == "" || parts[1] == "" || parts[2] == "" then None
    else Some(GradeTuple(parts[0], parts[1], parts[2]))
  }

  predicate Parseable(t: GradeTuple) {
    && t.submissionId != "" && t.rubricVersion != "" && t.evaluatorVersion != ""
    && Separable(t.submissionId) && Separable(t.rubricVersion) && !HasSep(t.evaluatorVersion)
  }

  /**
   A key parses back to its tuple exactly when every part is non-empty, none contains `::`, and the first two
   do not end in `:`.
   */
  lemma KeyRoundTrip(t: GradeTuple)
    ensures ParseIdempotencyKey(IdempotencyKey(t)) == Some(t) <==> Parseable(t)
  {
    hide FindSep;
    var tail := t.rubricVersion + SEP + t.evaluatorVersion;
    assert IdempotencyKey(t) == t.submissionId + SEP + tail;
    SplitFirst(t.submissionId, tail);
    SplitFirst(t.rubricVersion, t.evaluatorVersion);
  }

  /** What a key parses to has that key. */
  lemma ParsedHasKey(key: string)
    ensures ParseIdempotencyKey(key).Some? ==> IdempotencyKey(ParseIdempotencyKey(key).value) == key
  {
    hide FindSep;
    var i := FindSep(key, 0);
    if i < |key| {
      var rest := key[i + 2..];
      var j := FindSep(rest, 0);
      assert key == key[..i] + SEP + rest;
      if j < |rest| {
        assert rest == rest[..j] + SEP + rest[j + 2..];
        LastPart(rest[j + 2..]);
        assert key == key[..i] + SEP + rest[..j] + SEP + rest[j + 2..];
        assert Split(key) == [key[..i]] + ([rest[..j]] + Split(rest[j + 2..]));
      }
    }
  }

  lemma LastPart(s: string)
    ensures |Split(s)| == 1 ==> Split(s) == [s]
  {
    hide FindSep;
  }

  /** On such tuples the key is injective. */
  lemma KeysSeparateTuples(t: GradeTuple, u: GradeTuple)
    requires Parseable(t) && Parseable(u) && IdempotencyKey(t) == IdempotencyKey(u)
    ensures t == u
  {
    KeyRoundTrip(t);
    KeyRoundTrip(u);
  }

  /** Two submissions can share a key once an id may end in a colon. */
  lemma KeysCanCollide()
    ensures var t, u := GradeTuple("s:", "r", "e"), GradeTuple("s", ":r", "e");
            t != u && IdempotencyKey(t) == IdempotencyKey(u)
  {
  }

  // ---------------------------------------------------------------- keys of one tuple only

  predicate StartsWithColon(s: string) {
    s != "" && s[0] == ':'
  }

  /** No part has a `::` in it, and no colon stands next to a separator. */
  predicate Unambiguous(t: GradeTuple) {
    && Separable(t.submissionId) && Separable(t.rubricVersion) && !HasSep(t.evaluatorVersion)
    && !StartsWithColon(t.rubricVersion) && !StartsWithColon(t.evaluatorVersion)
  }

  /** Where a separator can be read in `a :: b`. */
  lemma SeparatorsOf(a: string, b: string, i: nat)
    ensures SepAt(a + SEP + b, i) <==>
            || i == |a| || SepAt(a, i) || (i + 1 == |a| && EndsInColon(a))
            || (i == |a| + 1 && StartsWithColon(b)) || (i >= |a| + 2 && SepAt(b, i - |a| - 2))
  {
    var s := a + SEP + b;
    assert forall j | 0 <= j < |a| :: s[j] == a[j];
    assert forall j | 0 <= j < |b| :: s[|a| + 2 + j] == b[j];
  }

  lemma HasSepMeans(s: string)
    ensures HasSep(s) <==> exists i: nat :: SepAt(s, i)
  {
    if i: nat :| SepAt(s, i) {
      assert FindSep(s, 0) <= i;
    }
  }

  /** Every pair of separators that do not overlap cuts a tuple out of the key. */
  lemma TupleCutAt(key: string, i: nat, j: nat)
    requires SepAt(key, i) && SepAt(key, j) && i + 2 <= j
    ensures IdempotencyKey(GradeTuple(key[..i], key[i + 2..j], key[j + 2..])) == key
  {
    assert key == key[..i] + SEP + key[i + 2..j] + SEP + key[j + 2..];
  }

  /** Where the separators of a tuple stand in its key. */
  lemma KeyCuts(t: GradeTuple)
    ensures var key, p := IdempotencyKey(t), |t.submissionId|;
            var q := p + 2 + |t.rubricVersion|;
            && SepAt(key, p) && SepAt(key, q) && q + 2 <= |key|
            && t == GradeTuple(key[..p], key[p + 2..q], key[q + 2..])
  {
    var key, p := IdempotencyKey(t), |t.submissionId|;
    var q := p + 2 + |t.rubricVersion|;
    assert key == t.submissionId + (SEP + t.rubricVersion + SEP + t.evaluatorVersion);
    assert key[p + 2..q] == t.rubricVersion && key[q + 2..] == t.evaluatorVersion;
  }

  /** In the key of an unambiguous tuple the two separators are the only ones that do not overlap. */
  lemma OnlyCuts(t: GradeTuple, i: nat, j: nat)
    requires Unambiguous(t) && i + 2 <= j && SepAt(IdempotencyKey(t), i) && SepAt(IdempotencyKey(t), j)
    ensures i == |t.submissionId| && j == i + 2 + |t.rubricVersion|
  {
    var tail := t.rubricVersion + SEP + t.evaluatorVersion;
    assert IdempotencyKey(t) == t.submissionId + SEP + tail;
    NoSeparatorIn(t.submissionId);
    NoSeparatorIn(t.rubricVersion);
    NoSeparatorIn(t.evaluatorVersion);
    hide SepAt, HasSep;
    SeparatorsOf(t.submissionId, tail, i);
    SeparatorsOf(t.submissionId, tail, j);
    var p := |t.submissionId| + 2;
    if i >= p { SeparatorsOf(t.rubricVersion, t.evaluatorVersion, i - p); }
    if j >= p { SeparatorsOf(t.rubricVersion, t.evaluatorVersion, j - p); }
    assert t.rubricVersion != "" ==> tail[0] == t.rubricVersion[0];
  }

  lemma NoSeparatorIn(s: string)
    ensures !HasSep(s) ==> forall i: nat :: !SepAt(s, i)
  {
    HasSepMeans(s);
  }

  /** A key belongs to one tuple only if and only if its tuple is unambiguous. */
  lemma KeyBelongsToOneTuple(t: GradeTuple)
    ensures (forall u :: IdempotencyKey(u) == IdempotencyKey(t) ==> u == t) <==> Unambiguous(t)
  {
    hide Unambiguous, IdempotencyKey, SepAt;
    if Unambiguous(t) {
      forall u | IdempotencyKey(u) == IdempotencyKey(t) ensures u == t {
        KeyCuts(u);
        KeyCuts(t);
        OnlyCuts(t, |u.submissionId|, |u.submissionId| + 2 + |u.rubricVersion|);
      }
    } else {
      var u := AnotherTuple(t);
    }
  }

  lemma AnotherTuple(t: GradeTuple) returns (u: GradeTuple)
    requires !Unambiguous(t)
    ensures IdempotencyKey(u) == IdempotencyKey(t) && u != t
  {
    hide IdempotencyKey, SepAt, HasSep;
    var key, p := IdempotencyKey(t), |t.submissionId|;
    var q := p + 2 + |t.rubricVersion|;
    KeyCuts(t);
    var i, j := OtherCut(t);
    CutsFit(key, j);
    TupleCutAt(key, i, j);
    u := GradeTuple(key[..i], key[i + 2..j], key[j + 2..]);
    assert i != p ==> |u.submissionId| != |t.submissionId|;
    assert i == p ==> |u.rubricVersion| != |t.rubricVersion|;
  }

  lemma CutsFit(key: string, j: nat)
    requires SepAt(key, j)
    ensures j + 2 <= |key|
  {
  }

  /** Another pair of separators that do not overlap. */
  lemma OtherCut(t: GradeTuple) returns (i: nat, j: nat)
    requires !Unambiguous(t)
    ensures i + 2 <= j && SepAt(IdempotencyKey(t), i) && SepAt(IdempotencyKey(t), j)
    ensures i != |t.submissionId| || j != i + 2 + |t.rubricVersion|
  {
    var a, b, c := t.submissionId, t.rubricVersion, t.evaluatorVersion;
    var tail := b + SEP + c;
    var p, q := |a|, |a| + 2 + |b|;
    assert IdempotencyKey(t) == a + SEP + tail;
    KeyCuts(t);
    hide SepAt, HasSep, IdempotencyKey;
    if !Separable(a) {
      i := EarlierSeparator(a, tail);
      j := q;
    } else if StartsWithColon(b) {
      i, j := p + 1, q;
      assert tail[0] == b[0];
      SeparatorsOf(a, tail, i);
    } else {
      var k := ExtraSeparator(b, c);
      i, j := p, p + 2 + k;
      SeparatorsOf(a, tail, j);
    }
  }

  lemma EarlierSeparator(a: string, rest: string) returns (i: nat)
    requires !Separable(a)
    ensures i < |a| && SepAt(a + SEP + rest, i)
  {
    FirstSeparator(a, rest);
    i := FindSep(a + SEP + rest, 0);
  }

  lemma ExtraSeparator(b: string, c: string) returns (k: nat)
    requires !Separable(b) || HasSep(c) || StartsWithColon(c)
    ensures k != |b| && SepAt(b + SEP + c, k)
  {
    hide SepAt, HasSep;
    if !Separable(b) {
      k := EarlierSeparator(b, c);
    } else if StartsWithColon(c) {
      k := |b| + 1;
      SeparatorsOf(b, c, k);
    } else {
      HasSepMeans(c);
      var l: nat :| SepAt(c, l);
      k := |b| + 2 + l;
      SeparatorsOf(b, c, k);
    }
  }
}
