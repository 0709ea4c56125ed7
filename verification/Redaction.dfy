/** `packages/ai/src/redaction.ts` for literal targets: replacement, detection, and why one pass is enough. */
module Redaction {

  /** The `i` flag: two characters match when they fold to the same one. */
  type Fold = char -> char

  const MARK := "[redacted]"

  // ---------------------------------------------------------------- literal patterns

  predicate MatchAt(fold: Fold, text: string, target: string, i: nat) {
    i + |target| <= |text| && forall j | 0 <= j < |target| :: fold(text[i + j]) == fold(target[j])
  }

  /** Where the first match at or after `from` starts, or past the end of the text. */
  function FirstMatch(fold: Fold, text: string, target: string, from: nat): (i: nat)
    requires from <= |text|
    ensures from <= i <= |text| + 1
    ensures i <= |text| ==> i + |target| <= |text| && MatchAt(fold, text, target, i)
    ensures forall j | from <= j < i :: !MatchAt(fold, text, target, j)
    decreases |text| - from
  {
    if MatchAt(fold, text, target, from) then from
    else if from == |text| then from + 1
    else FirstMatch(fold, text, target, from + 1)
  }

  /** `new RegExp(escape(target), 'gi').test(text)`. */
  predicate Occurs(fold: Fold, text: string, target: string) {
    FirstMatch(fold, text, target, 0) <= |text|
  }

  /** `text.replace(new RegExp(escape(target), 'gi'), MARK)`: leftmost matches, none overlapping. */
  function ReplaceAll(fold: Fold, text: string, target: string): string
    requires target != ""
    decreases |text|
  {
    var i := FirstMatch(fold, text, target, 0);
    if i > |text| then text else text[..i] + MARK + ReplaceAll(fold, text[i + |target|..], target)
  }

  /** `text.match(new RegExp(escape(target), 'gi'))`. */
  function Matches(fold: Fold, text: string, target: string): (found: seq<string>)
    requires target != ""
    ensures found == [] <==> !Occurs(fold, text, target)
    decreases |text|
  {
    var i := FirstMatch(fold, text, target, 0);
    if i > |text| then []
    else [text[i..i + |target|]] + Matches(fold, text[i + |target|..], target)
  }

  /** What stands before a match, and the match. */
  datatype Cut = Cut(before: string, found: string)

  function Cuts(fold: Fold, text: string, target: string): seq<Cut>
    requires target != ""
    decreases |text|
  {
    var i := FirstMatch(fold, text, target, 0);
    if i > |text| then []
    else [Cut(text[..i], text[i..i + |target|])] + Cuts(fold, text[i + |target|..], target)
  }

  /** What stands after the last match. */
  function Tail(fold: Fold, text: string, target: string): string
    requires target != ""
    decreases |text|
  {
    var i := FirstMatch(fold, text, target, 0);
    if i > |text| then text else Tail(fold, text[i + |target|..], target)
  }

  function Found(cuts: seq<Cut>): seq<string> {
    if cuts == [] then [] else [cuts[0].found] + Found(cuts[1..])
  }

  function Original(cuts: seq<Cut>): string {
    if cuts == [] then "" else cuts[0].before + cuts[0].found + Original(cuts[1..])
  }

  function Marked(cuts: seq<Cut>): string {
    if cuts == [] then "" else cuts[0].before + MARK + Marked(cuts[1..])
  }

  /** The match is one, and there is none before it. */
  ghost predicate IsCut(fold: Fold, target: string, c: Cut) {
    |c.found| == |target| && MatchAt(fold, c.found, target, 0) && !Occurs(fold, c.before, target)
  }

  /** Replacement puts a mark where each match was and leaves everything else as it stood. */
  lemma {:induction false} ReplaceChangesOnlyMatches(fold: Fold, text: string, target: string)
    requires target != ""
    ensures var cuts, tail := Cuts(fold, text, target), Tail(fold, text, target);
            && Original(cuts) + tail == text && Marked(cuts) + tail == ReplaceAll(fold, text, target)
            && Found(cuts) == Matches(fold, text, target)
            && (forall c | c in cuts :: IsCut(fold, target, c)) && !Occurs(fold, tail, target)
    decreases |text|
  {
    hide Occurs, MatchAt, FirstMatch, IsCut, Original, Marked, Found;
    var i := FirstMatch(fold, text, target, 0);
    NoCuts();
    if i > |text| {
      NotThere(fold, text, target);
    } else {
      var c, rest := Cut(text[..i], text[i..i + |target|]), text[i + |target|..];
      ReplaceChangesOnlyMatches(fold, rest, target);
      FoundThere(fold, text, target);
      OneMoreCut(c, Cuts(fold, rest, target), Tail(fold, rest, target));
      CutApart(text, i, i + |target|);
    }
  }

  lemma OneMoreCut(c: Cut, cuts: seq<Cut>, tail: string)
    ensures Original([c] + cuts) + tail == c.before + c.found + (Original(cuts) + tail)
    ensures Marked([c] + cuts) + tail == c.before + MARK + (Marked(cuts) + tail)
    ensures Found([c] + cuts) == [c.found] + Found(cuts)
  {
    assert ([c] + cuts)[1..] == cuts;
  }

  lemma NoCuts()
    ensures Original([]) == "" && Marked([]) == "" && Found([]) == []
  {
  }

  lemma CutApart(text: string, i: nat, j: nat)
    requires i <= j <= |text|
    ensures text == text[..i] + text[i..j] + text[j..]
  {
  }

  lemma NotThere(fold: Fold, text: string, target: string)
    ensures FirstMatch(fold, text, target, 0) > |text| ==> !Occurs(fold, text, target)
  {
  }

  lemma FoundThere(fold: Fold, text: string, target: string)
    requires target != "" && FirstMatch(fold, text, target, 0) <= |text|
    ensures var i := FirstMatch(fold, text, target, 0);
            IsCut(fold, target, Cut(text[..i], text[i..i + |target|]))
  {
    hide Occurs, FirstMatch;
    var i := FirstMatch(fold, text, target, 0);
    var found := text[i..i + |target|];
    assert forall j | 0 <= j < |target| :: found[j] == text[i + j];
    if Occurs(fold, text[..i], target) {
      EarlierMatch(fold, text, i, target);
      assert false;
    }
  }

  // ---------------------------------------------------------------- redact and findRedactionEvidence

  datatype RedactionResult = RedactionResult(text: string, triggered: bool, matchedTargets: seq<string>)

  function RedactFrom(fold: Fold, text: string, targets: seq<string>): (r: RedactionResult)
    decreases |targets|
  {
    if targets == [] then RedactionResult(text, false, [])
    else
      var target := targets[0];
      if target != "" && Occurs(fold, text, target) then
        var r := RedactFrom(fold, ReplaceAll(fold, text, target), targets[1..]);
        RedactionResult(r.text, true, [target] + r.matchedTargets)
      else RedactFrom(fold, text, targets[1..])
  }

  /** One target more at the end of the list: it is looked for in the text the others leave. */
  lemma {:induction false} OneTargetMore(fold: Fold, text: string, targets: seq<string>, last: string)
    ensures RedactFrom(fold, text, []) == RedactionResult(text, false, [])
    ensures var r, r' := RedactFrom(fold, text, targets), RedactFrom(fold, text, targets + [last]);
            r' == if last != "" && Occurs(fold, r.text, last)
                  then RedactionResult(ReplaceAll(fold, r.text, last), true, r.matchedTargets + [last]) else r
    decreases |targets|
  {
    hide Occurs, ReplaceAll;
    if targets == [] {
      assert [last][1..] == [];
    } else {
      var head := targets[0];
      var next := if head != "" && Occurs(fold, text, head) then ReplaceAll(fold, text, head) else text;
      assert (targets + [last])[1..] == targets[1..] + [last];
      OneTargetMore(fold, next, targets[1..], last);
      var r := RedactFrom(fold, next, targets[1..]);
      assert [head] + (r.matchedTargets + [last]) == [head] + r.matchedTargets + [last];
    }
  }

  /** The result of a redaction that has already fired for `matched`. */
  function Continue(triggered: bool, matched: seq<string>, rest: RedactionResult): RedactionResult {
    RedactionResult(rest.text, triggered || rest.triggered, matched + rest.matchedTargets)
  }

  method Redact(fold: Fold, input: string, targets: seq<string>) returns (r: RedactionResult)
    ensures r == RedactFrom(fold, input, targets)
  {
    if |targets| == 0 {
      return RedactionResult(input, false, []);
    }
    var text, triggered, matchedTargets := input, false, [];
    for i := 0 to |targets|
      invariant RedactFrom(fold, input, targets)
             == Continue(triggered, matchedTargets, RedactFrom(fold, text, targets[i..]))
    {
      hide Occurs, ReplaceAll;
      var target := targets[i];
      assert targets[i..][0] == target && targets[i..][1..] == targets[i + 1..];
      if |target| == 0 { continue; }
      if Occurs(fold, text, target) {
        triggered := true;
        ghost var rest := RedactFrom(fold, ReplaceAll(fold, text, target), targets[i + 1..]);
        assert matchedTargets + ([target] + rest.matchedTargets) == matchedTargets + [target] + rest.matchedTargets;
        matchedTargets := matchedTargets + [target];
        text := ReplaceAll(fold, text, target);
      }
    }
    r := RedactionResult(text, triggered, matchedTargets);
    assert matchedTargets + [] == matchedTargets;
  }

  function Evidence(fold: Fold, input: string, targets: seq<string>): seq<string> {
    if targets == [] then []
    else (if targets[0] == "" then [] else Matches(fold, input, targets[0])) + Evidence(fold, input, targets[1..])
  }

  method FindRedactionEvidence(fold: Fold, input: string, targets: seq<string>) returns (evidence: seq<string>)
    ensures evidence == Evidence(fold, input, targets)
  {
    hide Matches;
    evidence := [];
    for i := 0 to |targets|
      invariant evidence + Evidence(fold, input, targets[i..]) == Evidence(fold, input, targets)
    {
      assert targets[i..][0] == targets[i] && targets[i..][1..] == targets[i + 1..];
      if |targets[i]| == 0 { continue; }
      var matches := Matches(fold, input, targets[i]);
      evidence := evidence + matches;
    }
  }

  // ---------------------------------------------------------------- where new matches could come from

  /** Laid over the mark at offset `d` (negative: starting before it), the target shares characters and agrees. */
  predicate FitsMarkAt(fold: Fold, target: string, d: int) {
    && -|target| < d < |MARK|
    && forall j | 0 <= j < |target| && 0 <= d + j < |MARK| :: fold(MARK[d + j]) == fold(target[j])
  }

  /** No occurrence of the target can touch a mark. */
  ghost predicate KeepsClear(fold: Fold, target: string) {
    forall d | -|target| < d < |MARK| :: !FitsMarkAt(fold, target, d)
  }

  /** A target that cannot touch a mark, or one that every mark contains. */
  ghost predicate Settled(fold: Fold, target: string) {
    KeepsClear(fold, target) || Occurs(fold, MARK, target)
  }

  lemma OccursAt(fold: Fold, text: string, target: string, i: nat)
    requires MatchAt(fold, text, target, i)
    ensures Occurs(fold, text, target)
  {
  }

  /** Whether a target matches inside a slice does not depend on what surrounds it. */
  lemma MatchInSlice(fold: Fold, text: string, at: nat, part: string, target: string, i: nat)
    requires at + |part| <= |text| && text[at..at + |part|] == part && i + |target| <= |part|
    ensures MatchAt(fold, text, target, at + i) <==> MatchAt(fold, part, target, i)
  {
    assert forall k | 0 <= k < |part| :: part[k] == text[at..at + |part|][k] == text[at + k];
  }

  lemma OccursInPart(fold: Fold, a: string, text: string, b: string, target: string)
    requires Occurs(fold, text, target)
    ensures Occurs(fold, a + text + b, target)
  {
    hide MatchAt;
    var i := FirstMatch(fold, text, target, 0);
    MatchInSlice(fold, a + text + b, |a|, text, target, i);
    OccursAt(fold, a + text + b, target, |a| + i);
  }

  /** An occurrence in `a + MARK + b` that keeps clear of the mark lies in `a` or in `b`. */
  lemma OccursBesideMark(fold: Fold, a: string, b: string, target: string)
    requires target != "" && KeepsClear(fold, target) && Occurs(fold, a + MARK + b, target)
    ensures Occurs(fold, a, target) || Occurs(fold, b, target)
  {
    var text := a + MARK + b;
    var i := FirstMatch(fold, text, target, 0);
    if i + |target| <= |a| {
      MatchInSlice(fold, text, 0, a, target, i);
      OccursAt(fold, a, target, i);
    } else if |a| + |MARK| <= i {
      MatchInSlice(fold, text, |a| + |MARK|, b, target, i - |a| - |MARK|);
      OccursAt(fold, b, target, i - |a| - |MARK|);
    } else {
      OverlapFits(fold, a, b, target, i);
    }
  }

  lemma OverlapFits(fold: Fold, a: string, b: string, target: string, i: nat)
    requires MatchAt(fold, a + MARK + b, target, i) && |a| < i + |target| && i < |a| + |MARK|
    ensures FitsMarkAt(fold, target, i - |a|)
  {
    var text := a + MARK + b;
    var d := i - |a|;
    assert forall k | 0 <= k < |MARK| :: text[|a| + k] == MARK[k];
    forall j | 0 <= j < |target| && 0 <= d + j < |MARK|
      ensures fold(MARK[d + j]) == fold(target[j])
    {
      assert fold(text[i + j]) == fold(target[j]);
      assert text[|a| + (d + j)] == MARK[d + j];
    }
  }

  /** Replacing one target never brings another one back. */
  lemma {:induction false} ReplaceBringsNothingBack(fold: Fold, text: string, target: string, other: string)
    requires target != "" && other != "" && KeepsClear(fold, other)
    requires Occurs(fold, ReplaceAll(fold, text, target), other)
    ensures Occurs(fold, text, other)
    decreases |text|
  {
    hide Occurs, KeepsClear, MatchAt, FirstMatch;
    var i := FirstMatch(fold, text, target, 0);
    if i <= |text| {
      var rest := text[i + |target|..];
      OccursBesideMark(fold, text[..i], ReplaceAll(fold, rest, target), other);
      if Occurs(fold, text[..i], other) {
        OccursInPart(fold, "", text[..i], text[i..], other);
        assert "" + text[..i] + text[i..] == text;
      } else {
        ReplaceBringsNothingBack(fold, rest, target, other);
        OccursInPart(fold, text[..i + |target|], rest, "", other);
        assert text[..i + |target|] + rest + "" == text;
      }
    }
  }

  lemma EarlierMatch(fold: Fold, text: string, i: nat, target: string)
    requires i <= |text| && Occurs(fold, text[..i], target) && target != ""
    ensures FirstMatch(fold, text, target, 0) < i
  {
    var j := FirstMatch(fold, text[..i], target, 0);
    MatchInSlice(fold, text, 0, text[..i], target, j);
  }

  /** After its own replacement a target is gone. */
  lemma {:induction false} ReplaceRemoves(fold: Fold, text: string, target: string)
    requires target != "" && KeepsClear(fold, target)
    ensures !Occurs(fold, ReplaceAll(fold, text, target), target)
    decreases |text|
  {
    hide KeepsClear, Occurs, MatchAt, FirstMatch;
    var i := FirstMatch(fold, text, target, 0);
    if i > |text| {
      NotThere(fold, text, target);
    } else {
      var rest := text[i + |target|..];
      ReplaceRemoves(fold, rest, target);
      FoundThere(fold, text, target);
      if Occurs(fold, text[..i] + MARK + ReplaceAll(fold, rest, target), target) {
        OccursBesideMark(fold, text[..i], ReplaceAll(fold, rest, target), target);
      }
    }
  }

  /** A replacement that does anything leaves a whole mark behind. */
  lemma ReplaceLeavesMark(fold: Fold, text: string, target: string, inMark: string)
    requires target != "" && Occurs(fold, text, target) && Occurs(fold, MARK, inMark)
    ensures Occurs(fold, ReplaceAll(fold, text, target), inMark)
  {
    hide MatchAt;
    var i := FirstMatch(fold, text, target, 0);
    OccursInPart(fold, text[..i], MARK, ReplaceAll(fold, text[i + |target|..], target), inMark);
  }

  // ---------------------------------------------------------------- whole runs over the target list

  lemma {:induction false} NothingBroughtBack(fold: Fold, text: string, targets: seq<string>, other: string)
    requires other != "" && KeepsClear(fold, other) && !Occurs(fold, text, other)
    ensures !Occurs(fold, RedactFrom(fold, text, targets).text, other)
    decreases |targets|
  {
    hide Occurs, KeepsClear, ReplaceAll;
    if targets != [] {
      var target := targets[0];
      if target != "" && Occurs(fold, text, target) {
        var next := ReplaceAll(fold, text, target);
        if Occurs(fold, next, other) {
          ReplaceBringsNothingBack(fold, text, target, other);
        }
        NothingBroughtBack(fold, next, targets[1..], other);
      } else {
        NothingBroughtBack(fold, text, targets[1..], other);
      }
    }
  }

  /** A target that keeps clear of the mark does not occur in the redacted text. */
  lemma {:induction false} TargetIsGone(fold: Fold, text: string, targets: seq<string>, target: string)
    requires target != "" && target in targets && KeepsClear(fold, target)
    ensures !Occurs(fold, RedactFrom(fold, text, targets).text, target)
    decreases |targets|
  {
    hide Occurs, KeepsClear, ReplaceAll;
    var head := targets[0];
    var next := if head != "" && Occurs(fold, text, head) then ReplaceAll(fold, text, head) else text;
    if head == target {
      if Occurs(fold, text, head) { ReplaceRemoves(fold, text, head); }
      NothingBroughtBack(fold, next, targets[1..], target);
    } else {
      TargetIsGone(fold, next, targets[1..], target);
    }
  }

  lemma {:induction false} MarkSurvives(fold: Fold, text: string, targets: seq<string>, inMark: string)
    requires Occurs(fold, MARK, inMark)
    requires Occurs(fold, text, inMark) || RedactFrom(fold, text, targets).triggered
    ensures Occurs(fold, RedactFrom(fold, text, targets).text, inMark)
    decreases |targets|
  {
    hide Occurs, ReplaceAll;
    if targets != [] {
      var head := targets[0];
      if head != "" && Occurs(fold, text, head) {
        ReplaceLeavesMark(fold, text, head, inMark);
        MarkSurvives(fold, ReplaceAll(fold, text, head), targets[1..], inMark);
      } else {
        MarkSurvives(fold, text, targets[1..], inMark);
      }
    }
  }

  ghost predicate SomeTargetOccurs(fold: Fold, text: string, targets: seq<string>) {
    exists t | t in targets :: t != "" && Occurs(fold, text, t)
  }

  lemma {:induction false} EvidenceMeansOccurrence(fold: Fold, text: string, targets: seq<string>)
    ensures Evidence(fold, text, targets) != [] <==> SomeTargetOccurs(fold, text, targets)
  {
    hide Occurs, Matches;
    if targets != [] {
      EvidenceMeansOccurrence(fold, text, targets[1..]);
      assert targets == [targets[0]] + targets[1..];
      var rest := Evidence(fold, text, targets[1..]);
      if SomeTargetOccurs(fold, text, targets[1..]) {
        var t :| t in targets[1..] && t != "" && Occurs(fold, text, t);
        assert t in targets;
      }
    }
  }

  /** An untriggered redaction changes nothing and saw nothing; a triggered one saw something. */
  lemma {:induction false} TriggeredMeansEvidence(fold: Fold, text: string, targets: seq<string>)
    ensures var r := RedactFrom(fold, text, targets);
            && (r.triggered <==> Evidence(fold, text, targets) != [])
            && (!r.triggered ==> r.text == text)
  {
    hide Occurs, Matches, ReplaceAll;
    if targets != [] {
      TriggeredMeansEvidence(fold, text, targets[1..]);
    }
  }

  /**
   When redaction is complete. If every target either keeps clear of the mark or sits inside it, the redacted
   text still shows evidence exactly when something was redacted and some target sits inside the mark.
   */
  lemma EvidenceAfterRedaction(fold: Fold, input: string, targets: seq<string>)
    requires forall t | t in targets && t != "" :: Settled(fold, t)
    ensures var r := RedactFrom(fold, input, targets);
            Evidence(fold, r.text, targets) != [] <==> r.triggered && SomeTargetOccurs(fold, MARK, targets)
  {
    hide Occurs, KeepsClear, RedactFrom, Evidence;
    var r := RedactFrom(fold, input, targets);
    TriggeredMeansEvidence(fold, input, targets);
    EvidenceMeansOccurrence(fold, r.text, targets);
    if r.triggered && SomeTargetOccurs(fold, MARK, targets) {
      var t :| t in targets && t != "" && Occurs(fold, MARK, t);
      MarkSurvives(fold, input, targets, t);
    }
    if SomeTargetOccurs(fold, r.text, targets) {
      var t :| t in targets && t != "" && Occurs(fold, r.text, t);
      if KeepsClear(fold, t) {
        TargetIsGone(fold, input, targets, t);
      }
    }
  }

  // ---------------------------------------------------------------- targets that can touch a mark

  /** Every character of the text folds unlike `c`. */
  predicate Unlike(fold: Fold, text: string, c: char) {
    forall k | 0 <= k < |text| :: fold(text[k]) != fold(c)
  }

  /** The target does not use up every character there is. */
  ghost predicate LeavesCharacterOut(fold: Fold, target: string) {
    exists c: char :: Unlike(fold, target, c)
  }

  /** Whatever the text and whatever the other targets, a redaction for this target removes it. */
  ghost predicate AlwaysGone(fold: Fold, target: string) {
    forall text: string, targets: seq<string> | target in targets ::
      !Occurs(fold, RedactFrom(fold, text, targets).text, target)
  }

  lemma MatchHasLikeCharacter(fold: Fold, text: string, target: string, i: nat, c: char, k: nat)
    requires MatchAt(fold, text, target, i) && i <= k < i + |target| && text[k] == c
    ensures !Unlike(fold, target, c)
  {
    assert fold(text[i + (k - i)]) == fold(target[k - i]);
  }

  lemma UnlikeStays(fold: Fold, text: string, c: char)
    requires Unlike(fold, text, c)
    ensures ReplaceAll(fold, text, [c]) == text
  {
    var i := FirstMatch(fold, text, [c], 0);
    if i <= |text| {
      MatchHasLikeCharacter(fold, text, [c], i, text[i], i);
    }
  }

  lemma OneCharacterReplaced(fold: Fold, left: string, c: char, right: string)
    requires Unlike(fold, left, c) && Unlike(fold, right, c)
    ensures Occurs(fold, left + [c] + right, [c])
    ensures ReplaceAll(fold, left + [c] + right, [c]) == left + MARK + right
  {
    var text := left + [c] + right;
    assert MatchAt(fold, text, [c], |left|);
    var i := FirstMatch(fold, text, [c], 0);
    if i < |left| {
      assert text[i] == left[i];
      MatchHasLikeCharacter(fold, text, [c], i, text[i], i);
    }
    assert text[..i] == left && text[i + |[c]|..] == right;
    UnlikeStays(fold, right, c);
  }

  /** Neither side is as long as the target, and the target does not use the character between them. */
  lemma TargetNotAround(fold: Fold, target: string, left: string, c: char, right: string)
    requires Unlike(fold, target, c) && |left| < |target| && |right| < |target|
    ensures !Occurs(fold, left + [c] + right, target)
  {
    var text := left + [c] + right;
    var i := FirstMatch(fold, text, target, 0);
    if i <= |text| { MatchHasLikeCharacter(fold, text, target, i, c, |left|); }
  }

  /** The parts of the target that stand out on either side of a mark it fits at `d`. */
  function LeftOf(target: string, d: int): string
    requires -|target| < d
  {
    if d < 0 then target[..-d] else ""
  }

  function RightOf(target: string, d: int): string
    requires d < |MARK|
  {
    if |MARK| < d + |target| then target[|MARK| - d..] else ""
  }

  lemma FitsAround(fold: Fold, target: string, d: int)
    requires FitsMarkAt(fold, target, d)
    ensures Occurs(fold, LeftOf(target, d) + MARK + RightOf(target, d), target)
  {
    var left, right := LeftOf(target, d), RightOf(target, d);
    var text := left + MARK + right;
    var i := |left| + d;
    forall j | 0 <= j < |target| ensures fold(text[i + j]) == fold(target[j]) {
      if 0 <= d + j < |MARK| {
        assert text[i + j] == MARK[d + j];
      }
    }
    OccursAt(fold, text, target, i);
  }

  lemma SecondTargetOnly(fold: Fold, text: string, first: string, second: string)
    requires second != "" && !Occurs(fold, text, first) && Occurs(fold, text, second)
    ensures RedactFrom(fold, text, [first, second]).text == ReplaceAll(fold, text, second)
  {
    hide Occurs, ReplaceAll;
    var next := ReplaceAll(fold, text, second);
    assert [first, second][1..] == [second] && [second][1..] == [];
    assert RedactFrom(fold, next, []).text == next;
    assert RedactFrom(fold, text, [second]).text == next;
  }

  /** A target that fits a mark comes back around the mark of a later target. */
  lemma TargetComesBack(fold: Fold, target: string, d: int, c: char)
    requires target != "" && -|target| < d < |MARK| && FitsMarkAt(fold, target, d) && Unlike(fold, target, c)
    ensures var text := LeftOf(target, d) + [c] + RightOf(target, d);
            Occurs(fold, RedactFrom(fold, text, [target, [c]]).text, target)
  {
    hide Occurs, MatchAt, ReplaceAll, FitsMarkAt;
    var left, right := LeftOf(target, d), RightOf(target, d);
    TargetNotAround(fold, target, left, c, right);
    OneCharacterReplaced(fold, left, c, right);
    SecondTargetOnly(fold, left + [c] + right, target, [c]);
    FitsAround(fold, target, d);
  }

  /**
   One pass is enough for exactly the targets that keep clear of the mark: each of them is gone from every
   redacted text, whatever else is redacted, and every other one survives in some redacted text.
   */
  lemma GoneExactlyWhenClear(fold: Fold, target: string)
    requires target != "" && LeavesCharacterOut(fold, target)
    ensures AlwaysGone(fold, target) <==> KeepsClear(fold, target)
  {
    hide Occurs, Unlike, FitsMarkAt, RedactFrom;
    if KeepsClear(fold, target) {
      forall text: string, targets: seq<string> | target in targets
        ensures !Occurs(fold, RedactFrom(fold, text, targets).text, target)
      {
        TargetIsGone(fold, text, targets, target);
      }
    } else {
      var d :| -|target| < d < |MARK| && FitsMarkAt(fold, target, d);
      var c: char :| Unlike(fold, target, c);
      TargetComesBack(fold, target, d, c);
      assert target in [target, [c]];
    }
  }

  // ---------------------------------------------------------------- targets without brackets

  /** Only the brackets fold to brackets. */
  ghost predicate KeepsBrackets(fold: Fold) {
    forall c: char :: (fold(c) == fold('[') ==> c == '[') && (fold(c) == fold(']') ==> c == ']')
  }

  predicate BracketFree(target: string) {
    '[' !in target && ']' !in target
  }

  /** A target without brackets can only meet a mark inside the word `redacted`. */
  lemma BracketFreeIsSettled(fold: Fold, target: string)
    requires KeepsBrackets(fold) && BracketFree(target) && target != ""
    ensures Settled(fold, target)
    ensures Occurs(fold, MARK, target) <==> Occurs(fold, "redacted", target)
  {
    hide MatchAt, FirstMatch, FitsMarkAt, KeepsBrackets, BracketFree;
    if !KeepsClear(fold, target) {
      var d :| -|target| < d < |MARK| && FitsMarkAt(fold, target, d);
      FitsInsideMark(fold, target, d);
    }
    if Occurs(fold, MARK, target) {
      var d := FirstMatch(fold, MARK, target, 0);
      assert "" + MARK + "" == MARK;
      OverlapFits(fold, "", "", target, d);
      FitsInsideMark(fold, target, d);
    }
    if Occurs(fold, "redacted", target) {
      OccursInPart(fold, "[", "redacted", "]", target);
      assert "[" + "redacted" + "]" == MARK;
    }
  }

  lemma NotAnEdge(fold: Fold, target: string, d: int, j: nat)
    requires KeepsBrackets(fold) && BracketFree(target) && FitsMarkAt(fold, target, d)
    requires j < |target| && 0 <= d + j < |MARK|
    ensures d + j != 0 && d + j != 9
  {
    assert fold(MARK[d + j]) == fold(target[j]) && target[j] in target;
    assert MARK[0] == '[' && MARK[9] == ']';
  }

  lemma FitsWithinMark(fold: Fold, target: string, d: nat)
    requires FitsMarkAt(fold, target, d) && d + |target| <= |MARK|
    ensures MatchAt(fold, MARK, target, d)
  {
  }

  lemma FitsInsideMark(fold: Fold, target: string, d: int)
    requires KeepsBrackets(fold) && BracketFree(target) && target != ""
    requires -|target| < d < |MARK| && FitsMarkAt(fold, target, d)
    ensures Occurs(fold, MARK, target) && Occurs(fold, "redacted", target)
  {
    hide MatchAt, FitsMarkAt, Occurs, KeepsBrackets, BracketFree;
    if d <= 0 { NotAnEdge(fold, target, d, -d); }
    if d + |target| > 9 { NotAnEdge(fold, target, d, 9 - d); }
    FitsWithinMark(fold, target, d);
    OccursAt(fold, MARK, target, d);
    assert MARK[1..9] == "redacted";
    MatchInSlice(fold, MARK, 1, "redacted", target, d - 1);
    OccursAt(fold, "redacted", target, d - 1);
  }

  /**
   For literal targets without brackets: no evidence survives redaction, whatever the input, unless the
   input triggers and some target is, up to case, part of the word `redacted`; then evidence always survives.
   */
  lemma RedactionIsComplete(fold: Fold, input: string, targets: seq<string>)
    requires KeepsBrackets(fold) && forall t | t in targets :: BracketFree(t)
    ensures var r := RedactFrom(fold, input, targets);
            && (r.triggered <==> Evidence(fold, input, targets) != [])
            && (Evidence(fold, r.text, targets) == []
                <==> !(r.triggered && SomeTargetOccurs(fold, "redacted", targets)))
  {
    hide Occurs, KeepsClear, RedactFrom, Evidence;
    forall t | t in targets && t != ""
      ensures Settled(fold, t) && (Occurs(fold, MARK, t) <==> Occurs(fold, "redacted", t))
    {
      BracketFreeIsSettled(fold, t);
    }
    EvidenceAfterRedaction(fold, input, targets);
    TriggeredMeansEvidence(fold, input, targets);
  }

  /** With a bracket in it, a target can come back across the edge of a later mark. */
  lemma BracketsCanComeBack()
    ensures var fold: Fold := c => c;
            var r := RedactFrom(fold, "asecret", ["a[", "secret"]);
            r.text == "a[redacted]" && Occurs(fold, r.text, "a[")
  {
    hide FirstMatch, MatchAt;
    var fold: Fold := c => c;
    var targets := ["a[", "secret"];
    BracketsMatches(fold);
    assert "asecret"[1 + 6..] == "" && "asecret"[..1] == "a";
    assert "a" + MARK + "" == "a[redacted]";
    assert targets[1..] == ["secret"] && ["secret"][1..] == [];
  }

  lemma BracketsMatches(fold: Fold)
    requires forall c :: fold(c) == c
    ensures !Occurs(fold, "asecret", "a[") && Occurs(fold, "a[redacted]", "a[")
    ensures FirstMatch(fold, "asecret", "secret", 0) == 1 && ReplaceAll(fold, "", "secret") == ""
  {
    forall j | 0 <= j <= 7 ensures !MatchAt(fold, "asecret", "a[", j) {
      assert "a["[1] == '[';
      if j + 2 <= 7 { assert fold("asecret"[j + 1]) != fold("a["[1]); }
    }
    OccursAt(fold, "a[redacted]", "a[", 0);
    assert fold("asecret"[0 + 0]) != fold("secret"[0]);
    assert MatchAt(fold, "asecret", "secret", 1);
  }
}
