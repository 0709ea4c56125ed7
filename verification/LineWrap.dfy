/** Greedy line wrapping: `wrapLines` of `apps/web/lib/share-card-svg.ts`. */
module LineWrap {

  /** The characters JavaScript's `\s` matches. */
  predicate IsSpace(c: char) {
    var u := c as int;
    || 9 <= u <= 13 || u == 32 || u == 160 || u == 0x1680 || 0x2000 <= u <= 0x200A
    || u == 0x2028 || u == 0x2029 || u == 0x202F || u == 0x205F || u == 0x3000 || u == 0xFEFF
  }

  /** ECMA-262, sections 12.2 and 12.3: tab to carriage return, the space separators, and three more. */
  lemma SpacesAreWhiteSpace(c: char)
    ensures IsSpace(c) <==>
            c in {'\t', '\n', '\U{000B}', '\U{000C}', '\r', ' ', '\U{00A0}', '\U{1680}',
                  '\U{2000}', '\U{2001}', '\U{2002}', '\U{2003}', '\U{2004}', '\U{2005}', '\U{2006}',
                  '\U{2007}', '\U{2008}', '\U{2009}', '\U{200A}',
                  '\U{2028}', '\U{2029}', '\U{202F}', '\U{205F}', '\U{3000}', '\U{FEFF}'}
  {
  }

  /** The length of the longest prefix free of white space. */
  function WordLength(s: string): (n: nat)
    ensures n <= |s| && (forall i | 0 <= i < n :: !IsSpace(s[i])) && (n < |s| ==> IsSpace(s[n]))
  {
    if s == "" || IsSpace(s[0]) then 0 else 1 + WordLength(s[1..])
  }

  /** `text.split(/\s+/).filter((w) => w.length > 0)`. */
  function Words(text: string): seq<string>
    decreases |text|
  {
    if text == "" then []
    else if IsSpace(text[0]) then Words(text[1..])
    else [text[..WordLength(text)]] + Words(text[WordLength(text)..])
  }

  ghost predicate IsWord(w: string) {
    w != "" && forall c | c in w :: !IsSpace(c)
  }

  function Join(ws: seq<string>): string {
    if ws == [] then "" else if |ws| == 1 then ws[0] else Join(ws[..|ws| - 1]) + " " + ws[|ws| - 1]
  }

  lemma {:induction false} WordsAreWords(text: string)
    ensures forall w | w in Words(text) :: IsWord(w)
    decreases |text|
  {
    if text != "" {
      if IsSpace(text[0]) {
        WordsAreWords(text[1..]);
      } else {
        WordsAreWords(text[WordLength(text)..]);
        var w := text[..WordLength(text)];
        assert forall c | c in w :: !IsSpace(c);
      }
    }
  }

  lemma {:induction false} WordThenRest(w: string, rest: string)
    requires IsWord(w) && (rest != "" ==> IsSpace(rest[0]))
    ensures Words(w + rest) == [w] + Words(rest)
  {
    var text := w + rest;
    assert forall i | 0 <= i < |w| :: text[i] == w[i] && w[i] in w;
    assert text[0] == w[0];
    assert rest != "" ==> text[|w|] == rest[0];
    assert text[..|w|] == w && text[|w|..] == rest;
  }

  /** Appending a word to a text. */
  lemma {:induction false} WordsOfAppend(text: string, w: string)
    requires IsWord(w)
    ensures Words(text + " " + w) == Words(text) + [w]
    decreases |text|
  {
    var all := text + " " + w;
    if text == "" {
      assert all == " " + w && all[1..] == w + "";
      WordThenRest(w, "");
    } else if IsSpace(text[0]) {
      assert all[1..] == text[1..] + " " + w;
      WordsOfAppend(text[1..], w);
    } else {
      var n := WordLength(text);
      var head, rest := text[..n], text[n..];
      assert forall c | c in head :: !IsSpace(c);
      assert all == head + (rest + " " + w);
      WordThenRest(head, rest + " " + w);
      WordsOfAppend(rest, w);
    }
  }

  /** A joined line splits back into its words. */
  lemma {:induction false} WordsOfJoin(ws: seq<string>)
    requires forall w | w in ws :: IsWord(w)
    ensures Words(Join(ws)) == ws
  {
    hide Words, IsWord;
    NoWords();
    if |ws| == 1 {
      WordThenRest(ws[0], "");
      assert ws[0] + "" == ws[0];
    } else if ws != [] {
      WordsOfJoin(ws[..|ws| - 1]);
      WordsOfAppend(Join(ws[..|ws| - 1]), ws[|ws| - 1]);
    }
  }

  lemma NoWords()
    ensures Words("") == []
  {
  }

  // ---------------------------------------------------------------- greedy lines

  /** `words` fit on one line, or are a single word. */
  ghost predicate FitsLine(words: seq<string>, maxChars: int) {
    |words| == 1 || (|words| > 1 && |Join(words)| <= maxChars)
  }

  /** The lines the loop would build from `current` on if it never stopped. */
  function Greedy(current: seq<string>, words: seq<string>, maxChars: int): (lines: seq<seq<string>>)
    requires current != []
    ensures lines != [] && current <= lines[0]
    ensures forall g | g in lines :: g != []
    decreases |words|
  {
    if words == [] then [current]
    else if |Join(current + [words[0]])| <= maxChars then Greedy(current + [words[0]], words[1..], maxChars)
    else [current] + Greedy([words[0]], words[1..], maxChars)
  }

  function GreedyLines(words: seq<string>, maxChars: int): (lines: seq<seq<string>>)
    ensures forall g | g in lines :: g != []
  {
    if words == [] then [] else Greedy([words[0]], words[1..], maxChars)
  }

  function JoinAll(lines: seq<seq<string>>): (r: seq<string>)
  {
    seq(|lines|, i requires 0 <= i < |lines| => Join(lines[i]))
  }

  predicate EndsWith(s: string, suffix: string) {
    |suffix| <= |s| && s[|s| - |suffix|..] == suffix
  }

  lemma EndsWithMeaning(s: string, suffix: string)
    ensures EndsWith(s, suffix) <==> exists front :: s == front + suffix
  {
    if EndsWith(s, suffix) {
      assert s == s[..|s| - |suffix|] + suffix;
    }
  }

  const ELLIPSIS := "\U{2026}"

  /** The last line once words had to be dropped. */
  function Truncate(last: string, maxChars: int): string {
    var keep := if maxChars - 1 > 0 then maxChars - 1 else 0;
    if |last| + 1 >= maxChars then (if keep < |last| then last[..keep] else last) + ELLIPSIS else last + ELLIPSIS
  }

  /** The kept lines, the last one marked unless it happens to end with the first dropped word. */
  function MarkDropped(kept: seq<string>, dropped: string, maxChars: int): seq<string>
    requires kept != []
  {
    var last := kept[|kept| - 1];
    if EndsWith(last, dropped) then kept else kept[|kept| - 1 := Truncate(last, maxChars)]
  }

  /** What wrapping gives, said of the greedy lines. */
  function Wrapped(words: seq<string>, maxChars: int, maxLines: int): seq<string> {
    var all := GreedyLines(words, maxChars);
    if maxLines <= 0 then JoinAll(if all == [] then [] else all[..|all| - 1])
    else if |all| <= maxLines then JoinAll(all)
    else
      assert all[maxLines] in all;
      MarkDropped(JoinAll(all[..maxLines]), all[maxLines][0], maxChars)
  }

  lemma JoinOne(open: seq<string>, word: string)
    ensures Join(open + [word]) == if open == [] then word else Join(open) + " " + word
  {
    assert (open + [word])[..|open|] == open;
  }

  /** One more round of the loop, seen from the greedy lines. */
  lemma GreedyStep(done: seq<seq<string>>, open: seq<string>, words: seq<string>, i: nat, maxChars: int)
    requires open != [] && i < |words| && |Join(open)| > 0
    ensures done + Greedy(open, words[i..], maxChars) ==
            if |Join(open)| + 1 + |words[i]| <= maxChars
            then done + Greedy(open + [words[i]], words[i + 1..], maxChars)
            else done + [open] + Greedy([words[i]], words[i + 1..], maxChars)
  {
    JoinOne(open, words[i]);
    assert words[i..][0] == words[i] && words[i..][1..] == words[i + 1..];
    var rest := Greedy([words[i]], words[i + 1..], maxChars);
    assert done + ([open] + rest) == done + [open] + rest;
  }

  method WrapLines(text: string, maxChars: int, maxLines: int) returns (lines: seq<string>)
    ensures lines == Wrapped(Words(text), maxChars, maxLines)
  {
    hide Words, Join, IsWord, Truncate, EndsWith, Greedy;
    var words := Words(text);
    WordsAreWords(text);
    ghost var all := GreedyLines(words, maxChars);
    lines := [];
    var current := "";
    ghost var done: seq<seq<string>> := [];
    ghost var open: seq<string> := [];
    var i := 0;
    ghost var stopped := false;
    while i < |words|
      invariant 0 <= i <= |words|
      invariant lines == JoinAll(done)
      invariant !stopped
      invariant i == 0 ==> done == [] && open == [] && current == ""
      invariant i > 0 ==> open != [] && current == Join(open) && |current| > 0
      invariant i > 0 ==> done + Greedy(open, words[i..], maxChars) == all
      invariant maxLines > 0 ==> |done| < maxLines
    {
      var word := words[i];
      assert word in words && IsWord(word);
      WordIsNotEmpty(word);
      JoinOne(open, word);
      JoinOne([], word);
      assert [] + [word] == [word];
      if |current| == 0 {
        current := word;
        open := [word];
      } else {
        GreedyStep(done, open, words, i, maxChars);
        if |current| + 1 + |word| <= maxChars {
          current := current + " " + word;
          open := open + [word];
        } else {
          lines := lines + [current];
          done := done + [open];
          current := word;
          open := [word];
          if |lines| == maxLines {
            stopped := true;
            i := i + 1;
            break;
          }
        }
      }
      i := i + 1;
    }
    if words == [] { return; }
    ghost var rest := Greedy(open, words[i..], maxChars);
    if stopped {
      assert rest[0][0] == current;
      assert lines == JoinAll(all[..maxLines]);
    } else {
      assert words[i..] == [];
      LastLine(open, words[i..], maxChars);
      assert all == done + [open] && all[..|all| - 1] == done;
      assert JoinAll(all) == lines + [current];
    }
    if |lines| < maxLines && |current| > 0 {
      lines := lines + [current];
      done := done + [open];
    }
    if |lines| == maxLines && |current| > 0 {
      // With maxLines 0 the source assigns to the array property "-1", which is not an element.
      if maxLines > 0 {
        ghost var kept := lines;
        var last := lines[maxLines - 1];
        SelfSuffix(last);
        if !EndsWith(last, current) {
          lines := lines[maxLines - 1 := Truncate(last, maxChars)];
        }
        assert lines == MarkDropped(kept, current, maxChars);
        assert !stopped ==> lines == kept;
      }
    }
  }

  lemma LastLine(open: seq<string>, rest: seq<string>, maxChars: int)
    requires open != []
    ensures rest == [] ==> Greedy(open, rest, maxChars) == [open]
  {
  }

  lemma WrappedOverflow(words: seq<string>, maxChars: int, maxLines: int)
    requires 0 < maxLines < |GreedyLines(words, maxChars)|
    ensures var all := GreedyLines(words, maxChars);
            && all[maxLines] != []
            && Wrapped(words, maxChars, maxLines)
            == MarkDropped(JoinAll(all[..maxLines]), all[maxLines][0], maxChars)
  {
    hide GreedyLines, MarkDropped;
    var all := GreedyLines(words, maxChars);
    assert all[maxLines] in all;
  }

  lemma SelfSuffix(s: string)
    ensures EndsWith(s, s)
  {
  }

  lemma WordIsNotEmpty(w: string)
    requires IsWord(w)
    ensures |w| > 0
  {
  }

  // ---------------------------------------------------------------- greedy is optimal

  function Flatten(groups: seq<seq<string>>): seq<string> {
    if groups == [] then [] else groups[0] + Flatten(groups[1..])
  }

  /** A division of the words, in order, into lines that fit. */
  ghost predicate IsLayout(groups: seq<seq<string>>, words: seq<string>, maxChars: int) {
    Flatten(groups) == words && forall g | g in groups :: FitsLine(g, maxChars)
  }

  lemma {:induction false} GreedyIsLayout(current: seq<string>, words: seq<string>, maxChars: int)
    requires FitsLine(current, maxChars)
    ensures IsLayout(Greedy(current, words, maxChars), current + words, maxChars)
    decreases |words|
  {
    hide Join;
    if words == [] {
      assert Flatten([current]) == current + [] && current + words == current;
    } else if |Join(current + [words[0]])| <= maxChars {
      GreedyIsLayout(current + [words[0]], words[1..], maxChars);
      assert current + [words[0]] + words[1..] == current + words;
    } else {
      GreedyIsLayout([words[0]], words[1..], maxChars);
      var rest := Greedy([words[0]], words[1..], maxChars);
      assert ([current] + rest)[1..] == rest;
      assert [words[0]] + words[1..] == words;
    }
  }

  /** The first greedy line takes at least as many words as fit. */
  lemma {:induction false} GreedyTakes(current: seq<string>, words: seq<string>, maxChars: int, n: nat)
    returns (m: nat)
    requires current != [] && n <= |words| && (n > 0 ==> |Join(current + words[..n])| <= maxChars)
    ensures n <= m <= |words|
    ensures Greedy(current, words, maxChars) == [current + words[..m]] + GreedyLines(words[m..], maxChars)
    decreases |words|
  {
    hide Join;
    if words == [] {
      m := 0;
      assert current + [] == current;
    } else if |Join(current + [words[0]])| <= maxChars {
      var current' := current + [words[0]];
      var n' := if n == 0 then 0 else n - 1;
      assert n > 0 ==> current' + words[1..][..n'] == current + words[..n];
      m := GreedyTakes(current', words[1..], maxChars, n');
      assert words[..m + 1] == [words[0]] + words[1..][..m];
      assert current' + words[1..][..m] == current + words[..m + 1];
      assert words[1..][m..] == words[m + 1..];
      m := m + 1;
    } else {
      m := 0;
      assert n > 0 ==> words[..n][..1] == [words[0]];
      if n > 0 { ShorterJoin(current, words[..n], 1); }
      assert current + words[..0] == current && words[0..] == words;
    }
  }

  lemma {:induction false} JoinLength(a: seq<string>, w: string)
    ensures |Join(a + [w])| >= |Join(a)| + |w|
  {
    assert (a + [w])[..|a|] == a;
  }

  /** Dropping words from the end does not lengthen a line. */
  lemma {:induction false} ShorterJoin(a: seq<string>, b: seq<string>, k: nat)
    requires k <= |b|
    ensures |Join(a + b[..k])| <= |Join(a + b)|
    decreases |b| - k
  {
    if k == |b| {
      assert b[..k] == b;
    } else {
      ShorterJoin(a, b, k + 1);
      assert a + b[..k + 1] == a + b[..k] + [b[k]];
      JoinLength(a + b[..k], b[k]);
    }
  }

  /** Nor does dropping words from the front. */
  lemma {:induction false} SuffixJoin(g: seq<string>, k: nat)
    requires k <= |g|
    ensures |Join(g[k..])| <= |Join(g)|
    decreases |g|
  {
    if k == |g| {
      assert g[k..] == [];
    } else if |g| > 1 && k < |g| - 1 {
      var front := g[..|g| - 1];
      SuffixJoin(front, k);
      assert g[k..][..|g| - 1 - k] == front[k..];
    } else if |g| > 1 {
      assert g[k..] == [g[|g| - 1]];
    } else {
      assert g[k..] == g;
    }
  }

  /** From any later point in the text, greedy needs no more lines than any layout of the whole. */
  lemma {:induction false} GreedyStaysAhead(groups: seq<seq<string>>, words: seq<string>, maxChars: int, d: nat)
    requires IsLayout(groups, words, maxChars) && d <= |words|
    ensures |GreedyLines(words[d..], maxChars)| <= |groups|
    decreases |groups|
  {
    hide Join, Greedy;
    if groups == [] {
      assert words[d..] == [];
    } else {
      var g, rest := groups[0], Flatten(groups[1..]);
      assert words == g + rest && FitsLine(g, maxChars);
      if d >= |g| {
        assert words[d..] == rest[d - |g|..];
        GreedyStaysAhead(groups[1..], rest, maxChars, d - |g|);
      } else {
        var tail := words[d..];
        var n := |g| - d - 1;
        assert [tail[0]] + tail[1..][..n] == g[d..];
        if n > 0 { SuffixJoin(g, d); }
        var m := GreedyTakes([tail[0]], tail[1..], maxChars, n);
        assert tail[1..][m..] == rest[m - n..];
        GreedyStaysAhead(groups[1..], rest, maxChars, m - n);
      }
    }
  }

  /** No layout has fewer lines than the greedy one. */
  lemma GreedyIsOptimal(words: seq<string>, maxChars: int)
    ensures IsLayout(GreedyLines(words, maxChars), words, maxChars)
    ensures forall groups | IsLayout(groups, words, maxChars) :: |GreedyLines(words, maxChars)| <= |groups|
  {
    if words != [] {
      GreedyIsLayout([words[0]], words[1..], maxChars);
      assert [words[0]] + words[1..] == words;
    }
    forall groups | IsLayout(groups, words, maxChars)
      ensures |GreedyLines(words, maxChars)| <= |groups|
    {
      GreedyStaysAhead(groups, words, maxChars, 0);
      assert words[0..] == words;
    }
  }

  // ---------------------------------------------------------------- what wrapping keeps

  function WordsOfLines(lines: seq<string>): seq<string> {
    if lines == [] then [] else Words(lines[0]) + WordsOfLines(lines[1..])
  }

  lemma {:induction false} JoinedLinesKeepWords(groups: seq<seq<string>>)
    requires forall w | w in Flatten(groups) :: IsWord(w)
    ensures WordsOfLines(JoinAll(groups)) == Flatten(groups)
  {
    if groups != [] {
      var g, rest := groups[0], groups[1..];
      assert forall w | w in g :: w in Flatten(groups);
      assert forall w | w in Flatten(rest) :: w in Flatten(groups);
      WordsOfJoin(g);
      assert JoinAll(groups)[1..] == JoinAll(rest);
      JoinedLinesKeepWords(rest);
    }
  }

  ghost predicate FitsIn(words: seq<string>, maxChars: int, maxLines: int) {
    exists groups :: IsLayout(groups, words, maxChars) && |groups| <= maxLines
  }

  lemma FitsInIffGreedyDoes(words: seq<string>, maxChars: int, maxLines: int)
    ensures FitsIn(words, maxChars, maxLines) <==> |GreedyLines(words, maxChars)| <= maxLines
  {
    GreedyIsOptimal(words, maxChars);
  }

  /**
   If the words can be laid out in `maxLines` lines at all, wrapping keeps every word in order, and no layout
   has fewer lines.
   */
  lemma WrappingIsOptimal(text: string, maxChars: int, maxLines: int)
    requires maxLines >= 1 && FitsIn(Words(text), maxChars, maxLines)
    ensures var lines := Wrapped(Words(text), maxChars, maxLines);
            && WordsOfLines(lines) == Words(text)
            && |lines| <= maxLines
            && forall groups | IsLayout(groups, Words(text), maxChars) :: |lines| <= |groups|
  {
    hide Words, IsWord, GreedyLines;
    var words := Words(text);
    GreedyIsOptimal(words, maxChars);
    FitsInIffGreedyDoes(words, maxChars, maxLines);
    WordsAreWords(text);
    JoinedLinesKeepWords(GreedyLines(words, maxChars));
  }

  lemma {:induction false} FlattenPrefix(groups: seq<seq<string>>, k: nat)
    requires k <= |groups|
    ensures Flatten(groups[..k]) <= Flatten(groups)
    ensures k < |groups| && groups[k] != [] ==> |Flatten(groups[..k])| < |Flatten(groups)|
  {
    if k > 0 {
      FlattenPrefix(groups[1..], k - 1);
      assert groups[..k][1..] == groups[1..][..k - 1];
    }
  }

  /**
   Otherwise there are exactly `maxLines` lines, which before truncation hold a proper prefix of the words; only
   the last one is changed, to at most `maxChars` characters (one, if that is less than one), and only when it
   does not happen to end with the first dropped word.
   */
  lemma OverflowKeepsPrefix(text: string, maxChars: int, maxLines: int)
    requires maxLines >= 1
    ensures var all := GreedyLines(Words(text), maxChars);
            !FitsIn(Words(text), maxChars, maxLines) ==>
            && maxLines < |all| && all[maxLines] != []
            && WordsOfLines(JoinAll(all[..maxLines])) < Words(text)
            && MarkedLast(JoinAll(all[..maxLines]), Wrapped(Words(text), maxChars, maxLines), all[maxLines][0],
                          maxChars)
  {
    hide Words, IsWord, GreedyLines, Join, FitsIn, MarkedLast, MarkDropped;
    var words := Words(text);
    var all := GreedyLines(words, maxChars);
    FitsInIffGreedyDoes(words, maxChars, maxLines);
    if maxLines < |all| {
      PrefixOfWords(text, maxChars, maxLines);
      WrappedOverflow(words, maxChars, maxLines);
      MarkDroppedShape(JoinAll(all[..maxLines]), all[maxLines][0], maxChars);
    }
  }

  /**
   At most the last line differs: unless it ends with the first dropped word it is a prefix of the kept line, as much
   as fits, and an ellipsis.
   */
  ghost predicate MarkedLast(kept: seq<string>, lines: seq<string>, dropped: string, maxChars: int) {
    && kept != [] && |lines| == |kept|
    && (forall i | 0 <= i < |kept| - 1 :: lines[i] == kept[i])
    && if EndsWith(kept[|kept| - 1], dropped) then lines == kept
       else IsCutTo(kept[|kept| - 1], lines[|kept| - 1], if maxChars > 1 then maxChars else 1)
  }

  /** The longest prefix of the line that leaves room for the ellipsis, and the ellipsis. */
  ghost predicate IsCutTo(line: string, cut: string, room: nat) {
    && 1 <= |cut| <= room && cut[|cut| - 1] == '\U{2026}' && cut[..|cut| - 1] <= line
    && (|cut| < room ==> cut[..|cut| - 1] == line)
  }

  lemma MarkDroppedShape(kept: seq<string>, dropped: string, maxChars: int)
    requires kept != []
    ensures MarkedLast(kept, MarkDropped(kept, dropped, maxChars), dropped, maxChars)
  {
    hide EndsWith, Truncate;
    TruncatedIsCut(kept[|kept| - 1], maxChars);
  }

  lemma PrefixOfWords(text: string, maxChars: int, k: nat)
    requires k < |GreedyLines(Words(text), maxChars)|
    ensures WordsOfLines(JoinAll(GreedyLines(Words(text), maxChars)[..k])) < Words(text)
  {
    hide Words, IsWord, GreedyLines, Join;
    var all := GreedyLines(Words(text), maxChars);
    GreedyIsOptimal(Words(text), maxChars);
    FlattenPrefix(all, k);
    WordsAreWords(text);
    assert all[k] in all;
    JoinedLinesKeepWords(all[..k]);
  }

  lemma TruncatedIsCut(last: string, maxChars: int)
    ensures IsCutTo(last, Truncate(last, maxChars), if maxChars > 1 then maxChars else 1)
  {
    assert last == last[..|last|];
  }

  /** A word of 28 or more characters, five times in an insight: the fifth is dropped without a mark. */
  lemma DroppedWordCanGoUnmarked(w: string)
    requires |w| >= 28
    ensures Wrapped([w, w, w, w, w], 56, 4) == [w, w, w, w]
  {
    hide Wrapped, Greedy;
    forall k: nat | k <= 4 ensures Greedy([w], Copies(w, k), 56) == LinesOf(w, k + 1) {
      OneWordALine(w, k);
    }
    assert [w, w, w, w, w][1..] == [w, w, w, w] == Copies(w, 4);
    FourKept(w);
  }

  function Copies(w: string, n: nat): seq<string> {
    seq(n, i => w)
  }

  function LinesOf(w: string, n: nat): seq<seq<string>> {
    seq(n, i => [w])
  }

  lemma {:induction false} OneWordALine(w: string, k: nat)
    requires |w| >= 28
    ensures Greedy([w], Copies(w, k), 56) == LinesOf(w, k + 1)
  {
    if k > 0 {
      OneWordALine(w, k - 1);
      assert Copies(w, k)[1..] == Copies(w, k - 1);
      JoinOne([w], w);
      assert |Join([w] + [w])| > 56;
      assert [[w]] + LinesOf(w, k) == LinesOf(w, k + 1);
    }
  }

  lemma FourKept(w: string)
    requires GreedyLines([w, w, w, w, w], 56) == LinesOf(w, 5)
    ensures Wrapped([w, w, w, w, w], 56, 4) == [w, w, w, w]
  {
    hide GreedyLines;
    assert LinesOf(w, 5)[..4] == LinesOf(w, 4);
    assert JoinAll(LinesOf(w, 4)) == [w, w, w, w];
    SelfSuffix(w);
  }

  /** The limit on lines is kept for every positive limit, and for zero when there is at most one line. */
  lemma LineLimitHolds(words: seq<string>, maxChars: int, maxLines: int)
    ensures |Wrapped(words, maxChars, maxLines)| <= maxLines <==>
            maxLines >= 1 || (maxLines == 0 && |GreedyLines(words, maxChars)| <= 1)
  {
    hide GreedyLines;
  }
}
