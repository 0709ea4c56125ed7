/**
 Capped capture and line splitting of a child's output: the `drainStream` closure of
 `apps/runner/src/sandboxes/local-fs.ts`. Chunks are sequences of already decoded characters.
 */
module StreamCapture {

  const NEWLINE := '\n'

  /** `scrub` is the log scrubber; lines are only emitted when `logging`, that is, when there is a listener. */
  datatype Config = Config(maxBufferBytes: nat, logging: bool, scrub: string -> string)

  datatype State = State(chunks: seq<string>, bytes: nat, truncated: bool, lineBuf: string, emitted: seq<string>)

  const START := State([], 0, false, "", [])

  // ---------------------------------------------------------------- lines

  function FirstNewline(s: string): (i: nat)
    ensures i <= |s|
    ensures i < |s| ==> s[i] == NEWLINE
    ensures forall j | 0 <= j < i :: s[j] != NEWLINE
  {
    if s == "" || s[0] == NEWLINE then 0 else 1 + FirstNewline(s[1..])
  }

  /** The lines that end in a newline, without it. */
  function CompleteLines(s: string): seq<string>
    decreases |s|
  {
    var i := FirstNewline(s);
    if i == |s| then [] else [s[..i]] + CompleteLines(s[i + 1..])
  }

  /** What follows the last newline. */
  function Remainder(s: string): string
    decreases |s|
  {
    var i := FirstNewline(s);
    if i == |s| then s else Remainder(s[i + 1..])
  }

  /** All lines: a last one without a newline counts unless it is empty. */
  function Lines(s: string): seq<string> {
    CompleteLines(s) + if Remainder(s) == "" then [] else [Remainder(s)]
  }

  function Unlines(lines: seq<string>): string {
    if lines == [] then "" else lines[0] + [NEWLINE] + Unlines(lines[1..])
  }

  lemma SplitOnce(s: string)
    requires FirstNewline(s) < |s|
    ensures var line, rest := s[..FirstNewline(s)], s[FirstNewline(s) + 1..];
            && CompleteLines(s) == [line] + CompleteLines(rest) && Remainder(s) == Remainder(rest)
            && s == line + [NEWLINE] + rest && NEWLINE !in line
  {
    hide FirstNewline;
    CutAt(s, FirstNewline(s));
  }

  lemma CutAt(s: string, i: nat)
    requires i < |s|
    ensures s == s[..i] + [s[i]] + s[i + 1..]
  {
  }

  lemma NoSplit(s: string)
    requires FirstNewline(s) == |s|
    ensures CompleteLines(s) == [] && Remainder(s) == s && NEWLINE !in s
  {
  }

  lemma UnlinesOneMore(line: string, lines: seq<string>, last: string)
    ensures Unlines([line] + lines) + last == line + [NEWLINE] + (Unlines(lines) + last)
  {
    assert ([line] + lines)[1..] == lines;
  }

  /** The lines and the remainder are the text, cut at every newline and nowhere else. */
  lemma {:induction false} LinesAreTheText(s: string)
    ensures Unlines(CompleteLines(s)) + Remainder(s) == s
    ensures NEWLINE !in Remainder(s) && forall line | line in CompleteLines(s) :: NEWLINE !in line
    decreases |s|
  {
    hide FirstNewline, CompleteLines, Remainder;
    var i := FirstNewline(s);
    if i == |s| {
      NoSplit(s);
    } else {
      hide Unlines;
      var line, rest := s[..i], s[i + 1..];
      SplitOnce(s);
      LinesAreTheText(rest);
      UnlinesOneMore(line, CompleteLines(rest), Remainder(rest));
    }
  }

  /** Splitting can be resumed from the remainder. */
  lemma {:induction false} LinesOfConcat(s: string, t: string)
    ensures CompleteLines(s + t) == CompleteLines(s) + CompleteLines(Remainder(s) + t)
    ensures Remainder(s + t) == Remainder(Remainder(s) + t)
    decreases |s|
  {
    hide FirstNewline, CompleteLines, Remainder;
    var i := FirstNewline(s);
    if i == |s| {
      NoSplit(s);
    } else {
      var rest := s[i + 1..];
      SplitOnce(s);
      FirstNewlineStays(s, t);
      SplitOnce(s + t);
      assert (s + t)[..i] == s[..i] && (s + t)[i + 1..] == rest + t;
      LinesOfConcat(rest, t);
    }
  }

  lemma FirstNewlineStays(s: string, t: string)
    requires FirstNewline(s) < |s|
    ensures FirstNewline(s + t) == FirstNewline(s)
  {
    hide FirstNewline;
    assert forall k | 0 <= k <= FirstNewline(s) :: (s + t)[k] == s[k];
  }

  function ScrubAll(cfg: Config, lines: seq<string>): seq<string> {
    seq(|lines|, i requires 0 <= i < |lines| => cfg.scrub(lines[i]))
  }

  lemma TakeLine(cfg: Config, emitted: seq<string>, buf: string)
    requires FirstNewline(buf) < |buf|
    ensures var i := FirstNewline(buf);
            && Remainder(buf) == Remainder(buf[i + 1..])
            && emitted + ScrubAll(cfg, CompleteLines(buf))
            == emitted + [cfg.scrub(buf[..i])] + ScrubAll(cfg, CompleteLines(buf[i + 1..]))
  {
    hide ScrubAll, FirstNewline, CompleteLines, Remainder;
    var i := FirstNewline(buf);
    SplitOnce(buf);
    ScrubFirst(cfg, emitted, buf[..i], CompleteLines(buf[i + 1..]));
  }

  lemma ScrubFirst(cfg: Config, emitted: seq<string>, line: string, rest: seq<string>)
    ensures emitted + ScrubAll(cfg, [line] + rest) == emitted + [cfg.scrub(line)] + ScrubAll(cfg, rest)
  {
    var all := [line] + rest;
    assert ScrubAll(cfg, all) == [cfg.scrub(line)] + ScrubAll(cfg, rest);
  }

  lemma NoMoreLines(cfg: Config, emitted: seq<string>, buf: string)
    requires FirstNewline(buf) == |buf|
    ensures Remainder(buf) == buf && emitted + ScrubAll(cfg, CompleteLines(buf)) == emitted
  {
  }

  // ---------------------------------------------------------------- the closure

  function OnData(cfg: Config, s: State, chunk: string): State {
    var captured :=
      if s.bytes + |chunk| > cfg.maxBufferBytes then
        var remaining := if cfg.maxBufferBytes > s.bytes then cfg.maxBufferBytes - s.bytes else 0;
        s.(chunks := s.chunks + if remaining > 0 then [chunk[..remaining]] else [],
           bytes := cfg.maxBufferBytes, truncated := true)
      else s.(chunks := s.chunks + [chunk], bytes := s.bytes + |chunk|);
    if !cfg.logging then captured
    else
      captured.(lineBuf := Remainder(s.lineBuf + chunk),
                emitted := s.emitted + ScrubAll(cfg, CompleteLines(s.lineBuf + chunk)))
  }

  function OnEnd(cfg: Config, s: State): State {
    if cfg.logging && s.lineBuf != "" then s.(lineBuf := "", emitted := s.emitted + [cfg.scrub(s.lineBuf)]) else s
  }

  class Drain {
    const cfg: Config
    var chunks: seq<string>
    var bytes: nat
    var truncated: bool
    var lineBuf: string
    var emitted: seq<string>

    ghost function Abstract(): State
      reads this
    {
      State(chunks, bytes, truncated, lineBuf, emitted)
    }

    constructor (cfg: Config)
      ensures this.cfg == cfg && Abstract() == START
    {
      this.cfg := cfg;
      chunks, bytes, truncated, lineBuf, emitted := [], 0, false, "", [];
    }

    method Data(chunk: string)
      modifies this
      ensures Abstract() == OnData(cfg, old(Abstract()), chunk)
    {
      hide CompleteLines, Remainder;
      if bytes + |chunk| > cfg.maxBufferBytes {
        var remaining := if cfg.maxBufferBytes > bytes then cfg.maxBufferBytes - bytes else 0;
        if remaining > 0 {
          chunks := chunks + [chunk[..remaining]];
        }
        bytes := cfg.maxBufferBytes;
        truncated := true;
      } else {
        chunks := chunks + [chunk];
        bytes := bytes + |chunk|;
      }
      if cfg.logging {
        lineBuf := lineBuf + chunk;
        EmitLines();
      }
    }

    method EmitLines()
      modifies this`lineBuf, this`emitted
      ensures lineBuf == Remainder(old(lineBuf))
      ensures emitted == old(emitted) + ScrubAll(cfg, CompleteLines(old(lineBuf)))
    {
      hide CompleteLines, Remainder, ScrubAll, FirstNewline;
      var idx := FirstNewline(lineBuf);
      while idx < |lineBuf|
        invariant idx == FirstNewline(lineBuf)
        invariant Remainder(lineBuf) == Remainder(old(lineBuf))
        invariant emitted + ScrubAll(cfg, CompleteLines(lineBuf))
               == old(emitted) + ScrubAll(cfg, CompleteLines(old(lineBuf)))
        decreases |lineBuf|
      {
        var line := lineBuf[..idx];
        TakeLine(cfg, emitted, lineBuf);
        lineBuf := lineBuf[idx + 1..];
        emitted := emitted + [cfg.scrub(line)];
        idx := FirstNewline(lineBuf);
      }
      NoMoreLines(cfg, emitted, lineBuf);
    }

    method End()
      modifies this
      ensures Abstract() == OnEnd(cfg, old(Abstract()))
    {
      if cfg.logging && |lineBuf| > 0 {
        emitted := emitted + [cfg.scrub(lineBuf)];
        lineBuf := "";
      }
    }
  }

  // ---------------------------------------------------------------- chunking does not matter

  function Concat(chunks: seq<string>): string {
    if chunks == [] then "" else Concat(chunks[..|chunks| - 1]) + chunks[|chunks| - 1]
  }

  function Feed(cfg: Config, chunks: seq<string>): State {
    if chunks == [] then START else OnData(cfg, Feed(cfg, chunks[..|chunks| - 1]), chunks[|chunks| - 1])
  }

  function Prefix(s: string, n: nat): string {
    if n < |s| then s[..n] else s
  }

  /** What the state says about the text so far. */
  ghost predicate Captures(cfg: Config, s: State, text: string) {
    && Concat(s.chunks) == Prefix(text, cfg.maxBufferBytes)
    && s.bytes == |Prefix(text, cfg.maxBufferBytes)|
    && (s.truncated <==> |text| > cfg.maxBufferBytes)
    && (if cfg.logging then s.lineBuf == Remainder(text) && s.emitted == ScrubAll(cfg, CompleteLines(text))
        else s.lineBuf == "" && s.emitted == [])
  }

  lemma ConcatOneMore(chunks: seq<string>, c: string)
    ensures Concat(chunks + [c]) == Concat(chunks) + c
  {
    assert (chunks + [c])[..|chunks|] == chunks;
  }

  lemma ScrubOfConcat(cfg: Config, a: seq<string>, b: seq<string>)
    ensures ScrubAll(cfg, a + b) == ScrubAll(cfg, a) + ScrubAll(cfg, b)
  {
  }

  lemma OnDataCaptures(cfg: Config, s: State, text: string, chunk: string)
    requires Captures(cfg, s, text)
    ensures Captures(cfg, OnData(cfg, s, chunk), text + chunk)
  {
    hide CompleteLines, Remainder, Concat, ScrubAll;
    LinesOfConcat(text, chunk);
    ScrubOfConcat(cfg, CompleteLines(text), CompleteLines(Remainder(text) + chunk));
    BytesCaptured(cfg, s, text, chunk);
  }

  lemma BytesCaptured(cfg: Config, s: State, text: string, chunk: string)
    requires Captures(cfg, s, text)
    ensures var s' := OnData(cfg, s, chunk);
            && Concat(s'.chunks) == Prefix(text + chunk, cfg.maxBufferBytes)
            && s'.bytes == |Prefix(text + chunk, cfg.maxBufferBytes)|
            && (s'.truncated <==> |text + chunk| > cfg.maxBufferBytes)
  {
    hide CompleteLines, Remainder, ScrubAll, Concat;
    var remaining := cfg.maxBufferBytes - s.bytes;
    if s.bytes + |chunk| > cfg.maxBufferBytes {
      if remaining > 0 {
        ConcatOneMore(s.chunks, chunk[..remaining]);
        assert text + chunk[..remaining] == (text + chunk)[..cfg.maxBufferBytes];
      } else {
        assert s.chunks + [] == s.chunks;
        assert Prefix(text, cfg.maxBufferBytes) == Prefix(text + chunk, cfg.maxBufferBytes);
      }
    } else {
      ConcatOneMore(s.chunks, chunk);
      if |text| > cfg.maxBufferBytes {
        assert chunk == "" && text + chunk == text;
      }
    }
  }

  lemma {:induction false} FeedCaptures(cfg: Config, chunks: seq<string>)
    ensures Captures(cfg, Feed(cfg, chunks), Concat(chunks))
  {
    if chunks == [] {
    } else {
      hide OnData, Captures;
      var front := chunks[..|chunks| - 1];
      FeedCaptures(cfg, front);
      OnDataCaptures(cfg, Feed(cfg, front), Concat(front), chunks[|chunks| - 1]);
    }
  }

  /**
   However a text is cut into chunks: what is captured is its prefix of at most the cap, the truncation flag is
   set exactly when the text is longer, and the lines emitted are the scrubbed lines of the whole text.
   */
  lemma ChunkingDoesNotMatter(cfg: Config, chunks: seq<string>, text: string)
    requires Concat(chunks) == text
    ensures var s := OnEnd(cfg, Feed(cfg, chunks));
            && Concat(s.chunks) == Prefix(text, cfg.maxBufferBytes)
            && (s.truncated <==> |text| > cfg.maxBufferBytes)
            && s.emitted == if cfg.logging then ScrubAll(cfg, Lines(text)) else []
  {
    hide Feed, Concat, CompleteLines, Remainder;
    FeedCaptures(cfg, chunks);
    ScrubOfConcat(cfg, CompleteLines(text), [Remainder(text)]);
    assert CompleteLines(text) + [] == CompleteLines(text);
  }
}
