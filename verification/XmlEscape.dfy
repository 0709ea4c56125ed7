/** `escapeXml` of `apps/web/lib/share-card-svg.ts`, undone by the predefined entities of XML 1.0, section 4.6. */
module XmlEscape {

  /** `s.replace(/c/g, sub)` for a single character. */
  function ReplaceChar(s: string, c: char, sub: string): string {
    if s == "" then "" else (if s[0] == c then sub else [s[0]]) + ReplaceChar(s[1..], c, sub)
  }

  /** The five replacements, the ampersand first. */
  function EscapeXml(value: string): string {
    var a := ReplaceChar(value, '&', "&amp;");
    var b := ReplaceChar(a, '<', "&lt;");
    var c := ReplaceChar(b, '>', "&gt;");
    var d := ReplaceChar(c, '"', "&quot;");
    ReplaceChar(d, '\'', "&apos;")
  }

  function Entity(c: char): string {
    match c
    case '&' => "&amp;"
    case '<' => "&lt;"
    case '>' => "&gt;"
    case '"' => "&quot;"
    case '\'' => "&apos;"
    case _ => [c]
  }

  function EscapeEach(s: string): string {
    if s == "" then "" else Entity(s[0]) + EscapeEach(s[1..])
  }

  /** Replace references to the predefined entities by their characters. */
  function Decode(s: string): string
    decreases |s|
  {
    if s == "" then ""
    else if "&amp;" <= s then "&" + Decode(s[5..])
    else if "&lt;" <= s then "<" + Decode(s[4..])
    else if "&gt;" <= s then ">" + Decode(s[4..])
    else if "&quot;" <= s then "\"" + Decode(s[6..])
    else if "&apos;" <= s then "'" + Decode(s[6..])
    else [s[0]] + Decode(s[1..])
  }

  lemma {:induction false} ReplaceCharOfConcat(s: string, t: string, c: char, sub: string)
    ensures ReplaceChar(s + t, c, sub) == ReplaceChar(s, c, sub) + ReplaceChar(t, c, sub)
  {
    if s == "" {
      assert s + t == t;
    } else {
      assert (s + t)[1..] == s[1..] + t;
      ReplaceCharOfConcat(s[1..], t, c, sub);
    }
  }

  lemma {:induction false} ReplaceAbsent(s: string, c: char, sub: string)
    requires c !in s
    ensures ReplaceChar(s, c, sub) == s
  {
    if s != "" { ReplaceAbsent(s[1..], c, sub); }
  }

  lemma EscapeOfConcat(s: string, t: string)
    ensures EscapeXml(s + t) == EscapeXml(s) + EscapeXml(t)
  {
    hide ReplaceChar;
    var a, a' := ReplaceChar(s, '&', "&amp;"), ReplaceChar(t, '&', "&amp;");
    var b, b' := ReplaceChar(a, '<', "&lt;"), ReplaceChar(a', '<', "&lt;");
    var c, c' := ReplaceChar(b, '>', "&gt;"), ReplaceChar(b', '>', "&gt;");
    var d, d' := ReplaceChar(c, '"', "&quot;"), ReplaceChar(c', '"', "&quot;");
    ReplaceCharOfConcat(s, t, '&', "&amp;");
    ReplaceCharOfConcat(a, a', '<', "&lt;");
    ReplaceCharOfConcat(b, b', '>', "&gt;");
    ReplaceCharOfConcat(c, c', '"', "&quot;");
    ReplaceCharOfConcat(d, d', '\'', "&apos;");
  }

  lemma ReplaceOne(c: char, d: char, sub: string)
    ensures ReplaceChar([c], d, sub) == if c == d then sub else [c]
  {
    assert [c][1..] == "";
  }

  lemma EscapeOne(c: char)
    ensures EscapeXml([c]) == Entity(c)
  {
    hide ReplaceChar;
    ReplaceOne(c, '&', "&amp;");
    ReplaceOne(c, '<', "&lt;");
    ReplaceOne(c, '>', "&gt;");
    ReplaceOne(c, '"', "&quot;");
    ReplaceOne(c, '\'', "&apos;");
    ReplaceAbsent("&amp;", '<', "&lt;");
    ReplaceAbsent("&amp;", '>', "&gt;");
    ReplaceAbsent("&amp;", '"', "&quot;");
    ReplaceAbsent("&amp;", '\'', "&apos;");
    ReplaceAbsent("&lt;", '>', "&gt;");
    ReplaceAbsent("&lt;", '"', "&quot;");
    ReplaceAbsent("&lt;", '\'', "&apos;");
    ReplaceAbsent("&gt;", '"', "&quot;");
    ReplaceAbsent("&gt;", '\'', "&apos;");
    ReplaceAbsent("&quot;", '\'', "&apos;");
  }

  /** Five passes over the text replace each character once: no pass touches what an earlier one wrote. */
  lemma {:induction false} PassesDoNotInterfere(s: string)
    ensures EscapeXml(s) == EscapeEach(s)
  {
    hide EscapeXml;
    if s == "" {
      EscapeEmpty();
    } else {
      assert s == [s[0]] + s[1..];
      EscapeOfConcat([s[0]], s[1..]);
      EscapeOne(s[0]);
      PassesDoNotInterfere(s[1..]);
    }
  }

  lemma EscapeEmpty()
    ensures EscapeXml("") == "" && Decode("") == ""
  {
  }

  lemma DecodeEntity(c: char, rest: string)
    ensures Decode(Entity(c) + rest) == [c] + Decode(rest)
  {
    var e := Entity(c);
    var s := e + rest;
    assert s[|e|..] == rest;
    assert s[..|e|] == e;
    if |e| > 1 {
      assert e <= s && s[1] == e[1];
      if c == '&' || c == '\'' { assert s[2] == e[2]; }
    } else {
      assert s[0] == c;
    }
  }

  /** Escaped text has no markup characters, and decodes to what was escaped. */
  lemma {:induction false} EscapeRoundTrip(s: string)
    ensures Decode(EscapeXml(s)) == s
    ensures forall c | c in EscapeXml(s) :: c !in "<>\"'"
  {
    hide EscapeXml, Entity, Decode;
    PassesDoNotInterfere(s);
    if s == "" {
      EscapeEmpty();
    } else {
      PassesDoNotInterfere(s[1..]);
      EscapeRoundTrip(s[1..]);
      DecodeEntity(s[0], EscapeEach(s[1..]));
      EntityIsClean(s[0]);
      assert s == [s[0]] + s[1..];
    }
  }

  lemma EntityIsClean(c: char)
    ensures forall d | d in Entity(c) :: d !in "<>\"'"
  {
  }
}
