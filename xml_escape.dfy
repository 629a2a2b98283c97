/**
 * The feed's two text guards from src/lib/rss.ts: `escapeXml`, which
 * replaces the five characters that XML 1.0 (Fifth Edition) section 2.4
 * reserves or that close attribute values by their predefined entities,
 * and `wrapCdata`, which places a value in CDATA sections (XML 1.0
 * section 2.7) while splitting every `]]>` that would end a section early.
 */
module XmlEscape {
  import opened Text
  import opened Seqs

  /** The chain of five global replacements, `&` first. */
  function EscapeXml(value: string): string {
    var amp := ReplaceAll(value, "&", "&amp;");
    var lt := ReplaceAll(amp, "<", "&lt;");
    var gt := ReplaceAll(lt, ">", "&gt;");
    var quot := ReplaceAll(gt, "\"", "&quot;");
    ReplaceAll(quot, "'", "&apos;")
  }

  /** Reference definition: each character on its own. */
  function EscapeChar(c: char): string {
    if c == '&' then "&amp;"
    else if c == '<' then "&lt;"
    else if c == '>' then "&gt;"
    else if c == '"' then "&quot;"
    else if c == '\'' then "&apos;"
    else [c]
  }

  function EscapeEach(s: string): string {
    if s == [] then [] else EscapeChar(s[0]) + EscapeEach(s[1..])
  }

  /** The characters that must not appear raw in the escaped text. */
  predicate Markup(c: char) {
    c == '<' || c == '>' || c == '"' || c == '\''
  }

  /** Decoding of the five predefined entities (XML 1.0 section 4.6), the
      way a feed reader undoes the escaping. */
  function DecodeEntities(s: string): string
    decreases |s|
  {
    if s == [] then []
    else if StartsWith(s, "&amp;") then "&" + DecodeEntities(s[5..])
    else if StartsWith(s, "&lt;") then "<" + DecodeEntities(s[4..])
    else if StartsWith(s, "&gt;") then ">" + DecodeEntities(s[4..])
    else if StartsWith(s, "&quot;") then "\"" + DecodeEntities(s[6..])
    else if StartsWith(s, "&apos;") then "'" + DecodeEntities(s[6..])
    else [s[0]] + DecodeEntities(s[1..])
  }

  lemma EscapeCharOneChar(x: char)
    ensures EscapeXml([x]) == EscapeChar(x)
  {
    ReplaceCharSingle(x, '&', "&amp;");
    var amp := ReplaceAll([x], "&", "&amp;");
    if x == '&' {
      ReplaceCharAbsent(amp, '<', "&lt;");
      ReplaceCharAbsent(amp, '>', "&gt;");
      ReplaceCharAbsent(amp, '"', "&quot;");
      ReplaceCharAbsent(amp, '\'', "&apos;");
    } else {
      ReplaceCharSingle(x, '<', "&lt;");
      var lt := ReplaceAll(amp, "<", "&lt;");
      if x == '<' {
        ReplaceCharAbsent(lt, '>', "&gt;");
        ReplaceCharAbsent(lt, '"', "&quot;");
        ReplaceCharAbsent(lt, '\'', "&apos;");
      } else {
        ReplaceCharSingle(x, '>', "&gt;");
        var gt := ReplaceAll(lt, ">", "&gt;");
        if x == '>' {
          ReplaceCharAbsent(gt, '"', "&quot;");
          ReplaceCharAbsent(gt, '\'', "&apos;");
        } else {
          ReplaceCharSingle(x, '"', "&quot;");
          var quot := ReplaceAll(gt, "\"", "&quot;");
          if x == '"' {
            ReplaceCharAbsent(quot, '\'', "&apos;");
          } else {
            ReplaceCharSingle(x, '\'', "&apos;");
          }
        }
      }
    }
  }

  lemma EscapeXmlAppend(a: string, b: string)
    ensures EscapeXml(a + b) == EscapeXml(a) + EscapeXml(b)
  {
    ReplaceCharAppend(a, b, '&', "&amp;");
    var a1, b1 := ReplaceAll(a, "&", "&amp;"), ReplaceAll(b, "&", "&amp;");
    ReplaceCharAppend(a1, b1, '<', "&lt;");
    var a2, b2 := ReplaceAll(a1, "<", "&lt;"), ReplaceAll(b1, "<", "&lt;");
    ReplaceCharAppend(a2, b2, '>', "&gt;");
    var a3, b3 := ReplaceAll(a2, ">", "&gt;"), ReplaceAll(b2, ">", "&gt;");
    ReplaceCharAppend(a3, b3, '"', "&quot;");
    var a4, b4 := ReplaceAll(a3, "\"", "&quot;"), ReplaceAll(b3, "\"", "&quot;");
    ReplaceCharAppend(a4, b4, '\'', "&apos;");
  }

  /** The replacement chain escapes every character independently: because
      `&` goes first, no entity introduced by a later step is escaped again. */
  lemma {:induction false} EscapeXmlIsPerCharacter(s: string)
    ensures EscapeXml(s) == EscapeEach(s)
  {
    if s == [] {
      ReplaceCharAbsent(s, '&', "&amp;");
      ReplaceCharAbsent(s, '<', "&lt;");
      ReplaceCharAbsent(s, '>', "&gt;");
      ReplaceCharAbsent(s, '"', "&quot;");
      ReplaceCharAbsent(s, '\'', "&apos;");
    } else {
      assert s == [s[0]] + s[1..];
      EscapeXmlAppend([s[0]], s[1..]);
      EscapeCharOneChar(s[0]);
      EscapeXmlIsPerCharacter(s[1..]);
    }
  }

  lemma {:induction false} EscapeEachNoMarkup(s: string)
    ensures forall i :: 0 <= i < |EscapeEach(s)| ==> !Markup(EscapeEach(s)[i])
  {
    if s != [] {
      EscapeEachNoMarkup(s[1..]);
      var h, t := EscapeChar(s[0]), EscapeEach(s[1..]);
      assert EscapeEach(s) == h + t;
      forall i | 0 <= i < |h + t| ensures !Markup((h + t)[i]) {
        if i >= |h| { assert (h + t)[i] == t[i - |h|]; }
      }
    }
  }

  lemma DecodeAmp(t: string)
    ensures DecodeEntities("&amp;" + t) == "&" + DecodeEntities(t)
  {
    var e := "&amp;" + t;
    assert e[..5] == "&amp;" && e[5..] == t;
  }

  lemma DecodeLt(t: string)
    ensures DecodeEntities("&lt;" + t) == "<" + DecodeEntities(t)
  {
    var e := "&lt;" + t;
    assert e[1] == 'l';
    assert e[..4] == "&lt;" && e[4..] == t;
  }

  lemma DecodeGt(t: string)
    ensures DecodeEntities("&gt;" + t) == ">" + DecodeEntities(t)
  {
    var e := "&gt;" + t;
    assert e[1] == 'g';
    assert e[..4] == "&gt;" && e[4..] == t;
  }

  lemma DecodeQuot(t: string)
    ensures DecodeEntities("&quot;" + t) == "\"" + DecodeEntities(t)
  {
    var e := "&quot;" + t;
    assert e[1] == 'q';
    assert e[..6] == "&quot;" && e[6..] == t;
  }

  lemma DecodeApos(t: string)
    ensures DecodeEntities("&apos;" + t) == "'" + DecodeEntities(t)
  {
    var e := "&apos;" + t;
    assert e[1] == 'a' && e[2] == 'p';
    assert e[..6] == "&apos;" && e[6..] == t;
  }

  lemma DecodePlain(c: char, t: string)
    requires c != '&'
    ensures DecodeEntities([c] + t) == [c] + DecodeEntities(t)
  {
    var e := [c] + t;
    assert e[0] == c && e[1..] == t;
    HeadDiffers(e, "&amp;");
    HeadDiffers(e, "&lt;");
    HeadDiffers(e, "&gt;");
    HeadDiffers(e, "&quot;");
    HeadDiffers(e, "&apos;");
  }

  lemma HeadDiffers(e: string, p: string)
    requires e != [] && p != [] && e[0] != p[0]
    ensures !StartsWith(e, p)
  {
    assert |p| <= |e| ==> e[..|p|][0] == e[0];
  }

  lemma {:induction false} DecodeEscapeEach(s: string)
    ensures DecodeEntities(EscapeEach(s)) == s
  {
    if s != [] {
      var c, t := s[0], EscapeEach(s[1..]);
      DecodeEscapeEach(s[1..]);
      assert EscapeEach(s) == EscapeChar(c) + t;
      DecodeEscapeChar(c, t);
      HeadTail(s);
    }
  }

  /** Decoding undoes the escaping of one character. */
  lemma DecodeEscapeChar(c: char, t: string)
    ensures DecodeEntities(EscapeChar(c) + t) == [c] + DecodeEntities(t)
  {
    if c == '&' {
      DecodeAmp(t);
    } else if c == '<' {
      DecodeLt(t);
    } else if c == '>' {
      DecodeGt(t);
    } else if c == '"' {
      DecodeQuot(t);
    } else if c == '\'' {
      DecodeApos(t);
    } else {
      DecodePlain(c, t);
    }
  }

  /** One of the five predefined entities starts at index `i` of `s`. */
  predicate EntityAt(s: string, i: nat)
    requires i <= |s|
  {
    var rest := s[i..];
    StartsWith(rest, "&amp;") || StartsWith(rest, "&lt;") || StartsWith(rest, "&gt;")
    || StartsWith(rest, "&quot;") || StartsWith(rest, "&apos;")
  }

  /** In the per-character escape, every `&` starts an entity. */
  lemma {:induction false} EscapeEachAmp(s: string)
    ensures forall i :: 0 <= i < |EscapeEach(s)| && EscapeEach(s)[i] == '&' ==> EntityAt(EscapeEach(s), i)
  {
    if s != [] {
      EscapeEachAmp(s[1..]);
      var h, t := EscapeChar(s[0]), EscapeEach(s[1..]);
      assert EscapeEach(s) == h + t;
      forall i | 0 <= i < |h + t| && (h + t)[i] == '&'
        ensures EntityAt(h + t, i)
      {
        if i < |h| {
          EscapedAmpFirst(s[0], i);
          assert (h + t)[i] == h[i];
          assert (h + t)[0..] == h + t && (h + t)[..|h|] == h;
        } else {
          assert (h + t)[i..] == t[i - |h|..];
          assert t[i - |h|] == (h + t)[i];
        }
      }
    }
  }

  /** Within the escape of one character, an `&` can only be the first
      character of an entity. */
  lemma EscapedAmpFirst(c: char, i: nat)
    requires i < |EscapeChar(c)| && EscapeChar(c)[i] == '&'
    ensures i == 0 && c in "&<>\"'"
    ensures EscapeChar(c) in ["&amp;", "&lt;", "&gt;", "&quot;", "&apos;"]
  {
  }

  /** `escapeXml` leaves no raw `<`, `>`, `"` or `'`, every `&` it leaves
      starts one of the five entities, and decoding the entities gives the
      input back. */
  lemma EscapeXmlSafe(s: string)
    ensures forall i :: 0 <= i < |EscapeXml(s)| ==> !Markup(EscapeXml(s)[i])
    ensures forall i :: 0 <= i < |EscapeXml(s)| && EscapeXml(s)[i] == '&' ==> EntityAt(EscapeXml(s), i)
    ensures DecodeEntities(EscapeXml(s)) == s
  {
    EscapeXmlIsPerCharacter(s);
    EscapeEachNoMarkup(s);
    EscapeEachAmp(s);
    DecodeEscapeEach(s);
  }

  const CdataOpen: string := "<![CDATA["
  const CdataClose: string := "]]>"

  /** `wrapCdata`: every `]]>` becomes `]]]]><![CDATA[>`, which closes the
      current section after `]]` and opens a new one that starts with `>`. */
  function WrapCdata(value: string): string {
    CdataOpen + ReplaceAll(value, CdataClose, SplitClose) + CdataClose
  }

  /** A run of CDATA sections with the given bodies. */
  function Sections(bodies: seq<string>): string {
    if bodies == [] then [] else CdataOpen + bodies[0] + CdataClose + Sections(bodies[1..])
  }

  /** The section bodies `wrapCdata` produces for `value`. */
  function CdataBodies(value: string): (r: seq<string>)
    ensures |r| >= 1
    ensures StartsWith(value, r[0])
    decreases |value|
  {
    if |value| < 3 then [value]
    else if value[..3] == CdataClose then
      var rest := CdataBodies(value[3..]);
      ["]]", ">" + rest[0]] + rest[1..]
    else
      var rest := CdataBodies(value[1..]);
      [[value[0]] + rest[0]] + rest[1..]
  }

  /** The text that replaces each `]]>`. */
  const SplitClose: string := "]]]]><![CDATA[>"

  lemma SplitCloseParts()
    ensures SplitClose == "]]" + CdataClose + CdataOpen + ">"
  {
  }

  lemma ReplaceAtClose(value: string)
    requires |value| >= 3 && value[..3] == CdataClose
    ensures ReplaceAll(value, CdataClose, SplitClose) == SplitClose + ReplaceAll(value[3..], CdataClose, SplitClose)
  {
  }

  lemma ReplaceAtOther(value: string)
    requires |value| >= 3 && value[..3] != CdataClose
    ensures ReplaceAll(value, CdataClose, SplitClose) == [value[0]] + ReplaceAll(value[1..], CdataClose, SplitClose)
  {
  }

  lemma CloseStep(t: string, b: string, tail: string)
    requires t + CdataClose == b + CdataClose + tail
    ensures (SplitClose + t) + CdataClose == "]]" + CdataClose + (CdataOpen + (">" + b) + CdataClose + tail)
  {
    SplitCloseParts();
    calc {
      (SplitClose + t) + CdataClose;
      "]]" + CdataClose + CdataOpen + ">" + (t + CdataClose);
      "]]" + CdataClose + CdataOpen + ">" + (b + CdataClose + tail);
    }
  }

  lemma {:induction false} SectionsOfBodies(value: string)
    ensures ReplaceAll(value, CdataClose, SplitClose) + CdataClose
            == CdataBodies(value)[0] + CdataClose + Sections(CdataBodies(value)[1..])
    decreases |value|
  {
    var r := CdataBodies(value);
    if |value| < 3 {
      assert r[1..] == [];
    } else if value[..3] == CdataClose {
      var rest := CdataBodies(value[3..]);
      SectionsOfBodies(value[3..]);
      var t := ReplaceAll(value[3..], CdataClose, SplitClose);
      ReplaceAtClose(value);
      assert r == ["]]", ">" + rest[0]] + rest[1..];
      assert r[1..][1..] == rest[1..];
      var tail := Sections(rest[1..]);
      assert Sections(r[1..]) == CdataOpen + (">" + rest[0]) + CdataClose + tail;
      CloseStep(t, rest[0], tail);
    } else {
      var rest := CdataBodies(value[1..]);
      SectionsOfBodies(value[1..]);
      ReplaceAtOther(value);
      var t := ReplaceAll(value[1..], CdataClose, SplitClose);
      assert r == [[value[0]] + rest[0]] + rest[1..];
      assert r[1..] == rest[1..];
      var tail := Sections(rest[1..]);
      assert t + CdataClose == rest[0] + CdataClose + tail;
      assert [value[0]] + t + CdataClose == [value[0]] + (t + CdataClose);
    }
  }

  lemma {:induction false} ConcatBodies(value: string)
    ensures Concat(CdataBodies(value)) == value
    decreases |value|
  {
    var r := CdataBodies(value);
    if |value| < 3 {
      ConcatOne(value);
    } else if value[..3] == CdataClose {
      var rest := CdataBodies(value[3..]);
      ConcatBodies(value[3..]);
      assert r == ["]]"] + ([">" + rest[0]] + rest[1..]);
      ConcatCons("]]", [">" + rest[0]] + rest[1..]);
      ConcatHeadTail(">", rest);
      CloseThenRest(value);
    } else {
      var rest := CdataBodies(value[1..]);
      ConcatBodies(value[1..]);
      ConcatHeadTail([value[0]], rest);
      HeadTail(value);
    }
  }

  lemma CloseThenRest(value: string)
    requires |value| >= 3 && value[..3] == CdataClose
    ensures value == "]]" + (">" + value[3..])
  {
    assert value == value[..3] + value[3..];
  }

  lemma {:induction false} BodiesAreSafe(value: string)
    ensures forall k :: 0 <= k < |CdataBodies(value)| ==> !Contains(CdataBodies(value)[k], CdataClose)
    decreases |value|
  {
    var r := CdataBodies(value);
    if |value| < 3 {
      ShortIsSafe(value);
    } else if value[..3] == CdataClose {
      var rest := CdataBodies(value[3..]);
      BodiesAreSafe(value[3..]);
      assert r == ["]]", ">" + rest[0]] + rest[1..];
      ShortIsSafe("]]");
      assert (">" + rest[0])[1..] == rest[0];
      forall k | 2 <= k < |r| ensures r[k] == rest[k - 1] { }
    } else {
      var rest := CdataBodies(value[1..]);
      BodiesAreSafe(value[1..]);
      var b := [value[0]] + rest[0];
      assert r == [b] + rest[1..];
      assert b[1..] == rest[0];
      assert !StartsWith(b, CdataClose) by {
        if |b| >= 3 { assert b[..3] == value[..3]; }
      }
      forall k | 1 <= k < |r| ensures r[k] == rest[k] { }
    }
  }

  lemma ShortIsSafe(s: string)
    requires |s| < 3
    ensures !Contains(s, CdataClose)
  {
    if s != [] { ShortIsSafe(s[1..]); }
  }

  /** `wrapCdata` yields one or more CDATA sections: the output starts with
      `<![CDATA[` and ends with `]]>`, no section body contains `]]>`, and the
      bodies put together are the input. */
  lemma WrapCdataSections(value: string)
    ensures StartsWith(WrapCdata(value), CdataOpen) && EndsWith(WrapCdata(value), CdataClose)
    ensures WrapCdata(value) == Sections(CdataBodies(value))
    ensures Concat(CdataBodies(value)) == value
    ensures forall k :: 0 <= k < |CdataBodies(value)| ==> !Contains(CdataBodies(value)[k], CdataClose)
  {
    WrapCdataIsSections(value);
    WrapCdataFrame(value);
    ConcatBodies(value);
    BodiesAreSafe(value);
  }

  lemma WrapCdataIsSections(value: string)
    ensures WrapCdata(value) == Sections(CdataBodies(value))
  {
    var b := CdataBodies(value);
    var t := ReplaceAll(value, CdataClose, SplitClose);
    SectionsOfBodies(value);
    Assoc(CdataOpen, t, CdataClose);
    Assoc(CdataOpen, b[0] + CdataClose, Sections(b[1..]));
    Assoc(CdataOpen, b[0], CdataClose);
  }

  lemma WrapCdataFrame(value: string)
    ensures StartsWith(WrapCdata(value), CdataOpen) && EndsWith(WrapCdata(value), CdataClose)
  {
    var t := ReplaceAll(value, CdataClose, SplitClose);
    ConcatEnds(CdataOpen + t, CdataClose);
    ConcatEnds(CdataOpen, t + CdataClose);
    assert CdataOpen + t + CdataClose == CdataOpen + (t + CdataClose);
  }
}
