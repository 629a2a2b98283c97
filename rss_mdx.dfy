/**
 * The MDX pre-processing of the RSS pipeline (src/lib/rss.ts): reading an
 * attribute out of a component tag, making URLs absolute, the rewrite of
 * each custom component into Markdown or HTML, and the URL pass over the
 * Markdown tokens.
 */
module RssMdx {
  import opened Text
  import opened Common

  // ---------------------------------------------------------------------
  // escapeRegex
  // ---------------------------------------------------------------------

  /** The characters `escapeRegex` puts a backslash in front of. */
  predicate RegexMeta(c: char) {
    c == '.' || c == '*' || c == '+' || c == '?' || c == '^' || c == '$'
    || c == '{' || c == '}' || c == '(' || c == ')' || c == '|'
    || c == '[' || c == ']' || c == '\\'
  }

  function EscapeRegex(s: string): (r: string)
    ensures |r| >= |s|
  {
    if s == [] then []
    else (if RegexMeta(s[0]) then ['\\', s[0]] else [s[0]]) + EscapeRegex(s[1..])
  }

  /** The string a regular-expression source made only of plain characters
      and backslash-escaped metacharacters matches; `None` when the source
      holds anything else (a bare metacharacter, another escape). */
  function RegexLiteral(p: string): Option<string> {
    if p == [] then Some([])
    else if p[0] == '\\' then
      if |p| >= 2 && RegexMeta(p[1]) then
        match RegexLiteral(p[2..])
        case Some(t) => Some([p[1]] + t)
        case None => None
      else None
    else if RegexMeta(p[0]) then None
    else
      match RegexLiteral(p[1..])
      case Some(t) => Some([p[0]] + t)
      case None => None
  }

  /** The escaped name, read back as a pattern, matches exactly the name. */
  lemma {:induction false} EscapeRegexIsLiteral(s: string)
    ensures RegexLiteral(EscapeRegex(s)) == Some(s)
  {
    if s != [] {
      EscapeRegexIsLiteral(s[1..]);
      var r := EscapeRegex(s);
      if RegexMeta(s[0]) {
        assert r[2..] == EscapeRegex(s[1..]);
      } else {
        assert r[1..] == EscapeRegex(s[1..]);
      }
      assert [s[0]] + s[1..] == s;
    }
  }

  /** A safe attribute name (`[a-zA-Z0-9:_.-]+`) needs escaping only for `.`. */
  lemma {:induction false} EscapeValidName(s: string)
    requires forall i :: 0 <= i < |s| ==> NameChar(s[i])
    ensures '.' !in s ==> EscapeRegex(s) == s
  {
    if s != [] {
      EscapeValidName(s[1..]);
      assert [s[0]] + s[1..] == s;
    }
  }

  // ---------------------------------------------------------------------
  // extractAttribute
  // ---------------------------------------------------------------------

  predicate NameChar(c: char) {
    ('a' <= c <= 'z') || ('A' <= c <= 'Z') || ('0' <= c <= '9')
    || c == ':' || c == '_' || c == '.' || c == '-'
  }

  /** `^[a-zA-Z0-9:_.-]+$`. */
  predicate ValidAttrName(name: string) {
    name != [] && forall i :: 0 <= i < |name| ==> NameChar(name[i])
  }

  datatype AttrError = InvalidAttributeName(name: string)

  /** Which alternative of `"([^"]*)"|'([^']*)'|([^\s/>]+)` matched, with its capture. */
  datatype Capture = Quoted(text: string) | Bare(text: string)

  /** The characters an unquoted value stops at. */
  predicate StopsBare(c: char) {
    IsSpace(c) || c == '/' || c == '>'
  }

  /** The longest prefix without a stop character. */
  function BareRun(s: string): (r: string)
    ensures |r| <= |s| && s[..|r|] == r
    ensures forall i :: 0 <= i < |r| ==> !StopsBare(r[i])
    ensures |r| < |s| ==> StopsBare(s[|r|])
  {
    if s == [] || StopsBare(s[0]) then [] else [s[0]] + BareRun(s[1..])
  }

  /** The value alternatives, tried in order, on the text right after `name=`. */
  function MatchValue(rest: string): (m: Option<Capture>)
    ensures m.None? <==> (rest == [] || StopsBare(rest[0]))
    ensures m.Some? && m.value.Bare? ==>
      m.value.text != [] && forall i :: 0 <= i < |m.value.text| ==> !StopsBare(m.value.text[i])
    ensures m.Some? && m.value.Quoted? ==> rest[0] !in m.value.text
  {
    if rest == [] then None
    else if rest[0] == '"' && '"' in rest[1..] then Some(Quoted(UpTo(rest[1..], '"')))
    else if rest[0] == '\'' && '\'' in rest[1..] then Some(Quoted(UpTo(rest[1..], '\'')))
    else if StopsBare(rest[0]) then None
    else Some(Bare(BareRun(rest)))
  }

  /** The pattern tried at index `i` of the tag. */
  function MatchAt(tag: string, name: string, i: nat): Option<Capture>
    requires i <= |tag|
  {
    if StartsWith(tag[i..], name + "=") then MatchValue(tag[i + |name| + 1..]) else None
  }

  /** The leftmost index from `i` on where the pattern matches. */
  function FirstMatch(tag: string, name: string, i: nat): (r: Option<Capture>)
    requires i <= |tag|
    ensures r.None? ==> forall j :: i <= j <= |tag| ==> MatchAt(tag, name, j).None?
    ensures r.Some? ==> exists j :: i <= j <= |tag| && MatchAt(tag, name, j) == r
    decreases |tag| - i
  {
    var here := MatchAt(tag, name, i);
    if here.Some? || i == |tag| then here else FirstMatch(tag, name, i + 1)
  }

  /** `value.replace(/\\(['"\\])/g, "$1")`. */
  function UnescapeQuotes(s: string): string {
    if s == [] then []
    else if |s| >= 2 && s[0] == '\\' && (s[1] == '\'' || s[1] == '"' || s[1] == '\\') then
      [s[1]] + UnescapeQuotes(s[2..])
    else [s[0]] + UnescapeQuotes(s[1..])
  }

  /** The escaping `UnescapeQuotes` undoes: a backslash before each quote and backslash. */
  function EscapeQuotes(v: string): (r: string)
    ensures '"' in r ==> '"' in v
  {
    if v == [] then []
    else (if v[0] == '\'' || v[0] == '"' || v[0] == '\\' then ['\\', v[0]] else [v[0]])
         + EscapeQuotes(v[1..])
  }

  lemma {:induction false} UnescapeEscapeQuotes(v: string)
    ensures UnescapeQuotes(EscapeQuotes(v)) == v
  {
    if v != [] {
      UnescapeEscapeQuotes(v[1..]);
      var e := EscapeQuotes(v);
      if v[0] == '\'' || v[0] == '"' || v[0] == '\\' {
        assert e[2..] == EscapeQuotes(v[1..]);
      } else {
        assert e[1..] == EscapeQuotes(v[1..]);
      }
      assert [v[0]] + v[1..] == v;
    }
  }

  /** `extractAttribute(tag, attrName)`: throws on an unsafe name, `undefined`
      when no `name=` is followed by a value, the (unescaped) captured value
      otherwise. */
  function ExtractAttribute(tag: string, name: string): (r: Result<Option<string>, AttrError>)
    ensures r.Err? <==> !ValidAttrName(name)
    ensures r.Err? ==> r.error == InvalidAttributeName(name)
    ensures r.Ok? && r.value.Some? ==> Contains(tag, name + "=")
  {
    if !ValidAttrName(name) then Err(InvalidAttributeName(name))
    else
      var m := FirstMatch(tag, name, 0);
      if m.Some? then
        ghost var j :| 0 <= j <= |tag| && MatchAt(tag, name, j) == m;
        ContainsFromIndex(tag, name + "=", j);
        match m.value
        case Quoted(v) => Ok(Some(UnescapeQuotes(v)))
        case Bare(v) => Ok(Some(v))
      else Ok(None)
  }

  /** When no index from `i` on matches, nothing is found. */
  lemma {:induction false} FirstMatchNone(tag: string, name: string, i: nat)
    requires i <= |tag|
    requires forall j :: i <= j <= |tag| ==> MatchAt(tag, name, j).None?
    ensures FirstMatch(tag, name, i).None?
    decreases |tag| - i
  {
    if i < |tag| {
      FirstMatchNone(tag, name, i + 1);
    }
  }

  /** The first index that matches decides the result. */
  lemma {:induction false} FirstMatchAt(tag: string, name: string, i: nat, j: nat)
    requires i <= j <= |tag|
    requires forall k :: i <= k < j ==> MatchAt(tag, name, k).None?
    requires MatchAt(tag, name, j).Some?
    ensures FirstMatch(tag, name, i) == MatchAt(tag, name, j)
    decreases j - i
  {
    if i < j {
      FirstMatchAt(tag, name, i + 1, j);
    }
  }

  /** A tag without any `name=` has no such attribute. */
  lemma ExtractAbsent(tag: string, name: string)
    requires ValidAttrName(name) && !Contains(tag, name + "=")
    ensures ExtractAttribute(tag, name) == Ok(None)
  {
    forall j | 0 <= j <= |tag| ensures MatchAt(tag, name, j).None? {
      NotContainsAt(tag, name + "=", j);
    }
    FirstMatchNone(tag, name, 0);
  }

  lemma {:induction false} BareRunAll(v: string, tail: string)
    requires forall i :: 0 <= i < |v| ==> !StopsBare(v[i])
    requires tail == [] || StopsBare(tail[0])
    ensures BareRun(v + tail) == v
  {
    if v != [] {
      assert (v + tail)[1..] == v[1..] + tail;
      BareRunAll(v[1..], tail);
    } else {
      assert v + tail == tail;
    }
  }

  /** No index inside `p` starts `name=` when `p` holds no `name=`: the
      `=` would have to fall inside `p` or inside the name. */
  lemma NoMatchBefore(p: string, name: string, rest: string, k: nat)
    requires ValidAttrName(name) && !Contains(p, name + "=") && k < |p|
    ensures k <= |p + name + rest| && !StartsWith((p + name + rest)[k..], name + "=")
    ensures MatchAt(p + name + rest, name, k).None?
  {
    var tag := p + name + rest;
    if k + |name| < |p| {
      NotContainsAt(p, name + "=", k);
      assert p[k..][..|name| + 1] == tag[k..][..|name| + 1];
    } else {
      assert tag[k + |name|] == name[k + |name| - |p|];
      assert NameChar(name[k + |name| - |p|]);
    }
  }

  /** Everything before the first `name=` is skipped. */
  lemma ExtractAfter(p: string, name: string, rest: string)
    requires ValidAttrName(name) && !Contains(p, name + "=")
    requires MatchValue(rest).Some?
    ensures var tag := p + name + "=" + rest;
      FirstMatch(tag, name, 0) == MatchValue(rest)
  {
    var tag := p + name + "=" + rest;
    assert tag == p + name + ("=" + rest);
    forall k | 0 <= k < |p| ensures MatchAt(p + name + ("=" + rest), name, k).None? {
      NoMatchBefore(p, name, "=" + rest, k);
    }
    MatchAfter(p, name, rest);
    FirstMatchAt(tag, name, 0, |p|);
  }

  lemma MatchAfter(p: string, name: string, rest: string)
    ensures var tag := p + name + "=" + rest;
      MatchAt(tag, name, |p|) == MatchValue(rest)
  {
    var tag := p + name + "=" + rest;
    assert tag[|p|..][..|name + "="|] == name + "=";
    assert tag[|p| + |name| + 1..] == rest;
  }

  /** A double-quoted value written with its quotes escaped is read back
      unchanged, whatever follows it and whatever precedes it without an
      earlier `name=`. Since the name is matched as plain text, that
      includes a longer attribute ending in it: `data-src="v"` is read as
      `src`. */
  lemma QuotedRoundTrip(p: string, name: string, v: string, tail: string)
    requires ValidAttrName(name) && !Contains(p, name + "=") && '"' !in v
    ensures ExtractAttribute(p + name + "=\"" + EscapeQuotes(v) + "\"" + tail, name) == Ok(Some(v))
  {
    var e := EscapeQuotes(v);
    var rest := "\"" + e + "\"" + tail;
    var tag := p + name + "=\"" + e + "\"" + tail;
    assert tag == p + name + "=" + rest;
    QuotedValue(e, tail);
    ExtractAfter(p, name, rest);
    UnescapeEscapeQuotes(v);
  }

  /** A value in double quotes without a double quote inside is matched by
      the first alternative, whatever follows it. */
  lemma QuotedValue(e: string, tail: string)
    requires '"' !in e
    ensures MatchValue("\"" + e + "\"" + tail) == Some(Quoted(e))
  {
    var rest := "\"" + e + "\"" + tail;
    assert rest[1..] == e + ['"'] + tail;
    UpToFirst(e, '"', tail);
    assert rest[1..][|e|] == '"';
  }

  /** An unquoted value is read back unchanged when it is non-empty, has no
      white space, `/` or `>`, does not start with a quote, and is followed
      by nothing or by a character that ends it. */
  lemma BareRoundTrip(p: string, name: string, v: string, tail: string)
    requires ValidAttrName(name) && !Contains(p, name + "=") && v != []
    requires forall i :: 0 <= i < |v| ==> !StopsBare(v[i])
    requires v[0] != '"' && v[0] != '\''
    requires tail == [] || StopsBare(tail[0])
    ensures ExtractAttribute(p + name + "=" + v + tail, name) == Ok(Some(v))
  {
    var rest := v + tail;
    assert p + name + "=" + v + tail == p + name + "=" + rest;
    BareRunAll(v, tail);
    assert rest[0] == v[0];
    assert MatchValue(rest) == Some(Bare(v));
    ExtractAfter(p, name, rest);
  }

  // ---------------------------------------------------------------------
  // resolveUrl
  // ---------------------------------------------------------------------

  /** The forms `resolveUrl` leaves as they are: `^https?://` or `mailto:`. */
  predicate Absolute(u: string) {
    StartsWith(u, "http://") || StartsWith(u, "https://") || StartsWith(u, "mailto:")
  }

  function ResolveUrl(url: string, slug: string, isImage: bool): (r: string)
    ensures url == [] <==> r == []
    ensures url != [] ==> Absolute(r) && Trimmed(r)
    ensures Absolute(Trim(url)) ==> r == Trim(url)
  {
    if url == [] then url
    else
      var t := Trim(url);
      if Absolute(t) then t else Relative(t, slug, isImage)
  }

  /** A relative URL placed under the site: root-relative against the site,
      an image under the post's image folder, a link under the post's page. */
  function Relative(t: string, slug: string, isImage: bool): (r: string)
    requires Trimmed(t)
    ensures Absolute(r) && Trimmed(r)
  {
    var r := if StartsWith(t, "/") then SiteUrl + t
             else if isImage then SiteUrl + "/images/blog/" + slug + "/" + t
             else SiteUrl + "/blog/" + slug + "/" + t;
    assert StartsWith(r, "https://");
    assert r[|r| - 1] == if t == [] then '/' else t[|t| - 1];
    r
  }

  /** Where a relative URL ends up. */
  lemma ResolveRelative(url: string, slug: string, isImage: bool)
    requires url != [] && !Absolute(Trim(url))
    ensures var t := Trim(url);
      ResolveUrl(url, slug, isImage) ==
        if StartsWith(t, "/") then SiteUrl + t
        else if isImage then SiteUrl + "/images/blog/" + slug + "/" + t
        else SiteUrl + "/blog/" + slug + "/" + t
  {
  }

  /** Resolving a resolved URL changes nothing. */
  lemma ResolveUrlIdempotent(url: string, slug: string, isImage: bool, slug2: string, isImage2: bool)
    ensures var r := ResolveUrl(url, slug, isImage);
      ResolveUrl(r, slug2, isImage2) == r
  {
    var r := ResolveUrl(url, slug, isImage);
    if r != [] {
      TrimOfTrimmed(r);
    }
  }

  // ---------------------------------------------------------------------
  // The component rewrites of preProcessMdx
  // ---------------------------------------------------------------------

  /** The attribute lookups of the rewrites use fixed, safe names. */
  function Attr(tag: string, name: string): (r: Option<string>)
    requires ValidAttrName(name)
    ensures ExtractAttribute(tag, name) == Ok(r)
  {
    ExtractAttribute(tag, name).value
  }

  /** `<Figure ... />`: left as written unless both `src` and `alt` are
      non-empty; an HTML figure when a caption is given, a Markdown image
      otherwise. The source's catch arm cannot be reached, since the names
      looked up are all safe. */
  function RewriteFigure(tag: string, slug: string): string {
    FigureMarkup(tag, Attr(tag, "src"), Attr(tag, "alt"), Attr(tag, "caption"), slug)
  }

  function FigureMarkup(tag: string, src: Option<string>, alt: Option<string>,
                        caption: Option<string>, slug: string): string
  {
    if !Present(src) || !Present(alt) then tag
    else
      var abs := ResolveUrl(src.value, slug, true);
      if Present(caption) then
        "<figure><img src=\"" + abs + "\" alt=\"" + alt.value + "\" /><figcaption>"
        + caption.value + "</figcaption></figure>"
      else "![" + alt.value + "](" + abs + ")"
  }

  /** A figure is kept as written without a non-empty `src` and `alt`;
      otherwise its output carries the alt text and the image address made
      absolute. */
  lemma FigureOutcome(tag: string, src: Option<string>, alt: Option<string>,
                      caption: Option<string>, slug: string)
    ensures var out := FigureMarkup(tag, src, alt, caption, slug);
      (!Present(src) || !Present(alt) ==> out == tag)
      && (Present(src) && Present(alt) ==>
            var abs := ResolveUrl(src.value, slug, true);
            Absolute(abs) && Contains(out, abs) && Contains(out, alt.value)
            && (Present(caption) ==> Contains(out, caption.value)))
  {
    if Present(src) && Present(alt) {
      var abs := ResolveUrl(src.value, slug, true);
      if Present(caption) {
        HtmlFigureParts(abs, alt.value, caption.value);
      } else {
        MarkdownImageParts(abs, alt.value);
      }
    }
  }

  lemma HtmlFigureParts(abs: string, a: string, c: string)
    ensures var out := "<figure><img src=\"" + abs + "\" alt=\"" + a + "\" /><figcaption>"
                       + c + "</figcaption></figure>";
      Contains(out, abs) && Contains(out, a) && Contains(out, c)
  {
    var p1 := "<figure><img src=\"";
    var p2 := "\" alt=\"";
    var p3 := "\" /><figcaption>";
    var p4 := "</figcaption></figure>";
    var out := p1 + abs + p2 + a + p3 + c + p4;
    assert out == p1 + abs + (p2 + a + p3 + c + p4);
    ContainsMiddle(p1, abs, p2 + a + p3 + c + p4);
    assert out == (p1 + abs + p2) + a + (p3 + c + p4);
    ContainsMiddle(p1 + abs + p2, a, p3 + c + p4);
    assert out == (p1 + abs + p2 + a + p3) + c + p4;
    ContainsMiddle(p1 + abs + p2 + a + p3, c, p4);
  }

  lemma MarkdownImageParts(abs: string, a: string)
    ensures var out := "![" + a + "](" + abs + ")";
      Contains(out, abs) && Contains(out, a)
  {
    var out := "![" + a + "](" + abs + ")";
    assert out == "![" + a + ("](" + abs + ")");
    ContainsMiddle("![", a, "](" + abs + ")");
    assert out == ("![" + a + "](") + abs + ")";
    ContainsMiddle("![" + a + "](", abs, ")");
  }

  /** The mobile-phone emoji line a tweet becomes, up to its link target. */
  const TweetPrefix: string := "\n\n> \U{1F4F1} **Tweet:** [View on X/Twitter]("

  /** `<Tweet ... />`: left as written when neither `id` nor `url` is
      non-empty; otherwise a quoted link to `url`, or to the status page of
      `id` when there is no `url` at all. A present but empty `url` still
      wins over `id`, since `??` only skips `undefined`. */
  function RewriteTweet(tag: string): string {
    TweetMarkup(tag, Attr(tag, "id"), Attr(tag, "url"))
  }

  function TweetMarkup(tag: string, id: Option<string>, url: Option<string>): (r: string)
    ensures !Present(id) && !Present(url) ==> r == tag
    ensures Present(id) || Present(url) ==>
      |r| >= |TweetPrefix| + 3 && StartsWith(r, TweetPrefix) && EndsWith(r, ")\n\n")
      && (url.Some? ==> r[|TweetPrefix|..|r| - 3] == url.value)
      && (url.None? ==> r[|TweetPrefix|..|r| - 3] == "https://twitter.com/i/status/" + id.value)
  {
    if !Present(id) && !Present(url) then tag
    else
      var tweetUrl := if url.Some? then url.value else "https://twitter.com/i/status/" + id.value;
      var r := TweetPrefix + tweetUrl + ")\n\n";
      assert r[..|TweetPrefix|] == TweetPrefix;
      assert r[|TweetPrefix|..|r| - 3] == tweetUrl;
      r
  }

  /** The emoji for a callout `type`. */
  function CalloutEmoji(kind: Option<string>): string {
    if kind == Some("warning") then "\U{26A0}\U{FE0F}"
    else if kind == Some("error") then "\U{274C}"
    else if kind == Some("success") then "\U{2705}"
    else "\U{2139}\U{FE0F}"
  }

  /** `<Callout attrs>content</Callout>`: a blockquote line holding the
      emoji for the type and then the content without surrounding white
      space. */
  function RewriteCallout(attributes: string, content: string): string {
    CalloutMarkup(CalloutEmoji(Attr(attributes, "type")), content)
  }

  function CalloutMarkup(emoji: string, content: string): (r: string)
    ensures StartsWith(r, "\n\n> " + emoji + " ") && EndsWith(r, " " + Trim(content) + "\n\n")
  {
    var head := "\n\n> " + emoji + " ";
    var body := Trim(content) + "\n\n";
    ConcatEnds(head, body);
    assert head + body == "\n\n> " + emoji + (" " + body);
    ConcatEnds("\n\n> " + emoji, " " + body);
    head + body
  }

  /** The text shown for `<Credits>` and `<Comment>`: the `content` attribute
      when the attribute text is non-empty and holds one, the trimmed
      children otherwise. */
  function ComponentText(attributes: Option<string>, children: string): (r: string)
    ensures attributes.None? || attributes == Some([]) ==> r == Trim(children)
  {
    var attrs := attributes.GetOr([]);
    var content := if attrs != [] then Attr(attrs, "content") else None;
    content.GetOr(Trim(children))
  }

  /** `<Credits>`: the text in italics, as a paragraph of its own. */
  function RewriteCredits(attributes: Option<string>, children: string): string {
    "\n\n*" + ComponentText(attributes, children) + "*\n\n"
  }

  /** `<Comment>`: the text in bold, as a paragraph of its own. */
  function RewriteComment(attributes: Option<string>, children: string): string {
    "\n\n**" + ComponentText(attributes, children) + "**\n\n"
  }

  /** A `content` attribute wins over the children, even an empty one. */
  lemma ContentAttributeWins(v: string, children: string)
    requires '"' !in v
    ensures ComponentText(Some("content=\"" + EscapeQuotes(v) + "\""), children) == v
  {
    var e := EscapeQuotes(v);
    assert ValidAttrName("content");
    QuotedAlone("content", v);
    assert "content" + "=\"" == "content=\"";
    assert "content" + "=\"" + e + "\"" == "content=\"" + e + "\"";
  }

  /** An attribute text holding just one quoted value reads it back. */
  lemma QuotedAlone(name: string, v: string)
    requires ValidAttrName(name) && '"' !in v
    ensures ExtractAttribute(name + "=\"" + EscapeQuotes(v) + "\"", name) == Ok(Some(v))
  {
    var e := EscapeQuotes(v);
    assert !Contains([], name + "=");
    QuotedRoundTrip([], name, v, []);
    assert [] + name == name;
    var tag := name + "=\"" + e + "\"";
    assert tag + [] == tag;
  }

  /** Attribute text without `content=` leaves the trimmed children. */
  lemma ChildrenWithoutContent(attributes: string, children: string)
    requires !Contains(attributes, "content=")
    ensures ComponentText(Some(attributes), children) == Trim(children)
  {
    if attributes != [] {
      assert "content" + "=" == "content=";
      assert ValidAttrName("content");
      ExtractAbsent(attributes, "content");
    }
  }

  // ---------------------------------------------------------------------
  // The URL pass over the Markdown tokens (walkTokens)
  // ---------------------------------------------------------------------

  /** A Markdown token as far as the URL pass sees it. */
  datatype Token = Token(kind: string, href: Option<string>, children: seq<Token>)

  /** The href `walkTokens` leaves on one token: image hrefs resolve as
      images, link hrefs as links, anything else is kept. */
  function ResolvedHref(t: Token, slug: string): (h: Option<string>)
    ensures h.None? <==> t.href.None?
    ensures (t.kind == "image" || t.kind == "link") && h.Some? ==> h.value == [] || Absolute(h.value)
    ensures t.kind != "image" && t.kind != "link" ==> h == t.href
  {
    if t.href.Some? && t.kind == "image" then Some(ResolveUrl(t.href.value, slug, true))
    else if t.href.Some? && t.kind == "link" then Some(ResolveUrl(t.href.value, slug, false))
    else t.href
  }

  lemma ResolvedHrefIdempotent(t: Token, slug: string, children: seq<Token>)
    ensures ResolvedHref(Token(t.kind, ResolvedHref(t, slug), children), slug) == ResolvedHref(t, slug)
  {
    var t2 := Token(t.kind, ResolvedHref(t, slug), children);
    if t.href.Some? && t.kind == "image" {
      ResolveUrlIdempotent(t.href.value, slug, true, slug, true);
      assert t2.href == Some(ResolveUrl(t.href.value, slug, true));
    } else if t.href.Some? && t.kind == "link" {
      ResolveUrlIdempotent(t.href.value, slug, false, slug, false);
      assert t2.href == Some(ResolveUrl(t.href.value, slug, false));
    }
  }

  /** `walkTokens` over a token list, nested tokens included. */
  function WalkTokens(ts: seq<Token>, slug: string): (r: seq<Token>)
    ensures |r| == |ts|
    decreases ts
  {
    if ts == [] then []
    else
      var t := ts[0];
      [Token(t.kind, ResolvedHref(t, slug), WalkTokens(t.children, slug))] + WalkTokens(ts[1..], slug)
  }

  /** The walk changes no token's kind, and leaves the tokens in place. */
  lemma {:induction false} WalkTokensKinds(ts: seq<Token>, slug: string)
    ensures forall i :: 0 <= i < |ts| ==> WalkTokens(ts, slug)[i].kind == ts[i].kind
    decreases ts
  {
    if ts != [] {
      var r := WalkTokens(ts, slug);
      var rest := WalkTokens(ts[1..], slug);
      WalkTokensKinds(ts[1..], slug);
      assert r == [r[0]] + rest;
      forall i | 0 < i < |ts| ensures r[i].kind == ts[i].kind {
        assert r[i] == rest[i - 1];
        assert ts[i] == ts[1..][i - 1];
      }
    }
  }

  /** Every image or link href, at any depth, is absolute or empty. */
  predicate HrefsResolved(ts: seq<Token>)
    decreases ts
  {
    forall i :: 0 <= i < |ts| ==>
      ((ts[i].kind == "image" || ts[i].kind == "link") && ts[i].href.Some? ==>
         ts[i].href.value == [] || Absolute(ts[i].href.value))
      && HrefsResolved(ts[i].children)
  }

  lemma {:induction false} WalkTokensResolves(ts: seq<Token>, slug: string)
    ensures HrefsResolved(WalkTokens(ts, slug))
    decreases ts
  {
    if ts != [] {
      WalkTokensResolves(ts[0].children, slug);
      WalkTokensResolves(ts[1..], slug);
      var r := WalkTokens(ts, slug);
      forall i | 0 <= i < |r|
        ensures ((r[i].kind == "image" || r[i].kind == "link") && r[i].href.Some? ==>
                   r[i].href.value == [] || Absolute(r[i].href.value))
                && HrefsResolved(r[i].children)
      {
        if i > 0 {
          assert r[i] == WalkTokens(ts[1..], slug)[i - 1];
        }
      }
    }
  }

  /** A second pass changes nothing. */
  lemma {:induction false} WalkTokensIdempotent(ts: seq<Token>, slug: string)
    ensures WalkTokens(WalkTokens(ts, slug), slug) == WalkTokens(ts, slug)
    decreases ts
  {
    if ts != [] {
      var t := ts[0];
      var r := WalkTokens(ts, slug);
      var h := ResolvedHref(t, slug);
      var c := WalkTokens(t.children, slug);
      assert r[0] == Token(t.kind, h, c);
      assert r[1..] == WalkTokens(ts[1..], slug);
      WalkTokensIdempotent(t.children, slug);
      WalkTokensIdempotent(ts[1..], slug);
      ResolvedHrefIdempotent(t, slug, c);
      assert WalkTokens(r, slug)[0] == Token(t.kind, h, c);
      assert WalkTokens(r, slug)[1..] == WalkTokens(r[1..], slug);
    }
  }
}
