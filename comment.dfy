/**
 * The `Comment` component (src/components/mdx/comment.tsx): its text is
 * shown as a link when the whole of it is a Markdown link `[text](url)`,
 * and as bold text otherwise. Only string children are modelled.
 */
module Comment {
  import opened Text
  import opened Common

  datatype Link = Link(text: string, url: string)

  /** A text and a url that `[text](url)` is made of: both non-empty, the
      text without `]` and the url without `)`. */
  predicate ValidLink(l: Link) {
    l.text != [] && ']' !in l.text && l.url != [] && ')' !in l.url
  }

  function Render(l: Link): string {
    "[" + l.text + "](" + l.url + ")"
  }

  /** `parseMarkdownLink`: the anchored match of `^\[([^\]]+)\]\(([^)]+)\)$`. */
  function ParseMarkdownLink(s: string): (r: Option<Link>)
    ensures r.Some? ==> ValidLink(r.value)
  {
    if s != [] && s[0] == '[' && ']' in s[1..] then
      var text := UpTo(s[1..], ']');
      var rest := s[1 + |text| + 1..];
      if text != [] && rest != [] && rest[0] == '(' && ')' in rest[1..] then
        var url := UpTo(rest[1..], ')');
        if url != [] && |rest| == |url| + 2 then
          Some(Link(text, url))
        else None
      else None
    else None
  }

  /** A string that parses is the rendering of the link parsed from it. */
  lemma ParseSound(s: string)
    requires ParseMarkdownLink(s).Some?
    ensures Render(ParseMarkdownLink(s).value) == s
  {
    var text := UpTo(s[1..], ']');
    var rest := s[1 + |text| + 1..];
    RenderParts(s, text, rest, UpTo(rest[1..], ')'));
  }

  /** A string made of an opening character, `body` and the closing
      character right after it. */
  lemma Bracketed(s: string, open: char, body: string, close: char)
    requires |s| == |body| + 2 && s[0] == open
    requires s[1..][..|body|] == body && s[1..][|body|] == close
    ensures s == [open] + body + [close]
  {
    assert s[1..] == body + [close];
  }

  lemma RenderParts(s: string, text: string, rest: string, url: string)
    requires |s| >= |text| + 2 && s[0] == '['
    requires s[1..][..|text|] == text && s[1..][|text|] == ']'
    requires rest == s[1 + |text| + 1..]
    requires |rest| == |url| + 2 && rest[0] == '('
    requires rest[1..][..|url|] == url && rest[1..][|url|] == ')'
    ensures s == Render(Link(text, url))
  {
    Bracketed(rest, '(', url, ')');
    Bracketed(s[..|text| + 2], '[', text, ']');
    assert s == s[..|text| + 2] + rest;
  }

  /** Every valid link is parsed back from its rendering. */
  lemma ParseRender(l: Link)
    requires ValidLink(l)
    ensures ParseMarkdownLink(Render(l)) == Some(l)
  {
    var s := Render(l);
    LinkPieces('[', l.text, ']', '(', l.url, ')');
    assert s == ['['] + l.text + [']', '('] + l.url + [')'];
    UpToBefore(l.text, ']', [']'] + (['('] + (l.url + [')'])));
    var rest := s[1 + |l.text| + 1..];
    assert rest == ['('] + (l.url + [')']);
    UpToBefore(l.url, ')', [')']);
    ParseOfParts(s, l.text, rest, l.url);
  }

  /** The parser's steps on a string whose pieces have been found. */
  lemma ParseOfParts(s: string, text: string, rest: string, url: string)
    requires s != [] && s[0] == '[' && ']' in s[1..] && UpTo(s[1..], ']') == text && text != []
    requires |s| >= |text| + 2 && rest == s[1 + |text| + 1..]
    requires rest != [] && rest[0] == '(' && ')' in rest[1..] && UpTo(rest[1..], ')') == url
    requires url != [] && |rest| == |url| + 2
    ensures ParseMarkdownLink(s) == Some(Link(text, url))
  {
  }

  /** A rendering cut after its opening character, and after the text
      and the character that closes it. */
  lemma LinkPieces<T>(a: T, x: seq<T>, b: T, c: T, y: seq<T>, d: T)
    ensures var s := [a] + x + [b, c] + y + [d];
      && s[0] == a && s[1..] == x + ([b] + ([c] + (y + [d])))
      && s[|x| + 2..] == [c] + (y + [d])
  {
    var s := [a] + x + [b, c] + y + [d];
    assert s[1..] == x + [b, c] + y + [d];
  }

  /** A string parses exactly when it is the rendering of a valid link. */
  lemma ParseExactly(s: string)
    ensures ParseMarkdownLink(s).Some? <==> exists l :: ValidLink(l) && Render(l) == s
  {
    if exists l :: ValidLink(l) && Render(l) == s {
      var l :| ValidLink(l) && Render(l) == s;
      ParseRender(l);
    }
    if ParseMarkdownLink(s).Some? {
      ParseSound(s);
    }
  }

  /** What the component shows. */
  datatype View = LinkView(href: string, linkText: string) | PlainView(children: string)

  /** `Comment`: an anchor to the url labelled by the text when the
      children are a Markdown link, the children unchanged otherwise. */
  function CommentView(children: string): (v: View)
    ensures v.PlainView? <==> ParseMarkdownLink(children).None?
    ensures v.PlainView? ==> v.children == children
    ensures v.LinkView? ==> Render(Link(v.linkText, v.href)) == children
  {
    match ParseMarkdownLink(children)
    case Some(l) =>
      ParseSound(children);
      LinkView(l.url, l.text)
    case None => PlainView(children)
  }
}
