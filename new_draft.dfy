/**
 * scripts/new-blog-draft.ts: a title, an optional summary and a
 * comma-separated tag list become `src/content/blog/drafts/<slug>.mdx`,
 * holding scaffold front matter, unless a draft or a published post of that
 * name already exists.
 *
 * The answers to the prompts are parameters; `console` output is left out.
 */
module NewDraft {
  import opened Seqs
  import opened Text
  import opened FileTree
  import Publish

  // ---------------------------------------------------------------------
  // The slug
  // ---------------------------------------------------------------------

  /** A character of the pattern `[a-z0-9\s-]`, the ones the first
      replacement keeps. */
  predicate Kept(c: char) {
    'a' <= c <= 'z' || IsDigit(c) || IsSpace(c) || c == '-'
  }

  /** A character a slug may hold. */
  predicate SlugChar(c: char) {
    'a' <= c <= 'z' || IsDigit(c) || c == '-'
  }

  predicate IsDash(c: char) {
    c == '-'
  }

  /** `.replace(/[^a-z0-9\s-]/g, "")`. */
  function KeepSlugChars(s: string): (r: string)
    ensures forall i :: 0 <= i < |r| ==> Kept(r[i])
    ensures r == [] <==> forall i :: 0 <= i < |s| ==> !Kept(s[i])
  {
    if s == [] then []
    else if Kept(s[0]) then [s[0]] + KeepSlugChars(s[1..])
    else
      var r := KeepSlugChars(s[1..]);
      assert forall i :: 1 <= i < |s| ==> s[i] == s[1..][i - 1];
      r
  }

  /** What is left of `s` after its leading run of `p` characters. */
  function DropRun(s: string, p: char -> bool): (r: string)
    ensures |r| <= |s| && r == s[|s| - |r|..]
    ensures r == [] || !p(r[0])
    ensures forall i :: 0 <= i < |s| - |r| ==> p(s[i])
  {
    if s != [] && p(s[0]) then DropRun(s[1..], p) else s
  }

  /** `.replace(/x+/g, c)` where `p` is the class `x`: each maximal run of
      `p` characters becomes the single character `c`. */
  function CollapseRuns(s: string, p: char -> bool, c: char): (r: string)
    ensures r == [] <==> s == []
    ensures r != [] ==> r[0] == (if p(s[0]) then c else s[0])
    ensures forall i :: 0 <= i < |r| ==> r[i] == c || (!p(r[i]) && r[i] in s)
    decreases |s|
  {
    if s == [] then []
    else if p(s[0]) then
      var t := DropRun(s[1..], p);
      var rest := CollapseRuns(t, p, c);
      ConsCollapsed(c, rest, t, s, p, c);
      [c] + rest
    else
      var rest := CollapseRuns(s[1..], p, c);
      ConsCollapsed(s[0], rest, s[1..], s, p, c);
      [s[0]] + rest
  }

  lemma ConsCollapsed(x: char, rest: string, t: string, s: string, p: char -> bool, c: char)
    requires |t| <= |s| && t == s[|s| - |t|..]
    requires x == c || (!p(x) && x in s)
    requires forall i :: 0 <= i < |rest| ==> rest[i] == c || (!p(rest[i]) && rest[i] in t)
    ensures forall i :: 0 <= i < |[x] + rest| ==> ([x] + rest)[i] == c || (!p(([x] + rest)[i]) && ([x] + rest)[i] in s)
  {
    assert forall y :: y in t ==> y in s;
  }

  /** The last character of the result is `c` when `s` ends in a run of
      `p` characters and the last character of `s` otherwise. */
  lemma {:induction false} CollapseLast(s: string, p: char -> bool, c: char)
    requires s != []
    ensures var r := CollapseRuns(s, p, c);
      r[|r| - 1] == (if p(s[|s| - 1]) then c else s[|s| - 1])
    decreases |s|
  {
    if p(s[0]) {
      var t := DropRun(s[1..], p);
      assert CollapseRuns(s, p, c) == [c] + CollapseRuns(t, p, c);
      if t != [] {
        CollapseLast(t, p, c);
        assert t[|t| - 1] == s[|s| - 1];
      } else {
        assert p(s[|s| - 1]);
      }
    } else if |s| > 1 {
      assert CollapseRuns(s, p, c) == [s[0]] + CollapseRuns(s[1..], p, c);
      CollapseLast(s[1..], p, c);
    }
  }

  /** `title.toLowerCase().replace(/[^a-z0-9\s-]/g, "").replace(/\s+/g,
      "-").replace(/-+/g, "-")`. */
  function Slug(title: string): string {
    CollapseRuns(CollapseRuns(KeepSlugChars(LowerAscii(title)), IsSpace, '-'), IsDash, '-')
  }

  /** `${slug}.mdx`. */
  function SlugFile(title: string): string {
    Slug(title) + ".mdx"
  }

  /** No two hyphens side by side. */
  predicate NoDoubleDash(s: string) {
    forall i :: 0 <= i < |s| - 1 ==> !(s[i] == '-' && s[i + 1] == '-')
  }

  /** Collapsing the hyphen runs leaves no two hyphens side by side. */
  lemma {:induction false} CollapseDashesSingle(s: string)
    ensures NoDoubleDash(CollapseRuns(s, IsDash, '-'))
    decreases |s|
  {
    if s != [] {
      if IsDash(s[0]) {
        var t := DropRun(s[1..], IsDash);
        CollapseDashesSingle(t);
      } else {
        CollapseDashesSingle(s[1..]);
      }
    }
  }

  /** A slug is made of lower-case ASCII letters, digits and hyphens (so
      it is one path segment), and never holds two hyphens in a row. */
  lemma SlugChars(title: string)
    ensures forall i :: 0 <= i < |Slug(title)| ==> SlugChar(Slug(title)[i])
    ensures NoDoubleDash(Slug(title))
  {
    var kept := KeepSlugChars(LowerAscii(title));
    var dashed := CollapseRuns(kept, IsSpace, '-');
    assert forall x :: x in dashed ==> x == '-' || (!IsSpace(x) && x in kept);
    assert forall x :: x in dashed ==> SlugChar(x);
    CollapseDashesSingle(dashed);
  }

  /** Collapsing changes nothing when every `p` character is `c` and no two
      of them are adjacent. */
  lemma {:induction false} CollapseUnchanged(s: string, p: char -> bool, c: char)
    requires forall i :: 0 <= i < |s| ==> (p(s[i]) ==> s[i] == c)
    requires forall i :: 0 <= i < |s| - 1 ==> !(p(s[i]) && p(s[i + 1]))
    ensures CollapseRuns(s, p, c) == s
    decreases |s|
  {
    if s != [] {
      CollapseUnchanged(s[1..], p, c);
      if p(s[0]) {
        assert DropRun(s[1..], p) == s[1..];
      }
    }
  }

  /** A slug is its own slug: deriving a slug twice gives the same name. */
  lemma SlugIdempotent(title: string)
    ensures Slug(Slug(title)) == Slug(title)
  {
    var s := Slug(title);
    SlugChars(title);
    assert LowerAscii(s) == s;
    KeepAll(s);
    CollapseUnchanged(s, IsSpace, '-');
    CollapseUnchanged(s, IsDash, '-');
  }

  lemma {:induction false} KeepAll(s: string)
    requires forall i :: 0 <= i < |s| ==> SlugChar(s[i])
    ensures KeepSlugChars(s) == s
  {
    if s != [] {
      KeepAll(s[1..]);
    }
  }

  /** A title with no letter, digit, white space or hyphen left after
      lower-casing gives the empty slug, and so the file name `.mdx`; every
      other title gives a non-empty slug. */
  lemma SlugEmpty(title: string)
    ensures Slug(title) == [] <==> forall i :: 0 <= i < |title| ==> !Kept(LowerChar(title[i]))
    ensures Slug(title) == [] ==> SlugFile(title) == ".mdx"
  {
  }

  /** White space at the start of the title is not trimmed: it becomes a
      hyphen at the start of the slug. */
  lemma SlugStart(title: string)
    requires title != [] && IsSpace(title[0])
    ensures Slug(title) != [] && Slug(title)[0] == '-'
  {
    var lower := LowerAscii(title);
    assert lower[0] == title[0];
    KeepFirst(lower);
    var kept := KeepSlugChars(lower);
    var dashed := CollapseRuns(kept, IsSpace, '-');
    assert dashed[0] == '-';
  }

  /** White space at the end of the title is not trimmed either: it
      becomes a hyphen at the end of the slug. */
  lemma SlugEnd(title: string)
    requires title != [] && IsSpace(title[|title| - 1])
    ensures Slug(title) != [] && Slug(title)[|Slug(title)| - 1] == '-'
  {
    var lower := LowerAscii(title);
    assert lower[|lower| - 1] == title[|title| - 1];
    KeepLast(lower);
    var kept := KeepSlugChars(lower);
    SpaceEndSlugged(kept);
  }

  lemma SpaceEndSlugged(kept: string)
    requires kept != [] && IsSpace(kept[|kept| - 1])
    ensures var d := CollapseRuns(CollapseRuns(kept, IsSpace, '-'), IsDash, '-');
      d != [] && d[|d| - 1] == '-'
  {
    var dashed := CollapseRuns(kept, IsSpace, '-');
    CollapseLast(kept, IsSpace, '-');
    DashEndStays(dashed);
  }

  lemma DashEndStays(s: string)
    requires s != [] && s[|s| - 1] == '-'
    ensures CollapseRuns(s, IsDash, '-') != [] && CollapseRuns(s, IsDash, '-')[|CollapseRuns(s, IsDash, '-')| - 1] == '-'
  {
    CollapseLast(s, IsDash, '-');
  }

  lemma KeepFirst(s: string)
    requires s != [] && Kept(s[0])
    ensures KeepSlugChars(s) != [] && KeepSlugChars(s)[0] == s[0]
  {
  }

  lemma {:induction false} KeepLast(s: string)
    requires s != [] && Kept(s[|s| - 1])
    ensures KeepSlugChars(s) != [] && KeepSlugChars(s)[|KeepSlugChars(s)| - 1] == s[|s| - 1]
  {
    if |s| > 1 {
      KeepLast(s[1..]);
    }
  }

  /** The letters and digits of a string, in order. */
  function Alnum(s: string): string {
    if s == [] then []
    else if 'a' <= s[0] <= 'z' || IsDigit(s[0]) then [s[0]] + Alnum(s[1..])
    else Alnum(s[1..])
  }

  lemma {:induction false} AlnumConcat(a: string, b: string)
    ensures Alnum(a + b) == Alnum(a) + Alnum(b)
  {
    if a != [] {
      ConsTail(a, b);
      AlnumConcat(a[1..], b);
      AlnumUnfold(a + b);
      AlnumUnfold(a);
      Assoc(AlnumHead(a[0]), Alnum(a[1..]), Alnum(b));
    } else {
      assert a + b == b && Alnum(a) == [];
      assert Alnum(a) + Alnum(b) == Alnum(b);
    }
  }

  /** What the first character contributes. */
  function AlnumHead(c: char): string {
    if 'a' <= c <= 'z' || IsDigit(c) then [c] else []
  }

  lemma AlnumUnfold(s: string)
    requires s != []
    ensures Alnum(s) == AlnumHead(s[0]) + Alnum(s[1..])
  {
    assert [] + Alnum(s[1..]) == Alnum(s[1..]);
  }

  lemma {:induction false} AlnumKeep(s: string)
    ensures Alnum(KeepSlugChars(s)) == Alnum(s)
  {
    if s != [] {
      AlnumKeep(s[1..]);
    }
  }

  lemma {:induction false} AlnumDropRun(s: string, p: char -> bool)
    requires forall x :: p(x) ==> !('a' <= x <= 'z' || IsDigit(x))
    ensures Alnum(DropRun(s, p)) == Alnum(s)
  {
    if s != [] && p(s[0]) {
      AlnumDropRun(s[1..], p);
    }
  }

  lemma {:induction false} AlnumCollapse(s: string, p: char -> bool, c: char)
    requires forall x :: p(x) ==> !('a' <= x <= 'z' || IsDigit(x))
    requires !('a' <= c <= 'z' || IsDigit(c))
    ensures Alnum(CollapseRuns(s, p, c)) == Alnum(s)
    decreases |s|
  {
    if s != [] {
      if p(s[0]) {
        var t := DropRun(s[1..], p);
        AlnumCollapse(t, p, c);
        AlnumDropRun(s[1..], p);
        AlnumConcat([c], CollapseRuns(t, p, c));
      } else {
        AlnumCollapse(s[1..], p, c);
        AlnumConcat([s[0]], CollapseRuns(s[1..], p, c));
      }
    }
  }

  /** Every ASCII letter and digit of the title survives, lower-cased and in
      its order; nothing else of the title but hyphens remains. */
  lemma SlugKeepsAlnum(title: string)
    ensures Alnum(Slug(title)) == Alnum(LowerAscii(title))
  {
    var kept := KeepSlugChars(LowerAscii(title));
    AlnumKeep(LowerAscii(title));
    AlnumCollapse(kept, IsSpace, '-');
    AlnumCollapse(CollapseRuns(kept, IsSpace, '-'), IsDash, '-');
  }

  // ---------------------------------------------------------------------
  // The tags
  // ---------------------------------------------------------------------

  lemma TrimWithin(s: string)
    ensures forall x :: x in Trim(s) ==> x in s
  {
    var t := TrimStart(s);
    assert forall x :: x in t ==> x in s;
    assert forall x :: x in TrimEnd(t) ==> x in t;
  }

  /** `.map((tag) => tag.trim()).filter((tag) => tag.length > 0)`. */
  function CleanTags(pieces: seq<string>): (r: seq<string>)
    ensures forall i :: 0 <= i < |r| ==> r[i] != [] && Trimmed(r[i])
  {
    if pieces == [] then []
    else
      var t := Trim(pieces[0]);
      var rest := CleanTags(pieces[1..]);
      if t == [] then rest
      else
        ConsTag(t, rest);
        [t] + rest
  }

  lemma ConsTag(t: string, rest: seq<string>)
    requires t != [] && Trimmed(t)
    requires forall i :: 0 <= i < |rest| ==> rest[i] != [] && Trimmed(rest[i])
    ensures forall i :: 0 <= i < |[t] + rest| ==> ([t] + rest)[i] != [] && Trimmed(([t] + rest)[i])
  {
  }

  /** A tag holds only characters of the piece it was cut from. */
  lemma {:induction false} CleanTagsWithin(pieces: seq<string>, c: char)
    requires forall i :: 0 <= i < |pieces| ==> c !in pieces[i]
    ensures forall i :: 0 <= i < |CleanTags(pieces)| ==> c !in CleanTags(pieces)[i]
  {
    if pieces != [] {
      TrimWithin(pieces[0]);
      CleanTagsWithin(pieces[1..], c);
    }
  }

  /** `tags.split(",")` cleaned: each tag non-empty, without surrounding
      white space and without a comma. */
  function ParseTags(input: string): (r: seq<string>)
    ensures forall i :: 0 <= i < |r| ==> r[i] != [] && Trimmed(r[i]) && ',' !in r[i]
  {
    CleanTagsWithin(Split(input, ','), ',');
    CleanTags(Split(input, ','))
  }

  /** Tags that could come out of parsing, written with commas between
      them, parse back to themselves. */
  lemma ParseTagsJoin(tags: seq<string>)
    requires forall i :: 0 <= i < |tags| ==> tags[i] != [] && Trimmed(tags[i]) && ',' !in tags[i]
    ensures ParseTags(Join(tags, ",")) == tags
  {
    if tags != [] {
      SplitJoin(tags, ',');
      CleanOfClean(tags);
    }
  }

  lemma {:induction false} CleanOfClean(tags: seq<string>)
    requires forall i :: 0 <= i < |tags| ==> tags[i] != [] && Trimmed(tags[i])
    ensures CleanTags(tags) == tags
  {
    if tags != [] {
      TrimOfTrimmed(tags[0]);
      CleanOfClean(tags[1..]);
    }
  }

  // ---------------------------------------------------------------------
  // The scaffold
  // ---------------------------------------------------------------------

  function Quoted(s: string): string {
    "\"" + s + "\""
  }

  function QuoteAll(tags: seq<string>): (r: seq<string>)
    ensures |r| == |tags| && forall i :: 0 <= i < |tags| ==> r[i] == Quoted(tags[i])
  {
    if tags == [] then [] else [Quoted(tags[0])] + QuoteAll(tags[1..])
  }

  /** `tags: [${tagsArray.map((tag) => `"${tag}"`).join(", ")}]`. */
  function TagsLine(tags: seq<string>): string {
    "tags: [" + Join(QuoteAll(tags), ", ") + "]"
  }

  /** The `tags: []` branch writes what the other branch would write for no
      tags: the line is the same either way. */
  lemma TagsLineEmpty()
    ensures TagsLine([]) == "tags: []"
  {
  }

  /** The scaffold lines: the opening `---`, the title, the summary when it
      has non-white-space content, the tags, the closing `---` and two
      empty lines. Title and summary go in verbatim, quotes unescaped. */
  function Scaffold(title: string, summary: string, tags: seq<string>): seq<string> {
    ["---", "title: " + Quoted(title)]
    + (if Trim(summary) != [] then ["summary: " + Quoted(summary)] else [])
    + [TagsLine(tags)]
    + ["---", "", ""]
  }

  /** `frontmatterLines` as the script pushes them. */
  method BuildScaffold(title: string, summary: string, tags: seq<string>) returns (lines: seq<string>)
    ensures lines == Scaffold(title, summary, tags)
  {
    lines := ["---", "title: " + Quoted(title)];
    if Trim(summary) != [] {
      lines := lines + ["summary: " + Quoted(summary)];
    }
    var tagsLine;
    if |tags| > 0 {
      tagsLine := "tags: [" + Join(QuoteAll(tags), ", ") + "]";
    } else {
      TagsLineEmpty();
      tagsLine := "tags: []";
    }
    assert tagsLine == TagsLine(tags);
    lines := lines + [tagsLine];
    lines := lines + ["---", "", ""];
  }

  /** The scaffold's shape: six lines, seven with a summary, the title on
      the second line, the summary (when present) on the third, the tags
      line fourth from last, and `---` with two empty lines at the end. */
  lemma ScaffoldShape(title: string, summary: string, tags: seq<string>)
    ensures var lines := Scaffold(title, summary, tags);
      && |lines| == (if Trim(summary) != [] then 7 else 6)
      && lines[0] == "---" && lines[1] == "title: " + Quoted(title)
      && (Trim(summary) != [] ==> lines[2] == "summary: " + Quoted(summary))
      && lines[|lines| - 4] == TagsLine(tags)
      && lines[|lines| - 3..] == ["---", "", ""]
  {
    var mid := if Trim(summary) != [] then ["summary: " + Quoted(summary)] else [];
    LinesShape("---", "title: " + Quoted(title), mid, TagsLine(tags), ["---", "", ""]);
  }

  /** Where the pieces of a list of lines built by concatenation sit. */
  lemma LinesShape<T>(x0: T, x1: T, mid: seq<T>, g: T, tail: seq<T>)
    requires |mid| <= 1 && |tail| == 3
    ensures var l := [x0, x1] + mid + [g] + tail;
      && |l| == 6 + |mid| && l[0] == x0 && l[1] == x1
      && (|mid| == 1 ==> l[2] == mid[0])
      && l[|l| - 4] == g && l[|l| - 3..] == tail
  {
    var l := [x0, x1] + mid + [g] + tail;
    assert l[|l| - 3..] == tail;
  }


  /** The text written: the lines joined with newlines. */
  function ScaffoldText(title: string, summary: string, tags: seq<string>): string {
    Join(Scaffold(title, summary, tags), "\n")
  }

  // ---------------------------------------------------------------------
  // The script
  // ---------------------------------------------------------------------

  /** How the script ends: exit code 0 after writing the draft, 1 when the
      name is taken, and an uncaught exception when a file stands where a
      folder is needed. */
  datatype DraftExit = Created | DraftExists | PostExists | Crashed

  /** A file stands at a folder above the drafts folder, so creating the
      drafts folder throws. */
  predicate Blocked(fs: Fs) {
    exists k :: 1 <= k < |DraftsDir| && IsFile(fs, DraftsDir[..k])
  }

  /** `dirs` is `fs` with, at most, folders above or at the drafts folder
      added. */
  ghost predicate Grown(fs: Fs, dirs: Fs) {
    && (forall q :: q in fs ==> q in dirs && dirs[q] == fs[q])
    && (forall q :: q in dirs ==> q in fs || Ancestor(q, DraftsDir))
  }

  /** `mkdirSync(draftsDir, { recursive: true })` when nothing is in the
      way: the drafts folder is a folder afterwards and nothing else
      changes. */
  lemma MakeDraftsDir(fs: Fs)
    requires DraftsDir !in fs && !Blocked(fs)
    ensures IsDir(MakeDirs(fs, DraftsDir), DraftsDir)
    ensures Grown(fs, MakeDirs(fs, DraftsDir))
  {
    assert Ancestor(DraftsDir, DraftsDir);
  }

  /** Writing a new file at `p` onto a grown tree keeps the growth rule. */
  lemma WriteGrown(fs: Fs, dirs: Fs, p: Path, v: Entry)
    requires Grown(fs, dirs) && p !in fs
    ensures forall q :: q in fs ==> q in dirs[p := v] && dirs[p := v][q] == fs[q]
    ensures forall q :: q in dirs[p := v] ==> q in fs || q == p || Ancestor(q, DraftsDir)
  {
  }

  method NewDraft(fs: Fs, title: string, summary: string, tagsInput: string) returns (fs': Fs, exit: DraftExit)
    ensures exit == DraftExists <==> Publish.DraftPath(SlugFile(title)) in fs
    ensures exit == PostExists <==> Publish.DraftPath(SlugFile(title)) !in fs && Publish.TargetPath(SlugFile(title)) in fs
    ensures exit == Created <==>
      Publish.DraftPath(SlugFile(title)) !in fs && Publish.TargetPath(SlugFile(title)) !in fs
      && (if DraftsDir in fs then IsDir(fs, DraftsDir) else !Blocked(fs))
    ensures exit != Created ==> fs' == fs
    ensures exit == Created ==>
      Publish.DraftPath(SlugFile(title)) in fs'
      && fs'[Publish.DraftPath(SlugFile(title))] == File(ScaffoldText(title, summary, ParseTags(tagsInput)))
    ensures exit == Created ==> forall q :: q in fs ==> q in fs' && fs'[q] == fs[q]
    ensures exit == Created ==> forall q :: q in fs' ==> q in fs || q == Publish.DraftPath(SlugFile(title)) || Ancestor(q, DraftsDir)
  {
    var filename := SlugFile(title);
    var draftPath := Publish.DraftPath(filename);
    var publishedPath := Publish.TargetPath(filename);
    if draftPath in fs {
      return fs, DraftExists;
    }
    if publishedPath in fs {
      return fs, PostExists;
    }
    var dirs := fs;
    if DraftsDir !in fs {
      if Blocked(fs) {
        // `mkdirSync` throws on a file in the way
        return fs, Crashed;
      }
      MakeDraftsDir(fs);
      dirs := MakeDirs(fs, DraftsDir);
    }
    assert Grown(fs, dirs);
    var tags := ParseTags(tagsInput);
    var lines := BuildScaffold(title, summary, tags);
    if !IsDir(dirs, DraftsDir) {
      // `writeFileSync` throws: the drafts folder is a file
      return fs, Crashed;
    }
    fs' := dirs[draftPath := File(Join(lines, "\n"))];
    WriteGrown(fs, dirs, draftPath, File(Join(lines, "\n")));
    exit := Created;
  }

  /** A draft the script creates is one the publish script lists. */
  lemma CreatedIsListed(fs: Fs, title: string)
    requires Publish.DraftPath(SlugFile(title)) in fs
    ensures SlugFile(title) in Publish.DraftFiles(fs)
  {
    assert EndsWith(SlugFile(title), ".mdx");
    assert DraftsDir + [SlugFile(title)] == Publish.DraftPath(SlugFile(title));
  }
}
