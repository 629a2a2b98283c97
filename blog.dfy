/**
 * The post index of src/lib/blog.ts. Posts live at
 * `src/content/blog/<year>/<slug>/index.mdx`, where `<year>` is a folder
 * named by exactly four digits. `getBlogPosts` lists every such post,
 * newest first; `getPost` finds one slug in the first year folder that
 * holds it. A call that throws (a file that cannot be read or parsed) is
 * `Threw`.
 */
module Blog {
  import opened Text
  import opened Common
  import opened FileTree
  import opened Frontmatter
  import opened Seqs

  /** What a call returned, or that it threw. */
  datatype Outcome<+T> = Returned(value: T) | Threw

  /** The metadata of a post, each field as the front matter holds it. */
  datatype BlogPost = BlogPost(
    slug: string,
    title: Value,
    publishedAt: Value,
    updatedAt: Value,
    summary: Value,
    image: Value,
    tags: Value)

  datatype PostWithContent = PostWithContent(post: BlogPost, content: string)

  /** `/^\d{4}$/`: exactly four ASCII digits. */
  predicate YearName(name: string) {
    |name| == 4 && AllDigits(name)
  }

  /** `src/content/blog/<year>/<slug>/index.mdx`. */
  function IndexPath(year: string, slug: string): Path {
    ContentRoot + [year, slug, "index.mdx"]
  }

  /** The names in `names` that are directories inside `dir` (and, when
      `yearsOnly`, year names), in the order given. */
  function DirsAmong(fs: Fs, dir: Path, names: seq<string>, yearsOnly: bool): (r: seq<string>)
    ensures forall x :: x in r <==> x in names && IsDir(fs, dir + [x]) && (yearsOnly ==> YearName(x))
    ensures Ascending(names) ==> Ascending(r)
  {
    if names == [] then []
    else
      var rest := DirsAmong(fs, dir, names[1..], yearsOnly);
      if IsDir(fs, dir + [names[0]]) && (yearsOnly ==> YearName(names[0])) then
        assert Ascending(names) ==> forall j :: 0 <= j < |rest| ==> Below(names[0], rest[j]) by {
          if Ascending(names) {
            forall j | 0 <= j < |rest| ensures Below(names[0], rest[j]) {
              assert rest[j] in rest;
              var k :| 0 <= k < |names[1..]| && names[1..][k] == rest[j];
              assert names[k + 1] == rest[j];
            }
          }
        }
        [names[0]] + rest
      else rest
  }

  /** The year folders, in ascending order (`yearDirs`). */
  function YearDirs(fs: Fs): (r: seq<string>)
    ensures Ascending(r)
    ensures forall y :: y in r <==> YearName(y) && IsDir(fs, ContentRoot + [y])
  {
    DirsAmong(fs, ContentRoot, ReadDir(fs, ContentRoot), true)
  }

  /** The post folders of one year, in ascending order (`slugs`). */
  function SlugDirs(fs: Fs, year: string): (r: seq<string>)
    ensures Ascending(r)
    ensures forall s :: s in r <==> IsDir(fs, ContentRoot + [year, s])
  {
    assert forall s :: ContentRoot + [year] + [s] == ContentRoot + [year, s];
    DirsAmong(fs, ContentRoot + [year], ReadDir(fs, ContentRoot + [year]), false)
  }

  /** `readFileSync` and `matter` of one file: it throws for a directory
      and for text that does not parse. */
  function ReadDoc(fs: Fs, codec: Codec, p: Path): (r: Outcome<Doc>)
    requires p in fs
    ensures r.Returned? <==> IsFile(fs, p) && codec.parse(fs[p].content).Some?
    ensures r.Returned? ==> r.value == codec.parse(fs[p].content).value
  {
    match fs[p]
    case Directory => Threw
    case File(text) =>
      match codec.parse(text)
      case None => Threw
      case Some(doc) => Returned(doc)
  }

  /** The post object built from a slug and its front matter: every field
      read as it stands, and `tags` falling back to `[]` when falsy. */
  function PostOf(slug: string, data: Record): (p: BlogPost)
    ensures p.slug == slug && p.title == Get(data, "title") && p.publishedAt == Get(data, "publishedAt")
    ensures p.updatedAt == Get(data, "updatedAt") && p.summary == Get(data, "summary") && p.image == Get(data, "image")
    ensures Truthy(p.tags)
    ensures Truthy(Get(data, "tags")) ==> p.tags == Get(data, "tags")
    ensures !Truthy(Get(data, "tags")) ==> p.tags == List([])
  {
    var tags := Get(data, "tags");
    BlogPost(slug, Get(data, "title"), Get(data, "publishedAt"), Get(data, "updatedAt"),
      Get(data, "summary"), Get(data, "image"), if Truthy(tags) then tags else List([]))
  }

  /** `p` was read from `year`'s folder of its slug. */
  predicate FromFile(fs: Fs, codec: Codec, year: string, p: BlogPost) {
    var path := IndexPath(year, p.slug);
    IsFile(fs, path) && codec.parse(fs[path].content).Some?
      && p == PostOf(p.slug, codec.parse(fs[path].content).value.data)
  }

  /** The index file of `slug` in `year` exists and reads without throwing. */
  predicate Readable(fs: Fs, codec: Codec, year: string, slug: string) {
    var path := IndexPath(year, slug);
    path in fs ==> ReadDoc(fs, codec, path).Returned?
  }

  /** The posts of `slugs` in one year, in order; a folder without
      `index.mdx` is skipped. */
  function SlugPosts(fs: Fs, codec: Codec, year: string, slugs: seq<string>): Outcome<seq<BlogPost>>
    decreases |slugs|
  {
    if slugs == [] then Returned([])
    else
      var slug := slugs[|slugs| - 1];
      match SlugPosts(fs, codec, year, slugs[..|slugs| - 1])
      case Threw => Threw
      case Returned(ps) =>
        var path := IndexPath(year, slug);
        if path !in fs then Returned(ps)
        else
          match ReadDoc(fs, codec, path)
          case Threw => Threw
          case Returned(doc) => Returned(ps + [PostOf(slug, doc.data)])
  }

  /** The posts of the given years, year after year. */
  function YearPosts(fs: Fs, codec: Codec, years: seq<string>): Outcome<seq<BlogPost>>
    decreases |years|
  {
    if years == [] then Returned([])
    else
      var year := years[|years| - 1];
      match YearPosts(fs, codec, years[..|years| - 1])
      case Threw => Threw
      case Returned(ps) =>
        match SlugPosts(fs, codec, year, SlugDirs(fs, year))
        case Threw => Threw
        case Returned(qs) => Returned(ps + qs)
  }

  /** A year's posts come from exactly the readable index files of its
      folders, and the walk throws exactly when one of them is unreadable. */
  lemma {:induction false} SlugPostsSpec(fs: Fs, codec: Codec, year: string, slugs: seq<string>)
    ensures SlugPosts(fs, codec, year, slugs).Returned? <==> forall s :: s in slugs ==> Readable(fs, codec, year, s)
    ensures SlugPosts(fs, codec, year, slugs).Returned? ==>
      var ps := SlugPosts(fs, codec, year, slugs).value;
      (forall p :: p in ps ==> p.slug in slugs && FromFile(fs, codec, year, p))
      && (forall s :: s in slugs && IndexPath(year, s) in fs ==> exists p :: p in ps && p.slug == s)
    decreases |slugs|
  {
    if slugs != [] {
      var init := slugs[..|slugs| - 1];
      var slug := slugs[|slugs| - 1];
      assert forall s :: s in slugs <==> s in init || s == slug by {
        assert slugs == init + [slug];
      }
      SlugPostsSpec(fs, codec, year, init);
      var path := IndexPath(year, slug);
      if path in fs && SlugPosts(fs, codec, year, init).Returned? && ReadDoc(fs, codec, path).Returned? {
        var ps := SlugPosts(fs, codec, year, init).value;
        var p := PostOf(slug, ReadDoc(fs, codec, path).value.data);
        assert SlugPosts(fs, codec, year, slugs) == Returned(ps + [p]);
        assert FromFile(fs, codec, year, p);
      }
    }
  }

  /** Every existing index file under the given years reads without throwing. */
  predicate AllReadable(fs: Fs, codec: Codec, years: seq<string>) {
    forall y, s :: y in years && s in SlugDirs(fs, y) ==> Readable(fs, codec, y, s)
  }

  /** Every post in `ps` was read from a folder of one of `years`. */
  predicate Sourced(fs: Fs, codec: Codec, years: seq<string>, ps: seq<BlogPost>) {
    forall p :: p in ps ==> exists y :: y in years && p.slug in SlugDirs(fs, y) && FromFile(fs, codec, y, p)
  }

  /** Every index file under `years` gave a post in `ps`. */
  predicate Complete(fs: Fs, codec: Codec, years: seq<string>, ps: seq<BlogPost>) {
    forall y, s :: y in years && s in SlugDirs(fs, y) && IndexPath(y, s) in fs ==>
      exists p :: p in ps && p.slug == s && FromFile(fs, codec, y, p)
  }

  /** One more year folder: its posts follow those already read. */
  lemma YearPostsSnoc(fs: Fs, codec: Codec, init: seq<string>, year: string)
    ensures var a := YearPosts(fs, codec, init);
      var b := SlugPosts(fs, codec, year, SlugDirs(fs, year));
      YearPosts(fs, codec, init + [year]) == if a.Threw? || b.Threw? then Threw else Returned(a.value + b.value)
  {
    assert (init + [year])[..|init|] == init;
  }

  /** One more slug folder: its post, if it has one, follows the others. */
  lemma SlugPostsSnoc(fs: Fs, codec: Codec, year: string, init: seq<string>, slug: string)
    ensures SlugPosts(fs, codec, year, init + [slug]) ==
      match SlugPosts(fs, codec, year, init)
      case Threw => Threw
      case Returned(ps) =>
        if IndexPath(year, slug) !in fs then Returned(ps)
        else match ReadDoc(fs, codec, IndexPath(year, slug))
          case Threw => Threw
          case Returned(doc) => Returned(ps + [PostOf(slug, doc.data)])
  {
    assert (init + [slug])[..|init|] == init;
  }

  /** The walk over the years throws exactly when an index file under
      one of them cannot be read. */
  lemma {:induction false} YearPostsReturns(fs: Fs, codec: Codec, years: seq<string>)
    ensures YearPosts(fs, codec, years).Returned? <==> AllReadable(fs, codec, years)
    decreases |years|
  {
    if years != [] {
      var init := years[..|years| - 1];
      var year := years[|years| - 1];
      assert years == init + [year];
      YearPostsReturns(fs, codec, init);
      SlugPostsSpec(fs, codec, year, SlugDirs(fs, year));
      YearPostsSnoc(fs, codec, init, year);
      AllReadableSnoc(fs, codec, init, year);
    }
  }

  lemma AllReadableSnoc(fs: Fs, codec: Codec, init: seq<string>, year: string)
    ensures AllReadable(fs, codec, init + [year]) <==>
      AllReadable(fs, codec, init) && forall s :: s in SlugDirs(fs, year) ==> Readable(fs, codec, year, s)
  {
    assert forall y :: y in init + [year] <==> y in init || y == year;
  }

  /** Every post of the walk was read from a folder of one of the years,
      and every index file under them gave a post. */
  lemma {:induction false} YearPostsSpec(fs: Fs, codec: Codec, years: seq<string>)
    requires YearPosts(fs, codec, years).Returned?
    ensures Sourced(fs, codec, years, YearPosts(fs, codec, years).value)
    ensures Complete(fs, codec, years, YearPosts(fs, codec, years).value)
    decreases |years|
  {
    if years != [] {
      var init := years[..|years| - 1];
      var year := years[|years| - 1];
      assert years == init + [year];
      YearPostsSnoc(fs, codec, init, year);
      var a := YearPosts(fs, codec, init);
      var b := SlugPosts(fs, codec, year, SlugDirs(fs, year));
      YearPostsSpec(fs, codec, init);
      SlugPostsSpec(fs, codec, year, SlugDirs(fs, year));
      SlugPostsFound(fs, codec, year, SlugDirs(fs, year));
      var ps := a.value + b.value;
      assert YearPosts(fs, codec, years).value == ps;
      YearPostsSourcedStep(fs, codec, init, year, a.value, b.value);
      YearPostsCompleteStep(fs, codec, init, year, a.value, b.value);
    }
  }

  lemma YearPostsSourcedStep(fs: Fs, codec: Codec, init: seq<string>, year: string, ps: seq<BlogPost>, qs: seq<BlogPost>)
    requires Sourced(fs, codec, init, ps)
    requires forall p :: p in qs ==> p.slug in SlugDirs(fs, year) && FromFile(fs, codec, year, p)
    ensures Sourced(fs, codec, init + [year], ps + qs)
  {
    var years := init + [year];
    forall p | p in ps + qs ensures exists y :: y in years && p.slug in SlugDirs(fs, y) && FromFile(fs, codec, y, p) {
      if p in ps {
        var y :| y in init && p.slug in SlugDirs(fs, y) && FromFile(fs, codec, y, p);
        assert y in years;
      } else {
        assert year in years;
      }
    }
  }

  lemma YearPostsCompleteStep(fs: Fs, codec: Codec, init: seq<string>, year: string, ps: seq<BlogPost>, qs: seq<BlogPost>)
    requires Complete(fs, codec, init, ps)
    requires forall s :: s in SlugDirs(fs, year) && IndexPath(year, s) in fs ==>
      exists p :: p in qs && p.slug == s && FromFile(fs, codec, year, p)
    ensures Complete(fs, codec, init + [year], ps + qs)
  {
    var years := init + [year];
    forall y, s | y in years && s in SlugDirs(fs, y) && IndexPath(y, s) in fs
      ensures exists p :: p in ps + qs && p.slug == s && FromFile(fs, codec, y, p)
    {
      if y == year {
        var p :| p in qs && p.slug == s && FromFile(fs, codec, y, p);
        assert p in ps + qs;
      } else {
        assert y in init;
        var p :| p in ps && p.slug == s && FromFile(fs, codec, y, p);
        assert p in ps + qs;
      }
    }
  }

  /** Each readable index file of a year shows up as a post read from it. */
  lemma {:induction false} SlugPostsFound(fs: Fs, codec: Codec, year: string, slugs: seq<string>)
    requires SlugPosts(fs, codec, year, slugs).Returned?
    ensures forall s :: s in slugs && IndexPath(year, s) in fs ==>
      exists p :: p in SlugPosts(fs, codec, year, slugs).value && p.slug == s && FromFile(fs, codec, year, p)
  {
    SlugPostsSpec(fs, codec, year, slugs);
    var ps := SlugPosts(fs, codec, year, slugs).value;
    forall s | s in slugs && IndexPath(year, s) in fs
      ensures exists p :: p in ps && p.slug == s && FromFile(fs, codec, year, p)
    {
      var p :| p in ps && p.slug == s;
      assert FromFile(fs, codec, year, p);
    }
  }

  /** An index file, `<year>/<slug>/index.mdx`, named by its two folders. */
  datatype IndexFile = IndexFile(year: string, slug: string)

  /** The index files of `slugs` in one year, in the order of the walk. */
  function IndexFilesOf(fs: Fs, year: string, slugs: seq<string>): (r: seq<IndexFile>)
    ensures forall f :: f in r <==> f.year == year && f.slug in slugs && IndexPath(year, f.slug) in fs
    decreases |slugs|
  {
    if slugs == [] then []
    else
      var init, slug := slugs[..|slugs| - 1], slugs[|slugs| - 1];
      assert forall x :: x in slugs <==> x in init || x == slug by {
        assert slugs == init + [slug];
      }
      IndexFilesOf(fs, year, init) + if IndexPath(year, slug) in fs then [IndexFile(year, slug)] else []
  }

  /** The index files under the given years, year after year. */
  function IndexFiles(fs: Fs, years: seq<string>): (r: seq<IndexFile>)
    ensures forall f :: f in r <==> f.year in years && f.slug in SlugDirs(fs, f.year) && IndexPath(f.year, f.slug) in fs
    decreases |years|
  {
    if years == [] then []
    else
      var init, year := years[..|years| - 1], years[|years| - 1];
      assert forall x :: x in years <==> x in init || x == year by {
        assert years == init + [year];
      }
      IndexFiles(fs, init) + IndexFilesOf(fs, year, SlugDirs(fs, year))
  }

  /** No index file is listed twice. */
  predicate DistinctFiles(files: seq<IndexFile>) {
    forall i, j :: 0 <= i < j < |files| ==> files[i] != files[j]
  }

  /** `ps` holds one post per file of `files`, in the same order, each
      read from its own file. */
  predicate ReadFrom(fs: Fs, codec: Codec, files: seq<IndexFile>, ps: seq<BlogPost>) {
    |ps| == |files|
    && forall k :: 0 <= k < |ps| ==> ps[k].slug == files[k].slug && FromFile(fs, codec, files[k].year, ps[k])
  }

  lemma ReadFromAppend(fs: Fs, codec: Codec, f1: seq<IndexFile>, ps: seq<BlogPost>, f2: seq<IndexFile>, qs: seq<BlogPost>)
    requires ReadFrom(fs, codec, f1, ps) && ReadFrom(fs, codec, f2, qs)
    ensures ReadFrom(fs, codec, f1 + f2, ps + qs)
  {
    forall k | |ps| <= k < |ps| + |qs|
      ensures (ps + qs)[k] == qs[k - |ps|] && (f1 + f2)[k] == f2[k - |ps|]
    {
    }
  }

  /** A year's walk yields exactly one post per index file, in folder
      order: a folder without `index.mdx` yields none, and none yields two. */
  lemma {:induction false} SlugPostsOnePerFile(fs: Fs, codec: Codec, year: string, slugs: seq<string>)
    requires SlugPosts(fs, codec, year, slugs).Returned?
    ensures ReadFrom(fs, codec, IndexFilesOf(fs, year, slugs), SlugPosts(fs, codec, year, slugs).value)
    decreases |slugs|
  {
    if slugs != [] {
      var init, slug := slugs[..|slugs| - 1], slugs[|slugs| - 1];
      var path := IndexPath(year, slug);
      SlugPostsOnePerFile(fs, codec, year, init);
      var ps := SlugPosts(fs, codec, year, init).value;
      var files := IndexFilesOf(fs, year, init);
      if path in fs {
        var p := PostOf(slug, ReadDoc(fs, codec, path).value.data);
        assert FromFile(fs, codec, year, p);
        ReadFromAppend(fs, codec, files, ps, [IndexFile(year, slug)], [p]);
      } else {
        assert IndexFilesOf(fs, year, slugs) == files + [];
      }
    }
  }

  /** The walk over the years yields exactly one post per index file under
      them, in walk order. */
  lemma {:induction false} YearPostsOnePerFile(fs: Fs, codec: Codec, years: seq<string>)
    requires YearPosts(fs, codec, years).Returned?
    ensures ReadFrom(fs, codec, IndexFiles(fs, years), YearPosts(fs, codec, years).value)
    decreases |years|
  {
    if years != [] {
      var init, year := years[..|years| - 1], years[|years| - 1];
      YearPostsOnePerFile(fs, codec, init);
      SlugPostsOnePerFile(fs, codec, year, SlugDirs(fs, year));
      ReadFromAppend(fs, codec, IndexFiles(fs, init), YearPosts(fs, codec, init).value,
        IndexFilesOf(fs, year, SlugDirs(fs, year)), SlugPosts(fs, codec, year, SlugDirs(fs, year)).value);
    }
  }

  lemma {:induction false} IndexFilesOfDistinct(fs: Fs, year: string, slugs: seq<string>)
    requires forall i, j :: 0 <= i < j < |slugs| ==> slugs[i] != slugs[j]
    ensures DistinctFiles(IndexFilesOf(fs, year, slugs))
    decreases |slugs|
  {
    if slugs != [] {
      var init, slug := slugs[..|slugs| - 1], slugs[|slugs| - 1];
      IndexFilesOfDistinct(fs, year, init);
      assert slug !in init by {
        forall k | 0 <= k < |init| ensures init[k] != slug {
          assert slugs[k] == init[k];
        }
      }
    }
  }

  /** Distinct years with distinct folders give distinct index files. */
  lemma {:induction false} IndexFilesDistinct(fs: Fs, years: seq<string>)
    requires forall i, j :: 0 <= i < j < |years| ==> years[i] != years[j]
    ensures DistinctFiles(IndexFiles(fs, years))
    decreases |years|
  {
    if years != [] {
      var init, year := years[..|years| - 1], years[|years| - 1];
      IndexFilesDistinct(fs, init);
      AscendingDistinct(SlugDirs(fs, year));
      IndexFilesOfDistinct(fs, year, SlugDirs(fs, year));
      var a, b := IndexFiles(fs, init), IndexFilesOf(fs, year, SlugDirs(fs, year));
      assert year !in init by {
        forall k | 0 <= k < |init| ensures init[k] != year {
          assert years[k] == init[k];
        }
      }
      DistinctAppend(a, b);
    }
  }

  lemma DistinctAppend(a: seq<IndexFile>, b: seq<IndexFile>)
    requires DistinctFiles(a) && DistinctFiles(b)
    requires forall f :: f in a ==> f !in b
    ensures DistinctFiles(a + b)
  {
    forall i, j | 0 <= i < j < |a + b| ensures (a + b)[i] != (a + b)[j] {
      if i < |a| <= j {
        assert (a + b)[i] == a[i] && (a + b)[j] == b[j - |a|];
        assert a[i] in a;
      } else if |a| <= i {
        assert (a + b)[i] == b[i - |a|] && (a + b)[j] == b[j - |a|];
      }
    }
  }

  /** `new Date(value).getTime()`, `None` for `NaN`. */
  type TimeOf = Value -> Option<int>

  /** The comparator `(a, b) => time(b) - time(a)`; a `NaN` difference
      counts as 0. */
  function Compare(a: BlogPost, b: BlogPost, timeOf: TimeOf): int {
    match (timeOf(b.publishedAt), timeOf(a.publishedAt))
    case (Some(tb), Some(ta)) => tb - ta
    case _ => 0
  }

  /** `x` placed after the leading posts it compares above. */
  function Insert(x: BlogPost, sorted: seq<BlogPost>, timeOf: TimeOf): (r: seq<BlogPost>)
    ensures multiset(r) == multiset(sorted) + multiset{x}
  {
    if sorted == [] then [x]
    else if Compare(x, sorted[0], timeOf) > 0 then
      assert sorted == [sorted[0]] + sorted[1..];
      [sorted[0]] + Insert(x, sorted[1..], timeOf)
    else [x] + sorted
  }

  /** `posts.sort(...)`, as a stable sort with the comparator. */
  function SortPosts(posts: seq<BlogPost>, timeOf: TimeOf): (r: seq<BlogPost>)
    ensures multiset(r) == multiset(posts)
  {
    if posts == [] then []
    else
      assert posts == [posts[0]] + posts[1..];
      Insert(posts[0], SortPosts(posts[1..], timeOf), timeOf)
  }

  /** Every post's date parses. */
  predicate AllDated(posts: seq<BlogPost>, timeOf: TimeOf) {
    forall i :: 0 <= i < |posts| ==> timeOf(posts[i].publishedAt).Some?
  }

  /** Newest first. */
  predicate NewestFirst(posts: seq<BlogPost>, timeOf: TimeOf)
    requires AllDated(posts, timeOf)
  {
    forall i, j :: 0 <= i < j < |posts| ==>
      timeOf(posts[i].publishedAt).value >= timeOf(posts[j].publishedAt).value
  }

  /** What `Insert` returns holds `x` and the posts it was given, and
      nothing else. */
  lemma {:induction false} InsertMembers(x: BlogPost, sorted: seq<BlogPost>, timeOf: TimeOf)
    ensures forall q :: q in Insert(x, sorted, timeOf) <==> q == x || q in sorted
  {
    var r := Insert(x, sorted, timeOf);
    assert forall q :: q in r <==> q in multiset(r);
    assert forall q :: q in sorted <==> q in multiset(sorted);
  }

  /** A post at least as new as every post of a newest-first list can go
      in front of it. */
  lemma ConsNewestFirst(h: BlogPost, tail: seq<BlogPost>, timeOf: TimeOf)
    requires AllDated(tail, timeOf) && NewestFirst(tail, timeOf) && timeOf(h.publishedAt).Some?
    requires forall q :: q in tail ==> timeOf(h.publishedAt).value >= timeOf(q.publishedAt).value
    ensures AllDated([h] + tail, timeOf) && NewestFirst([h] + tail, timeOf)
  {
    var r := [h] + tail;
    assert forall k :: 0 < k < |r| ==> r[k] == tail[k - 1];
    forall j | 0 < j < |r| ensures timeOf(h.publishedAt).value >= timeOf(r[j].publishedAt).value {
      assert tail[j - 1] in tail;
    }
  }

  lemma {:induction false} InsertNewestFirst(x: BlogPost, sorted: seq<BlogPost>, timeOf: TimeOf)
    requires AllDated(sorted, timeOf) && timeOf(x.publishedAt).Some?
    requires NewestFirst(sorted, timeOf)
    ensures AllDated(Insert(x, sorted, timeOf), timeOf)
    ensures NewestFirst(Insert(x, sorted, timeOf), timeOf)
  {
    if sorted == [] {
      ConsNewestFirst(x, [], timeOf);
    } else if Compare(x, sorted[0], timeOf) > 0 {
      var rest := sorted[1..];
      var tail := Insert(x, rest, timeOf);
      assert AllDated(rest, timeOf) && NewestFirst(rest, timeOf);
      InsertNewestFirst(x, rest, timeOf);
      InsertMembers(x, rest, timeOf);
      forall q | q in tail ensures timeOf(sorted[0].publishedAt).value >= timeOf(q.publishedAt).value {
        if q != x {
          var m :| 0 <= m < |rest| && rest[m] == q;
          assert sorted[m + 1] == q;
        }
      }
      ConsNewestFirst(sorted[0], tail, timeOf);
    } else {
      forall q | q in sorted ensures timeOf(x.publishedAt).value >= timeOf(q.publishedAt).value {
        var m :| 0 <= m < |sorted| && sorted[m] == q;
        if m > 0 {
          assert timeOf(sorted[0].publishedAt).value >= timeOf(sorted[m].publishedAt).value;
        }
      }
      ConsNewestFirst(x, sorted, timeOf);
    }
  }

  /** When every date parses, the sorted list is newest first. */
  lemma {:induction false} SortNewestFirst(posts: seq<BlogPost>, timeOf: TimeOf)
    requires AllDated(posts, timeOf)
    ensures AllDated(SortPosts(posts, timeOf), timeOf)
    ensures NewestFirst(SortPosts(posts, timeOf), timeOf)
  {
    if posts != [] {
      SortNewestFirst(posts[1..], timeOf);
      InsertNewestFirst(posts[0], SortPosts(posts[1..], timeOf), timeOf);
    }
  }

  /** One step of the inner loop: the folder at `j` is skipped, read, or
      ends the walk with an exception. */
  lemma SlugPostsNext(fs: Fs, codec: Codec, year: string, slugs: seq<string>, j: nat, posts: seq<BlogPost>)
    requires j < |slugs| && SlugPosts(fs, codec, year, slugs[..j]) == Returned(posts)
    ensures var path := IndexPath(year, slugs[j]);
      && (path !in fs ==> SlugPosts(fs, codec, year, slugs[..j + 1]) == Returned(posts))
      && (path in fs && ReadDoc(fs, codec, path).Threw? ==> SlugPosts(fs, codec, year, slugs) == Threw)
      && (path in fs && ReadDoc(fs, codec, path).Returned? ==>
            SlugPosts(fs, codec, year, slugs[..j + 1]) == Returned(posts + [PostOf(slugs[j], ReadDoc(fs, codec, path).value.data)]))
  {
    TakeSnoc(slugs, j);
    SlugPostsSnoc(fs, codec, year, slugs[..j], slugs[j]);
    if SlugPosts(fs, codec, year, slugs[..j + 1]).Threw? {
      SlugPostsThrowsFrom(fs, codec, year, slugs, j + 1);
    }
  }

  lemma SlugPostsThrowsFrom(fs: Fs, codec: Codec, year: string, slugs: seq<string>, j: nat)
    requires j <= |slugs| && SlugPosts(fs, codec, year, slugs[..j]) == Threw
    ensures SlugPosts(fs, codec, year, slugs) == Threw
  {
    SlugPostsThrows(fs, codec, year, slugs[..j], slugs[j..]);
    TakeDrop(slugs, j);
  }

  /** One step of the outer loop. */
  lemma YearPostsNext(fs: Fs, codec: Codec, years: seq<string>, i: nat, posts: seq<BlogPost>, found: Outcome<seq<BlogPost>>)
    requires i < |years| && YearPosts(fs, codec, years[..i]) == Returned(posts)
    requires found == SlugPosts(fs, codec, years[i], SlugDirs(fs, years[i]))
    ensures found.Threw? ==> YearPosts(fs, codec, years) == Threw
    ensures found.Returned? ==> YearPosts(fs, codec, years[..i + 1]) == Returned(posts + found.value)
  {
    TakeSnoc(years, i);
    YearPostsSnoc(fs, codec, years[..i], years[i]);
    if found.Threw? {
      YearPostsThrowsFrom(fs, codec, years, i + 1);
    }
  }

  lemma YearPostsThrowsFrom(fs: Fs, codec: Codec, years: seq<string>, i: nat)
    requires i <= |years| && YearPosts(fs, codec, years[..i]) == Threw
    ensures YearPosts(fs, codec, years) == Threw
  {
    YearPostsThrows(fs, codec, years[..i], years[i..]);
    TakeDrop(years, i);
  }

  /** The inner loop of `getBlogPosts`: the posts of the folders `slugs`
      of one year folder. */
  method ReadYear(fs: Fs, codec: Codec, year: string, slugs: seq<string>) returns (r: Outcome<seq<BlogPost>>)
    ensures r == SlugPosts(fs, codec, year, slugs)
  {
    var posts: seq<BlogPost> := [];
    for j := 0 to |slugs|
      invariant SlugPosts(fs, codec, year, slugs[..j]) == Returned(posts)
    {
      var slug := slugs[j];
      SlugPostsNext(fs, codec, year, slugs, j, posts);
      var path := IndexPath(year, slug);
      if path !in fs {
        continue;
      }
      var doc := ReadDoc(fs, codec, path);
      if doc.Threw? {
        return Threw;
      }
      posts := posts + [PostOf(slug, doc.value.data)];
    }
    assert slugs[..|slugs|] == slugs;
    r := Returned(posts);
  }

  /** The outer loop of `getBlogPosts`: the posts of the year folders, in
      their order. */
  method ReadYears(fs: Fs, codec: Codec, years: seq<string>) returns (r: Outcome<seq<BlogPost>>)
    ensures r == YearPosts(fs, codec, years)
  {
    var posts: seq<BlogPost> := [];
    for i := 0 to |years|
      invariant YearPosts(fs, codec, years[..i]) == Returned(posts)
    {
      var found := ReadYear(fs, codec, years[i], SlugDirs(fs, years[i]));
      YearPostsNext(fs, codec, years, i, posts, found);
      if found.Threw? {
        return Threw;
      }
      posts := posts + found.value;
    }
    assert years[..|years|] == years;
    r := Returned(posts);
  }

  /** `getBlogPosts`: no posts without a content folder, and otherwise the
      posts of every year folder, sorted. */
  method GetBlogPosts(fs: Fs, codec: Codec, timeOf: TimeOf) returns (r: Outcome<seq<BlogPost>>)
    ensures ContentRoot !in fs ==> r == Returned([])
    ensures ContentRoot in fs && !IsDir(fs, ContentRoot) ==> r == Threw
    ensures IsDir(fs, ContentRoot) ==> r == match YearPosts(fs, codec, YearDirs(fs))
      case Threw => Threw
      case Returned(ps) => Returned(SortPosts(ps, timeOf))
  {
    if ContentRoot !in fs {
      return Returned([]);
    }
    if !IsDir(fs, ContentRoot) {
      return Threw;
    }
    var found := ReadYears(fs, codec, YearDirs(fs));
    match found {
      case Threw => r := Threw;
      case Returned(posts) => r := Returned(SortPosts(posts, timeOf));
    }
  }

  /** Once a walk has thrown, walking further still throws. */
  lemma {:induction false} SlugPostsThrows(fs: Fs, codec: Codec, year: string, done: seq<string>, more: seq<string>)
    requires SlugPosts(fs, codec, year, done) == Threw
    ensures SlugPosts(fs, codec, year, done + more) == Threw
    decreases |more|
  {
    if more != [] {
      var init := more[..|more| - 1];
      SlugPostsThrows(fs, codec, year, done, init);
      assert (done + more)[..|done + more| - 1] == done + init;
    } else {
      assert done + more == done;
    }
  }

  lemma {:induction false} YearPostsThrows(fs: Fs, codec: Codec, done: seq<string>, more: seq<string>)
    requires YearPosts(fs, codec, done) == Threw
    ensures YearPosts(fs, codec, done + more) == Threw
    decreases |more|
  {
    if more != [] {
      var init := more[..|more| - 1];
      YearPostsThrows(fs, codec, done, init);
      assert (done + more)[..|done + more| - 1] == done + init;
    } else {
      assert done + more == done;
    }
  }

  /** Every existing index file under the year folders reads, stated
      without the listing order. */
  ghost predicate EveryIndexReadable(fs: Fs, codec: Codec) {
    forall y, s :: YearName(y) && IsDir(fs, ContentRoot + [y]) && IsDir(fs, ContentRoot + [y, s]) ==> Readable(fs, codec, y, s)
  }

  lemma AllReadableYears(fs: Fs, codec: Codec)
    ensures AllReadable(fs, codec, YearDirs(fs)) <==> EveryIndexReadable(fs, codec)
  {
  }

  /** The listing throws exactly when some existing index file under a
      year folder cannot be read. */
  lemma ListingReturns(fs: Fs, codec: Codec)
    ensures YearPosts(fs, codec, YearDirs(fs)).Returned? <==> EveryIndexReadable(fs, codec)
  {
    YearPostsReturns(fs, codec, YearDirs(fs));
    AllReadableYears(fs, codec);
  }

  /** Sorting keeps the posts, each as often as before. */
  lemma SortSameMembers(raw: seq<BlogPost>, timeOf: TimeOf)
    ensures forall p :: p in SortPosts(raw, timeOf) <==> p in raw
  {
    var ps := SortPosts(raw, timeOf);
    assert forall p :: p in ps <==> p in multiset(ps);
    assert forall p :: p in raw <==> p in multiset(raw);
  }

  /** Every listed post was read from its own index file in a year folder,
      and every index file under a year folder gave a listed post. */
  lemma ListingSourcedComplete(fs: Fs, codec: Codec, timeOf: TimeOf)
    requires YearPosts(fs, codec, YearDirs(fs)).Returned?
    ensures var ps := SortPosts(YearPosts(fs, codec, YearDirs(fs)).value, timeOf);
      (forall p :: p in ps ==> exists y :: YearName(y) && IsDir(fs, ContentRoot + [y, p.slug]) && FromFile(fs, codec, y, p))
      && (forall y, s :: YearName(y) && IsDir(fs, ContentRoot + [y]) && IsDir(fs, ContentRoot + [y, s]) && IndexPath(y, s) in fs ==>
            exists p :: p in ps && p.slug == s && FromFile(fs, codec, y, p))
  {
    var years := YearDirs(fs);
    var raw := YearPosts(fs, codec, years).value;
    YearPostsSpec(fs, codec, years);
    SortSameMembers(raw, timeOf);
  }

  /** The listing holds exactly one post per index file under a year
      folder: it is a reordering of a list that pairs each such file,
      listed once, with the post read from it. */
  lemma ListingOnePerFile(fs: Fs, codec: Codec, timeOf: TimeOf)
    requires YearPosts(fs, codec, YearDirs(fs)).Returned?
    ensures var raw := YearPosts(fs, codec, YearDirs(fs)).value;
      var files := IndexFiles(fs, YearDirs(fs));
      && ReadFrom(fs, codec, files, raw)
      && DistinctFiles(files)
      && (forall f :: f in files <==>
            YearName(f.year) && IsDir(fs, ContentRoot + [f.year]) && IsDir(fs, ContentRoot + [f.year, f.slug])
            && IndexPath(f.year, f.slug) in fs)
      && multiset(SortPosts(raw, timeOf)) == multiset(raw)
      && |SortPosts(raw, timeOf)| == |files|
  {
    var raw := YearPosts(fs, codec, YearDirs(fs)).value;
    YearPostsOnePerFile(fs, codec, YearDirs(fs));
    AscendingDistinct(YearDirs(fs));
    IndexFilesDistinct(fs, YearDirs(fs));
    assert |multiset(SortPosts(raw, timeOf))| == |multiset(raw)|;
  }

  /** When every date parses, the listing is newest first. */
  lemma ListingOrdered(fs: Fs, codec: Codec, timeOf: TimeOf)
    requires YearPosts(fs, codec, YearDirs(fs)).Returned?
    ensures var ps := SortPosts(YearPosts(fs, codec, YearDirs(fs)).value, timeOf);
      AllDated(ps, timeOf) ==> NewestFirst(ps, timeOf)
  {
    var raw := YearPosts(fs, codec, YearDirs(fs)).value;
    var ps := SortPosts(raw, timeOf);
    if AllDated(ps, timeOf) {
      SortSameMembers(raw, timeOf);
      assert AllDated(raw, timeOf) by {
        forall i | 0 <= i < |raw| ensures timeOf(raw[i].publishedAt).Some? {
          assert raw[i] in ps;
        }
      }
      SortNewestFirst(raw, timeOf);
    }
  }

  /** The leftmost year from index `i` on whose folder holds `slug`. */
  function FirstYearWith(fs: Fs, years: seq<string>, slug: string, i: nat): (r: Option<nat>)
    requires i <= |years|
    ensures r.None? ==> forall k :: i <= k < |years| ==> IndexPath(years[k], slug) !in fs
    ensures r.Some? ==> i <= r.value < |years| && IndexPath(years[r.value], slug) in fs
    ensures r.Some? ==> forall k :: i <= k < r.value ==> IndexPath(years[k], slug) !in fs
    decreases |years| - i
  {
    if i == |years| then None
    else if IndexPath(years[i], slug) in fs then Some(i)
    else FirstYearWith(fs, years, slug, i + 1)
  }

  /** What `getPost` finds among `years`. */
  function PostIn(fs: Fs, codec: Codec, years: seq<string>, slug: string): Outcome<Option<PostWithContent>> {
    match FirstYearWith(fs, years, slug, 0)
    case None => Returned(None)
    case Some(k) =>
      match ReadDoc(fs, codec, IndexPath(years[k], slug))
      case Threw => Threw
      case Returned(doc) => Returned(Some(PostWithContent(PostOf(slug, doc.data), doc.content)))
  }

  /** `getPost(slug)`. */
  method GetPost(fs: Fs, codec: Codec, slug: string) returns (r: Outcome<Option<PostWithContent>>)
    ensures ContentRoot !in fs ==> r == Returned(None)
    ensures ContentRoot in fs && !IsDir(fs, ContentRoot) ==> r == Threw
    ensures IsDir(fs, ContentRoot) ==> r == PostIn(fs, codec, YearDirs(fs), slug)
  {
    if ContentRoot !in fs {
      return Returned(None);
    }
    if !IsDir(fs, ContentRoot) {
      return Threw;
    }
    var years := YearDirs(fs);
    for i := 0 to |years|
      invariant FirstYearWith(fs, years, slug, 0) == FirstYearWith(fs, years, slug, i)
    {
      var path := IndexPath(years[i], slug);
      if path in fs {
        var doc := ReadDoc(fs, codec, path);
        if doc.Threw? {
          return Threw;
        }
        return Returned(Some(PostWithContent(PostOf(slug, doc.value.data), doc.value.content)));
      }
    }
    r := Returned(None);
  }

  /** `getPost` finds nothing exactly when no year folder holds the slug. */
  lemma PostInNone(fs: Fs, codec: Codec, slug: string)
    ensures PostIn(fs, codec, YearDirs(fs), slug) == Returned(None) <==>
      forall y :: YearName(y) && IsDir(fs, ContentRoot + [y]) ==> IndexPath(y, slug) !in fs
  {
    var years := YearDirs(fs);
    if FirstYearWith(fs, years, slug, 0).None? {
      forall y | YearName(y) && IsDir(fs, ContentRoot + [y]) ensures IndexPath(y, slug) !in fs {
        var k :| 0 <= k < |years| && years[k] == y;
      }
    }
  }

  /** In an ascending list of years, the first that holds the slug comes
      before every other that does. */
  lemma FirstIsEarliest(fs: Fs, years: seq<string>, slug: string)
    requires Ascending(years)
    requires FirstYearWith(fs, years, slug, 0).Some?
    ensures var y := years[FirstYearWith(fs, years, slug, 0).value];
      forall y2 :: y2 in years && IndexPath(y2, slug) in fs && y2 != y ==> Below(y, y2)
  {
    var k := FirstYearWith(fs, years, slug, 0).value;
    forall y2 | y2 in years && IndexPath(y2, slug) in fs && y2 != years[k] ensures Below(years[k], y2) {
      var k2 :| 0 <= k2 < |years| && years[k2] == y2;
      assert k < k2;
    }
  }

  /** Otherwise it reads the earliest year, in name order, that holds it. */
  lemma PostInEarliest(fs: Fs, slug: string)
    ensures var years := YearDirs(fs);
      FirstYearWith(fs, years, slug, 0).Some? ==>
        var y := years[FirstYearWith(fs, years, slug, 0).value];
        YearName(y) && IndexPath(y, slug) in fs
        && forall y2 :: YearName(y2) && IsDir(fs, ContentRoot + [y2]) && IndexPath(y2, slug) in fs && y2 != y ==> Below(y, y2)
  {
    var years := YearDirs(fs);
    if FirstYearWith(fs, years, slug, 0).Some? {
      var k := FirstYearWith(fs, years, slug, 0).value;
      assert years[k] in years;
      FirstIsEarliest(fs, years, slug);
    }
  }
}
