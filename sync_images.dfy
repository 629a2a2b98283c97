/**
 * scripts/sync-blog-images.ts: every post folder under `src/content/blog`
 * (the drafts folder aside) gets a fresh copy of its image files under
 * `public/images/blog/<slug>`, and image folders whose post is gone are
 * removed.
 *
 * The file system is a value (`FileTree.Fs`); the script's three loops
 * are the loops of `SyncImages`, which is proved to leave exactly the tree
 * `Want` describes. `console` output is left out.
 */
module SyncImages {
  import opened Common
  import opened Text
  import opened FileTree

  // ---------------------------------------------------------------------
  // Image files
  // ---------------------------------------------------------------------

  /** `IMAGE_EXTENSIONS`. */
  const ImageExtensions: set<string> := {".jpg", ".jpeg", ".png", ".webp", ".gif", ".avif", ".svg"}

  /** The index of the last `.` in `s`. */
  function LastDot(s: string): (r: Option<nat>)
    ensures r.None? ==> forall i :: 0 <= i < |s| ==> s[i] != '.'
    ensures r.Some? ==> r.value < |s| && s[r.value] == '.'
    ensures r.Some? ==> forall i :: r.value < i < |s| ==> s[i] != '.'
  {
    if s == [] then None
    else if s[|s| - 1] == '.' then Some(|s| - 1)
    else LastDot(s[..|s| - 1])
  }

  /** The last `.` is the one at `d` exactly when no `.` follows it. */
  lemma LastDotAt(s: string, d: nat)
    requires d < |s| && s[d] == '.'
    requires forall i :: d < i < |s| ==> s[i] != '.'
    ensures LastDot(s) == Some(d)
  {
  }

  /** `path.extname` of a single name (a name `readdirSync` returns holds no
      `/`): from the last `.` to the end, except that a name whose only dot
      leads it, and the name `..`, have none. */
  function ExtName(name: string): (r: string)
    ensures r == [] || (r[0] == '.' && |r| < |name| && r == name[|name| - |r|..])
    ensures forall i :: 0 < i < |r| ==> r[i] != '.'
  {
    match LastDot(name)
    case None => []
    case Some(d) => if d == 0 || name == ".." then [] else name[d..]
  }

  /** A name ending in `.` and a dot-free word has that extension. */
  lemma ExtNameOf(base: string, word: string)
    requires base != [] && word != []
    requires forall i :: 0 <= i < |word| ==> word[i] != '.'
    ensures ExtName(base + "." + word) == "." + word
  {
    var name := base + "." + word;
    LastDotAt(name, |base|);
    assert name[|base|..] == "." + word;
  }

  /** A hidden file such as `.png` has no extension at all. */
  lemma DotFileHasNone(word: string)
    requires forall i :: 0 <= i < |word| ==> word[i] != '.'
    ensures ExtName("." + word) == []
  {
    LastDotAt("." + word, 0);
  }

  /** The test `IMAGE_EXTENSIONS.has(path.extname(file).toLowerCase())`. */
  predicate IsImage(name: string) {
    LowerAscii(ExtName(name)) in ImageExtensions
  }

  lemma LowerDots(s: string)
    ensures forall i :: 0 <= i < |s| ==> (LowerAscii(s)[i] == '.' <==> s[i] == '.')
  {
  }

  lemma LowerDrop(s: string, d: nat)
    requires d <= |s|
    ensures LowerAscii(s[d..]) == LowerAscii(s)[d..]
  {
  }

  /** Lower-casing keeps `..` and nothing else becomes it. */
  lemma LowerDotDot(s: string)
    ensures LowerAscii(s) == ".." <==> s == ".."
  {
    if LowerAscii(s) == ".." {
      assert |s| == 2 && LowerChar(s[0]) == '.' && LowerChar(s[1]) == '.';
    }
  }

  /** Case does not matter: two names that lower-case alike are both
      images or both not. */
  lemma ImageIgnoresCase(a: string, b: string)
    requires LowerAscii(a) == LowerAscii(b)
    ensures IsImage(a) <==> IsImage(b)
  {
    LowerDots(a);
    LowerDots(b);
    assert |a| == |b|;
    assert forall i :: 0 <= i < |a| ==> (a[i] == '.' <==> b[i] == '.');
    LowerDotDot(a);
    LowerDotDot(b);
    match LastDot(a)
    case None =>
      assert LastDot(b).None?;
    case Some(d) =>
      LastDotAt(b, d);
      LowerDrop(a, d);
      LowerDrop(b, d);
  }

  // ---------------------------------------------------------------------
  // Paths
  // ---------------------------------------------------------------------

  /** `path.join(contentRoot, slug)`. */
  function PostDir(slug: string): Path {
    ContentRoot + [slug]
  }

  /** `path.join(postDir, file)`. */
  function Source(slug: string, file: string): Path {
    PostDir(slug) + [file]
  }

  /** `path.join(publicRoot, slug)`. */
  function SlugDir(slug: string): Path {
    PublicRoot + [slug]
  }

  /** `path.join(publicDir, file)`. */
  function Copy(slug: string, file: string): Path {
    SlugDir(slug) + [file]
  }

  /** `q` lies in (or is) one of the folders directly inside the public
      root; `q[3]` names that folder. */
  predicate InSlugFolder(q: Path) {
    |q| > |PublicRoot| && q[..|PublicRoot|] == PublicRoot
  }

  /** A path whose first segment is not `public`. */
  predicate OutsidePublic(q: Path) {
    q != [] && q[0] != "public"
  }

  lemma PathShapes(slug: string, file: string)
    ensures InSlugFolder(SlugDir(slug)) && |SlugDir(slug)| == 4 && SlugDir(slug)[3] == slug
    ensures InSlugFolder(Copy(slug, file)) && |Copy(slug, file)| == 5
    ensures Copy(slug, file)[3] == slug && Copy(slug, file)[4] == file
    ensures OutsidePublic(PostDir(slug)) && OutsidePublic(Source(slug, file))
    ensures !InSlugFolder(PostDir(slug)) && !InSlugFolder(Source(slug, file))
  {
    assert SlugDir(slug)[..3] == PublicRoot;
    assert Copy(slug, file)[..3] == PublicRoot;
  }

  /** The folder of a slug is the paths in the slug folder it names. */
  lemma WithinSlugDir(q: Path, slug: string)
    ensures Within(q, SlugDir(slug)) <==> InSlugFolder(q) && q[3] == slug
  {
    if InSlugFolder(q) && q[3] == slug {
      assert q[..4] == q[..3] + [q[3]];
    }
    if Within(q, SlugDir(slug)) {
      assert q[..3] == q[..4][..3];
    }
  }

  lemma SlugDirOf(q: Path)
    requires InSlugFolder(q) && |q| == 4
    ensures q == SlugDir(q[3])
  {
    assert q == q[..3] + [q[3]];
  }

  lemma CopyOf(q: Path)
    requires InSlugFolder(q) && |q| == 5
    ensures q == Copy(q[3], q[4])
  {
    assert q == q[..3] + [q[3]] + [q[4]];
  }

  // ---------------------------------------------------------------------
  // The intended result
  // ---------------------------------------------------------------------

  /** What `fs` holds at `q`. */
  function Lookup(fs: Fs, q: Path): Option<Entry> {
    if q in fs then Some(fs[q]) else None
  }

  lemma LookupExt(a: Fs, b: Fs)
    requires forall q :: Lookup(a, q) == Lookup(b, q)
    ensures a == b
  {
    assert forall q :: q in a <==> q in b by {
      forall q ensures q in a <==> q in b {
        assert Lookup(a, q).Some? == Lookup(b, q).Some?;
      }
    }
    forall q | q in a ensures a[q] == b[q] {
      assert Lookup(a, q) == Lookup(b, q);
    }
  }

  /** A folder directly inside the content root, other than `drafts`: a
      post whose images are published. */
  predicate IsSlug(fs: Fs, name: string) {
    IsDir(fs, PostDir(name)) && name != "drafts"
  }

  /** `mkdirSync(publicRoot, { recursive: true })` runs when the public
      root is missing, and throws when a file stands where one of its
      folders should be. */
  predicate PublicOk(fs: Fs) {
    IsDir(fs, PublicRoot)
    || (PublicRoot !in fs && !IsFile(fs, ["public"]) && !IsFile(fs, ["public", "images"]))
  }

  /** The tree once the public root is ensured. */
  function Prepared(fs: Fs): (r: Fs)
    ensures forall q :: !Ancestor(q, PublicRoot) ==> Lookup(r, q) == Lookup(fs, q)
    ensures PublicRoot in fs ==> r == fs
    ensures PublicOk(fs) ==> IsDir(r, PublicRoot)
  {
    if PublicRoot in fs then fs else MakeDirs(fs, PublicRoot)
  }

  lemma NotAncestor(q: Path)
    requires OutsidePublic(q) || InSlugFolder(q)
    ensures !Ancestor(q, PublicRoot)
  {
  }

  /** The rebuilt folder of the post `q[3]`, at `q`: the folder itself and
      a copy of each image file directly inside the post's folder. */
  function SlugImage(fs: Fs, q: Path): (r: Option<Entry>)
    requires InSlugFolder(q)
    ensures r.Some? ==> |q| <= 5
  {
    if |q| == 4 then Some(Directory)
    else if |q| == 5 && IsFile(fs, Source(q[3], q[4])) && IsImage(q[4]) then Some(fs[Source(q[3], q[4])])
    else None
  }

  /** What the script leaves at `q`: rebuilt folders for the posts, no
      folder for a name that is not a post, and everything else as it was
      once the public root exists. */
  function Want(fs: Fs, q: Path): Option<Entry> {
    if !InSlugFolder(q) then Lookup(Prepared(fs), q)
    else if IsSlug(fs, q[3]) then SlugImage(fs, q)
    else if IsDir(fs, SlugDir(q[3])) then None
    else Lookup(fs, q)
  }

  /** `after` is the tree the script leaves when it runs on `fs` and
      finishes. */
  ghost predicate Synced(fs: Fs, after: Fs) {
    forall q :: Lookup(after, q) == Want(fs, q)
  }

  // ---------------------------------------------------------------------
  // The script
  // ---------------------------------------------------------------------

  datatype SyncExit =
    | NoContentDir  // no content root: the script logs and exits 0
    | Done
    | Crashed       // a `mkdirSync` or `readdirSync` threw

  /** The tree part-way through the post loop: the posts in `done` are
      rebuilt, the rest is as it was once the public root exists. */
  function Midway(fs: Fs, done: set<string>, q: Path): Option<Entry> {
    if InSlugFolder(q) && q[3] in done then SlugImage(fs, q) else Lookup(Prepared(fs), q)
  }

  /** The copy loop over `files[..j]` for the post `slug`, at a path in
      that post's public folder. */
  function Copied(cur: Fs, slug: string, files: seq<string>, q: Path): Option<Entry>
    requires InSlugFolder(q)
  {
    if |q| == 5 && q[4] !in files then None else SlugImage(cur, q)
  }

  /** The tree once the copy loop for `slug` has gone over `files`. */
  function CopyLoop(cur: Fs, slug: string, files: seq<string>, q: Path): Option<Entry> {
    if InSlugFolder(q) && q[3] == slug then Copied(cur, slug, files, q) else Lookup(cur, q)
  }

  /** The tree once the public folder of `slug` is rebuilt. */
  function Rebuilt(cur: Fs, slug: string, q: Path): Option<Entry> {
    if InSlugFolder(q) && q[3] == slug then SlugImage(cur, q) else Lookup(cur, q)
  }

  /** Lines 48-76 for one post: the public folder of `slug` is removed,
      made again and given a copy of each image file of the post. The
      `mkdirSync` throws (`ok` false) when the public root is not a
      folder. */
  method RebuildSlug(cur: Fs, slug: string) returns (r: Fs, ok: bool)
    ensures ok <==> IsDir(cur, PublicRoot)
    ensures ok ==> forall q :: Lookup(r, q) == Rebuilt(cur, slug, q)
    ensures forall q :: !(InSlugFolder(q) && q[3] == slug) ==> Lookup(r, q) == Lookup(cur, q)
  {
    var publicDir := SlugDir(slug);
    // `rmSync` with `force` is a no-op on a missing path, and nothing lies
    // beneath a missing path, so the `existsSync` guard is not modelled
    r := RemoveTree(cur, publicDir);
    RemovedSlug(cur, slug);
    if !IsDir(r, PublicRoot) {
      return r, false;
    }
    r := r[publicDir := Directory];
    var files := ReadDir(r, PostDir(slug));
    CopyStart(cur, r, slug);
    ghost var made := r;
    for j := 0 to |files|
      invariant forall q :: Lookup(r, q) == CopyLoop(cur, slug, files[..j], q)
    {
      var file := files[j];
      var srcPath := Source(slug, file);
      PathShapes(slug, file);
      if !IsFile(r, srcPath) || !IsImage(file) {
        CopySkipped(cur, r, slug, files, j);
        continue;
      }
      var destPath := Copy(slug, file);
      ghost var before := r;
      r := r[destPath := r[srcPath]];
      CopyStep(cur, before, slug, files, j, r);
    }
    CopyEnd(cur, made, r, slug, files);
    ok := true;
  }

  /** Removing the public folder of `slug` touches nothing outside it. */
  lemma RemovedSlug(cur: Fs, slug: string)
    ensures forall q :: !(InSlugFolder(q) && q[3] == slug) ==>
      Lookup(RemoveTree(cur, SlugDir(slug)), q) == Lookup(cur, q)
  {
    forall q | !(InSlugFolder(q) && q[3] == slug)
      ensures Lookup(RemoveTree(cur, SlugDir(slug)), q) == Lookup(cur, q)
    {
      WithinSlugDir(q, slug);
    }
  }

  /** The tree after `rmSync` and `mkdirSync` is the copy loop before its
      first turn. */
  lemma CopyStart(cur: Fs, r: Fs, slug: string)
    requires SlugDir(slug) in r && r[SlugDir(slug)] == Directory
    requires forall q :: !(InSlugFolder(q) && q[3] == slug) ==> Lookup(r, q) == Lookup(cur, q)
    requires forall q :: Within(q, SlugDir(slug)) && q != SlugDir(slug) ==> q !in r
    ensures forall q :: Lookup(r, q) == CopyLoop(cur, slug, [], q)
  {
    forall q | InSlugFolder(q) && q[3] == slug ensures Lookup(r, q) == Copied(cur, slug, [], q) {
      WithinSlugDir(q, slug);
      if |q| == 4 {
        SlugDirOf(q);
      }
    }
  }

  /** A file passed over leaves the tree as it was. */
  lemma CopySkipped(cur: Fs, r: Fs, slug: string, files: seq<string>, j: nat)
    requires j < |files|
    requires !IsFile(r, Source(slug, files[j])) || !IsImage(files[j])
    requires forall q :: Lookup(r, q) == CopyLoop(cur, slug, files[..j], q)
    ensures forall q :: Lookup(r, q) == CopyLoop(cur, slug, files[..j + 1], q)
  {
    PathShapes(slug, files[j]);
    assert Lookup(r, Source(slug, files[j])) == CopyLoop(cur, slug, files[..j], Source(slug, files[j]));
    assert files[..j + 1] == files[..j] + [files[j]];
    forall q | InSlugFolder(q) && q[3] == slug
      ensures Copied(cur, slug, files[..j + 1], q) == Copied(cur, slug, files[..j], q)
    {
      if |q| == 5 && q[4] == files[j] {
        CopyOf(q);
      }
    }
  }

  /** Copying one image file adds exactly its copy. */
  lemma CopyStep(cur: Fs, r: Fs, slug: string, files: seq<string>, j: nat, r': Fs)
    requires j < |files|
    requires IsFile(r, Source(slug, files[j])) && IsImage(files[j])
    requires r' == r[Copy(slug, files[j]) := r[Source(slug, files[j])]]
    requires forall q :: Lookup(r, q) == CopyLoop(cur, slug, files[..j], q)
    ensures forall q :: Lookup(r', q) == CopyLoop(cur, slug, files[..j + 1], q)
  {
    var file := files[j];
    assert files[..j + 1] == files[..j] + [file];
    PathShapes(slug, file);
    assert Lookup(r, Source(slug, file)) == CopyLoop(cur, slug, files[..j], Source(slug, file));
    assert Lookup(r', Copy(slug, file)) == SlugImage(cur, Copy(slug, file));
    forall q | q != Copy(slug, file) ensures Lookup(r', q) == CopyLoop(cur, slug, files[..j + 1], q) {
      assert Lookup(r', q) == Lookup(r, q);
      if InSlugFolder(q) && q[3] == slug && |q| == 5 {
        CopyOf(q);
      }
    }
  }

  /** After the copy loop over every name in the post's folder, the public
      folder is rebuilt. */
  lemma CopyEnd(cur: Fs, made: Fs, r: Fs, slug: string, files: seq<string>)
    requires forall f :: f in files <==> PostDir(slug) + [f] in made
    requires forall q :: Lookup(made, q) == CopyLoop(cur, slug, [], q)
    requires forall q :: Lookup(r, q) == CopyLoop(cur, slug, files[..|files|], q)
    ensures forall q :: Lookup(r, q) == Rebuilt(cur, slug, q)
  {
    assert files[..|files|] == files;
    forall q | InSlugFolder(q) && q[3] == slug && |q| == 5
      ensures Copied(cur, slug, files, q) == SlugImage(cur, q)
    {
      PathShapes(slug, q[4]);
      assert Lookup(made, Source(slug, q[4])) == Lookup(cur, Source(slug, q[4]));
    }
  }

  /** Lines 23-96. */
  method SyncImages(fs: Fs) returns (after: Fs, exit: SyncExit)
    ensures exit == NoContentDir <==> ContentRoot !in fs
    ensures exit == NoContentDir ==> after == fs
    ensures exit == Crashed <==> ContentRoot in fs && !(IsDir(fs, ContentRoot) && PublicOk(fs))
    ensures exit == Done ==> Synced(fs, after)
    ensures forall q :: OutsidePublic(q) ==> Lookup(after, q) == Lookup(fs, q)
  {
    if ContentRoot !in fs {
      return fs, NoContentDir;
    }
    if PublicRoot !in fs && (IsFile(fs, ["public"]) || IsFile(fs, ["public", "images"])) {
      return fs, Crashed;
    }
    var cur := Prepared(fs);
    NotAncestor(ContentRoot);
    if !IsDir(cur, ContentRoot) {
      OutsidePrepared(fs);
      return cur, Crashed;
    }
    var slugs, ok;
    cur, slugs, ok := SyncPosts(fs);
    if !ok {
      return cur, Crashed;
    }
    OutsideMidway(fs, cur, slugs);
    if !IsDir(cur, PublicRoot) {
      // `readdirSync(publicRoot)` throws on a file
      return cur, Crashed;
    }
    after := PruneOrphans(cur, slugs);
    PrunedIsWant(fs, cur, after, slugs, ReadDir(cur, PublicRoot));
    exit := Done;
  }

  lemma OutsidePrepared(fs: Fs)
    ensures forall q :: OutsidePublic(q) ==> Lookup(Prepared(fs), q) == Lookup(fs, q)
  {
    forall q | OutsidePublic(q) ensures Lookup(Prepared(fs), q) == Lookup(fs, q) {
      NotAncestor(q);
    }
  }

  /** Lines 33-79: each post folder, in `readdirSync` order, has its public
      folder rebuilt; `ok` is false where a `mkdirSync` threw. */
  method SyncPosts(fs: Fs) returns (cur: Fs, slugs: set<string>, ok: bool)
    requires IsDir(fs, ContentRoot)
    ensures ok ==> forall x :: x in slugs <==> IsSlug(fs, x)
    ensures ok ==> IsDir(cur, PublicRoot) == IsDir(Prepared(fs), PublicRoot)
    ensures !ok ==> !IsDir(Prepared(fs), PublicRoot)
    ensures ok ==> forall q :: Lookup(cur, q) == Midway(fs, slugs, q)
    ensures !ok ==> forall q :: OutsidePublic(q) ==> Lookup(cur, q) == Lookup(fs, q)
  {
    cur := Prepared(fs);
    NotAncestor(ContentRoot);
    var entries := ReadDir(cur, ContentRoot);
    slugs := {};
    for i := 0 to |entries|
      invariant forall x :: x in slugs <==> x in entries[..i] && IsSlug(fs, x)
      invariant forall q :: Lookup(cur, q) == Midway(fs, slugs, q)
    {
      var entry := entries[i];
      MidwayAt(fs, cur, slugs, entry);
      SlugsStep(fs, entries, i, slugs);
      if !IsDir(cur, PostDir(entry)) || entry == "drafts" {
        continue;
      }
      var next;
      next, ok := RebuildSlug(cur, entry);
      if !ok {
        OutsideKept(fs, cur, next, slugs, entry);
        return next, slugs, false;
      }
      MidwayStep(fs, cur, next, slugs, entry);
      slugs := slugs + {entry};
      cur := next;
    }
    assert entries[..|entries|] == entries;
    MidwayAt(fs, cur, slugs, "");
    ok := true;
  }

  /** Lines 82-96: every folder in the public root whose name is not a
      slug is removed. */
  method PruneOrphans(mid: Fs, slugs: set<string>) returns (after: Fs)
    ensures forall q :: Lookup(after, q) == Pruned(mid, slugs, ReadDir(mid, PublicRoot), q)
  {
    after := mid;
    var publicEntries := ReadDir(mid, PublicRoot);
    for j := 0 to |publicEntries|
      invariant forall q :: Lookup(after, q) == Pruned(mid, slugs, publicEntries[..j], q)
    {
      var entry := publicEntries[j];
      var entryPath := SlugDir(entry);
      PrunedAt(mid, after, slugs, publicEntries, j);
      if !IsDir(after, entryPath) || entry in slugs {
        PruneSkipped(mid, after, slugs, publicEntries, j);
        continue;
      }
      PruneStep(mid, after, slugs, publicEntries, j);
      after := RemoveTree(after, entryPath);
    }
    assert publicEntries[..|publicEntries|] == publicEntries;
  }

  /** The tree part-way through the pruning loop over `names`. */
  function Pruned(mid: Fs, slugs: set<string>, names: seq<string>, q: Path): Option<Entry> {
    if InSlugFolder(q) && q[3] in names && q[3] !in slugs && IsDir(mid, SlugDir(q[3])) then None
    else Lookup(mid, q)
  }

  /** The pruning loop has not touched the entry it comes to. */
  lemma PrunedAt(mid: Fs, cur: Fs, slugs: set<string>, names: seq<string>, j: nat)
    requires j < |names| && Ascending(names)
    requires forall q :: Lookup(cur, q) == Pruned(mid, slugs, names[..j], q)
    ensures Lookup(cur, SlugDir(names[j])) == Lookup(mid, SlugDir(names[j]))
  {
    AscendingDistinct(names);
    PathShapes(names[j], "");
    assert names[j] !in names[..j];
    assert Lookup(cur, SlugDir(names[j])) == Pruned(mid, slugs, names[..j], SlugDir(names[j]));
  }

  lemma PruneSkipped(mid: Fs, cur: Fs, slugs: set<string>, names: seq<string>, j: nat)
    requires j < |names|
    requires !IsDir(mid, SlugDir(names[j])) || names[j] in slugs
    requires forall q :: Lookup(cur, q) == Pruned(mid, slugs, names[..j], q)
    ensures forall q :: Lookup(cur, q) == Pruned(mid, slugs, names[..j + 1], q)
  {
    assert names[..j + 1] == names[..j] + [names[j]];
  }

  lemma PruneStep(mid: Fs, cur: Fs, slugs: set<string>, names: seq<string>, j: nat)
    requires j < |names|
    requires forall q :: Lookup(cur, q) == Pruned(mid, slugs, names[..j], q)
    requires IsDir(mid, SlugDir(names[j])) && names[j] !in slugs
    ensures forall q :: Lookup(RemoveTree(cur, SlugDir(names[j])), q) == Pruned(mid, slugs, names[..j + 1], q)
  {
    var name := names[j];
    assert names[..j + 1] == names[..j] + [name];
    forall q ensures Lookup(RemoveTree(cur, SlugDir(name)), q) == Pruned(mid, slugs, names[..j + 1], q) {
      WithinSlugDir(q, name);
      if !(InSlugFolder(q) && q[3] == name) {
        assert Pruned(mid, slugs, names[..j + 1], q) == Pruned(mid, slugs, names[..j], q);
      }
    }
  }

  /** In a midway state the public root and the post folders are as they
      were once the public root was ensured. */
  lemma MidwayAt(fs: Fs, cur: Fs, slugs: set<string>, name: string)
    requires forall q :: Lookup(cur, q) == Midway(fs, slugs, q)
    ensures Lookup(cur, PublicRoot) == Lookup(Prepared(fs), PublicRoot)
    ensures Lookup(cur, PostDir(name)) == Lookup(fs, PostDir(name))
  {
    assert Lookup(cur, PublicRoot) == Midway(fs, slugs, PublicRoot);
    assert Lookup(cur, PostDir(name)) == Midway(fs, slugs, PostDir(name));
    PathShapes(name, "");
    NotAncestor(PostDir(name));
  }

  /** The set of slugs gains the entry exactly when the entry is a post. */
  lemma SlugsStep(fs: Fs, entries: seq<string>, i: nat, slugs: set<string>)
    requires i < |entries|
    requires forall x :: x in slugs <==> x in entries[..i] && IsSlug(fs, x)
    ensures !IsSlug(fs, entries[i]) ==> forall x :: x in slugs <==> x in entries[..i + 1] && IsSlug(fs, x)
    ensures IsSlug(fs, entries[i]) ==>
      forall x :: x in slugs + {entries[i]} <==> x in entries[..i + 1] && IsSlug(fs, x)
  {
    assert entries[..i + 1] == entries[..i] + [entries[i]];
  }

  /** A post's step of the first loop takes the tree from one midway state
      to the next. */
  lemma MidwayStep(fs: Fs, cur: Fs, next: Fs, slugs: set<string>, slug: string)
    requires forall q :: Lookup(cur, q) == Midway(fs, slugs, q)
    requires forall q :: Lookup(next, q) == Rebuilt(cur, slug, q)
    ensures forall q :: Lookup(next, q) == Midway(fs, slugs + {slug}, q)
  {
    forall q | InSlugFolder(q) && q[3] == slug
      ensures SlugImage(cur, q) == SlugImage(fs, q)
    {
      if |q| == 5 {
        PathShapes(q[3], q[4]);
        NotAncestor(Source(q[3], q[4]));
        assert Lookup(cur, Source(q[3], q[4])) == Lookup(fs, Source(q[3], q[4]));
      }
    }
  }

  /** Nothing outside `public` differs from the start in a midway state. */
  lemma OutsideMidway(fs: Fs, cur: Fs, slugs: set<string>)
    requires forall q :: Lookup(cur, q) == Midway(fs, slugs, q)
    ensures forall q :: OutsidePublic(q) ==> Lookup(cur, q) == Lookup(fs, q)
  {
    forall q | OutsidePublic(q) ensures Lookup(cur, q) == Lookup(fs, q) {
      NotAncestor(q);
    }
  }

  lemma OutsideKept(fs: Fs, cur: Fs, next: Fs, slugs: set<string>, slug: string)
    requires forall q :: Lookup(cur, q) == Midway(fs, slugs, q)
    requires forall q :: !(InSlugFolder(q) && q[3] == slug) ==> Lookup(next, q) == Lookup(cur, q)
    ensures forall q :: OutsidePublic(q) ==> Lookup(next, q) == Lookup(fs, q)
  {
    OutsideMidway(fs, cur, slugs);
  }

  /** Once every post is rebuilt and every orphan folder pruned, the tree
      is the intended one, and nothing outside `public` has changed. */
  lemma PrunedIsWant(fs: Fs, mid: Fs, after: Fs, slugs: set<string>, names: seq<string>)
    requires forall x :: x in slugs <==> IsSlug(fs, x)
    requires forall q :: Lookup(mid, q) == Midway(fs, slugs, q)
    requires forall x :: x in names <==> PublicRoot + [x] in mid
    requires forall q :: Lookup(after, q) == Pruned(mid, slugs, names, q)
    ensures Synced(fs, after)
    ensures forall q :: OutsidePublic(q) ==> Lookup(after, q) == Lookup(fs, q)
  {
    forall q ensures Lookup(after, q) == Want(fs, q) {
      assert Lookup(after, q) == Pruned(mid, slugs, names, q);
      assert Lookup(mid, q) == Midway(fs, slugs, q);
      if InSlugFolder(q) {
        var name := q[3];
        PathShapes(name, "");
        NotAncestor(q);
        NotAncestor(SlugDir(name));
        if name !in slugs {
          assert Lookup(mid, SlugDir(name)) == Midway(fs, slugs, SlugDir(name));
          assert IsDir(mid, SlugDir(name)) == IsDir(fs, SlugDir(name));
          assert IsDir(mid, SlugDir(name)) ==> name in names;
        }
      }
    }
    forall q | OutsidePublic(q) ensures Lookup(after, q) == Lookup(fs, q) {
      NotAncestor(q);
      assert Lookup(after, q) == Want(fs, q);
    }
  }

  // ---------------------------------------------------------------------
  // Properties of the result
  // ---------------------------------------------------------------------

  /** The content tree, and everything else outside `public`, is left as
      it was. */
  lemma ContentUntouched(fs: Fs, after: Fs, q: Path)
    requires Synced(fs, after)
    requires OutsidePublic(q)
    ensures Lookup(after, q) == Lookup(fs, q)
  {
    assert Lookup(after, q) == Want(fs, q);
    NotAncestor(q);
  }

  /** A post's public folder holds a copy of each of the post's image
      files, whatever the case of its extension, and nothing else: stale
      copies, other files and sub-folders are gone. */
  lemma SlugFolderExact(fs: Fs, after: Fs, slug: string, file: string)
    requires Synced(fs, after)
    requires IsSlug(fs, slug)
    ensures IsDir(after, SlugDir(slug))
    ensures Copy(slug, file) in after <==> IsFile(fs, Source(slug, file)) && IsImage(file)
    ensures Copy(slug, file) in after ==> after[Copy(slug, file)] == fs[Source(slug, file)]
    ensures forall q :: InSlugFolder(q) && q[3] == slug && |q| > 5 ==> q !in after
  {
    PathShapes(slug, file);
    assert Lookup(after, SlugDir(slug)) == Want(fs, SlugDir(slug));
    assert Lookup(after, Copy(slug, file)) == Want(fs, Copy(slug, file));
    forall q | InSlugFolder(q) && q[3] == slug && |q| > 5 ensures q !in after {
      assert Lookup(after, q) == Want(fs, q);
    }
  }

  /** A folder in the public root that is not a post's is gone; a file
      there is left alone. */
  lemma OrphansRemoved(fs: Fs, after: Fs, name: string)
    requires Synced(fs, after)
    requires !IsSlug(fs, name)
    ensures !IsDir(after, SlugDir(name))
    ensures !IsDir(fs, SlugDir(name)) ==> Lookup(after, SlugDir(name)) == Lookup(fs, SlugDir(name))
  {
    PathShapes(name, "");
    assert Lookup(after, SlugDir(name)) == Want(fs, SlugDir(name));
  }

  /** A second run with no change in between leaves the tree as the first
      run left it, and finishes too. */
  lemma SyncIdempotent(fs: Fs, once: Fs, twice: Fs)
    requires IsDir(fs, ContentRoot) && PublicOk(fs)
    requires Synced(fs, once)
    requires Synced(once, twice)
    ensures IsDir(once, ContentRoot) && PublicOk(once)
    ensures twice == once
  {
    NotAncestor(ContentRoot);
    assert Lookup(once, ContentRoot) == Want(fs, ContentRoot);
    assert Lookup(once, PublicRoot) == Want(fs, PublicRoot);
    assert Prepared(once) == once;
    forall q ensures Lookup(twice, q) == Lookup(once, q) {
      assert Lookup(twice, q) == Want(once, q);
      assert Lookup(once, q) == Want(fs, q);
      if InSlugFolder(q) {
        var slug := q[3];
        PathShapes(slug, "");
        NotAncestor(PostDir(slug));
        assert Lookup(once, PostDir(slug)) == Want(fs, PostDir(slug));
        assert IsSlug(once, slug) == IsSlug(fs, slug);
        if IsSlug(fs, slug) {
          if |q| == 5 {
            PathShapes(slug, q[4]);
            NotAncestor(Source(slug, q[4]));
            assert Lookup(once, Source(slug, q[4])) == Want(fs, Source(slug, q[4]));
          }
        } else {
          assert Lookup(once, SlugDir(slug)) == Want(fs, SlugDir(slug));
        }
      }
    }
    LookupExt(twice, once);
  }
}
