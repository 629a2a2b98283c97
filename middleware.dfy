/**
 * The request middleware of src/middleware.ts: a legacy address
 * `/blog/<folder>/<slug>` (with or without a trailing `/`) is sent on to the
 * canonical `/blog/<slug>` when `<folder>/<slug>/index.mdx` exists under
 * the content root, and answered with the 404 page when it does not; every
 * other address passes through.
 */
module Middleware {
  import opened Text
  import opened Common
  import opened FileTree

  /** The parts of a request address the middleware reads or passes on. */
  datatype Url = Url(origin: string, pathname: string, search: string, hash: string)

  /** `NextResponse.next()`, `NextResponse.rewrite(url)` and
      `NextResponse.redirect(url, status)`. */
  datatype Response = Next | Rewrite(target: Url) | Redirect(location: Url, status: int)

  /** A path segment the pattern `[^/]+` captures. */
  predicate Segment(s: string) {
    s != [] && '/' !in s
  }

  /** The legacy address of `slug` in `folder`. */
  function LegacyPath(folder: string, slug: string, trailingSlash: bool): string {
    "/blog/" + folder + "/" + slug + (if trailingSlash then "/" else "")
  }

  /** `^\/blog\/([^/]+)\/([^/]+)\/?$` against the pathname: the folder and
      the slug when the whole pathname has that shape. */
  function LegacyMatch(pathname: string): (r: Option<(string, string)>)
    ensures r.Some? ==> Segment(r.value.0) && Segment(r.value.1)
    ensures r.Some? ==>
      (pathname == LegacyPath(r.value.0, r.value.1, false) || pathname == LegacyPath(r.value.0, r.value.1, true))
  {
    var parts := Split(pathname, '/');
    if (|parts| == 4 || (|parts| == 5 && parts[4] == []))
      && parts[0] == [] && parts[1] == "blog" && parts[2] != [] && parts[3] != []
    then
      LegacyParts(pathname, parts);
      Some((parts[2], parts[3]))
    else None
  }

  lemma LegacyParts(pathname: string, parts: seq<string>)
    requires parts == Split(pathname, '/')
    requires |parts| == 4 || (|parts| == 5 && parts[4] == [])
    requires parts[0] == [] && parts[1] == "blog"
    ensures pathname == LegacyPath(parts[2], parts[3], |parts| == 5)
  {
    JoinSplit(pathname, '/');
    var tail := if |parts| == 5 then "/" else "";
    assert Join(parts[3..], "/") == parts[3] + tail;
    assert Join(parts[2..], "/") == parts[2] + "/" + Join(parts[3..], "/");
    assert Join(parts[1..], "/") == parts[1] + "/" + Join(parts[2..], "/");
    assert Join(parts, "/") == parts[0] + "/" + Join(parts[1..], "/");
  }

  /** Every legacy address is recognised, with its folder and slug. */
  lemma LegacyMatchOf(folder: string, slug: string, trailingSlash: bool)
    requires Segment(folder) && Segment(slug)
    ensures LegacyMatch(LegacyPath(folder, slug, trailingSlash)) == Some((folder, slug))
  {
    var parts := ["", "blog", folder, slug] + (if trailingSlash then [""] else []);
    var p := LegacyPath(folder, slug, trailingSlash);
    assert Join(parts[3..], "/") == slug + (if trailingSlash then "/" else "");
    assert Join(parts[2..], "/") == folder + "/" + Join(parts[3..], "/");
    assert Join(parts[1..], "/") == "blog" + "/" + Join(parts[2..], "/");
    assert Join(parts, "/") == p;
    SplitJoin(parts, '/');
  }

  /** The canonical address `/blog/<slug>` is not a legacy address. */
  lemma CanonicalNotLegacy(slug: string)
    requires Segment(slug)
    ensures LegacyMatch("/blog/" + slug).None?
  {
    var parts := ["", "blog", slug];
    assert Join(parts[1..], "/") == "blog" + "/" + slug;
    assert Join(parts, "/") == "/blog/" + slug;
    SplitJoin(parts, '/');
  }

  /** `src/content/blog/<folder>/<slug>/index.mdx`. */
  function PostPath(folder: string, slug: string): Path {
    ContentRoot + [folder, slug, "index.mdx"]
  }

  /** `middleware`: a permanent redirect to `/blog/<slug>` (query and
      fragment kept) when the post exists in the named folder, the 404 page
      on the same origin when it does not, and no change for any other
      address. */
  function Handle(request: Url, fs: Fs): (r: Response)
    ensures LegacyMatch(request.pathname).None? <==> r == Next
    ensures r.Redirect? ==> r.status == 308 && r.location == request.(pathname := "/blog/" + LegacyMatch(request.pathname).value.1)
    ensures r.Redirect? <==> LegacyMatch(request.pathname).Some? && PostPath(LegacyMatch(request.pathname).value.0, LegacyMatch(request.pathname).value.1) in fs
    ensures r.Rewrite? ==> r.target == Url(request.origin, "/404", "", "")
  {
    match LegacyMatch(request.pathname)
    case None => Next
    case Some((folder, slug)) =>
      if PostPath(folder, slug) !in fs then
        Rewrite(Url(request.origin, "/404", "", ""))
      else
        Redirect(request.(pathname := "/blog/" + slug), 308)
  }

  /** A legacy address of an existing post is redirected to the post's
      canonical address, and one of a missing post gets the 404 page. */
  lemma LegacyOutcome(request: Url, folder: string, slug: string, trailingSlash: bool, fs: Fs)
    requires Segment(folder) && Segment(slug)
    requires request.pathname == LegacyPath(folder, slug, trailingSlash)
    ensures PostPath(folder, slug) in fs ==>
      Handle(request, fs) == Redirect(request.(pathname := "/blog/" + slug), 308)
    ensures PostPath(folder, slug) !in fs ==>
      Handle(request, fs) == Rewrite(Url(request.origin, "/404", "", ""))
  {
    LegacyMatchOf(folder, slug, trailingSlash);
  }

  /** A redirect's target passes through untouched: no redirect loops. */
  lemma RedirectSettles(request: Url, fs: Fs, fs2: Fs)
    requires Handle(request, fs).Redirect?
    ensures Handle(Handle(request, fs).location, fs2) == Next
  {
    var slug := LegacyMatch(request.pathname).value.1;
    CanonicalNotLegacy(slug);
  }
}
