/**
 * The part of Node's `fs` module the scripts and the blog library use, over
 * a file system held as a map from paths (relative to the project root,
 * one name per segment) to entries. `readdirSync` lists a directory's names
 * in ascending code-point order, the order libuv sorts them in.
 */
module FileTree {
  type Path = seq<string>

  datatype Entry = File(content: string) | Directory

  type Fs = map<Path, Entry>

  /** `src/content/blog`, where posts and the drafts folder live. */
  const ContentRoot: Path := ["src", "content", "blog"]

  /** `src/content/blog/drafts`. */
  const DraftsDir: Path := ["src", "content", "blog", "drafts"]

  /** `public/images/blog`, where post images are served from. */
  const PublicRoot: Path := ["public", "images", "blog"]

  predicate IsDir(fs: Fs, p: Path) {
    p in fs && fs[p].Directory?
  }

  predicate IsFile(fs: Fs, p: Path) {
    p in fs && fs[p].File?
  }

  /** `p` is `dir` itself or lies somewhere beneath it. */
  predicate Within(p: Path, dir: Path) {
    |p| >= |dir| && p[..|dir|] == dir
  }

  /** The names directly inside `dir`. */
  function Children(fs: Fs, dir: Path): (r: set<string>)
    ensures forall name :: name in r <==> dir + [name] in fs
  {
    var r := set p | p in fs && |p| == |dir| + 1 && p[..|dir|] == dir :: p[|dir|];
    forall name | dir + [name] in fs ensures name in r {
      var p := dir + [name];
      assert p[..|dir|] == dir && p[|dir|] == name;
    }
    forall name | name in r ensures dir + [name] in fs {
      var p :| p in fs && |p| == |dir| + 1 && p[..|dir|] == dir && p[|dir|] == name;
      assert p == dir + [name];
    }
    r
  }

  /** Code-point order on names: a proper prefix comes first. */
  predicate Below(a: string, b: string)
    decreases |a|
  {
    if a == [] then b != []
    else if b == [] then false
    else a[0] < b[0] || (a[0] == b[0] && Below(a[1..], b[1..]))
  }

  lemma {:induction false} BelowIrreflexive(a: string)
    ensures !Below(a, a)
    decreases |a|
  {
    if a != [] {
      BelowIrreflexive(a[1..]);
    }
  }

  lemma {:induction false} BelowTransitive(a: string, b: string, c: string)
    requires Below(a, b) && Below(b, c)
    ensures Below(a, c)
    decreases |a|
  {
    if a != [] && a[0] == b[0] && b[0] == c[0] {
      BelowTransitive(a[1..], b[1..], c[1..]);
    }
  }

  lemma {:induction false} BelowTotal(a: string, b: string)
    requires a != b
    ensures Below(a, b) || Below(b, a)
    decreases |a|
  {
    if a != [] && b != [] && a[0] == b[0] {
      assert a == [a[0]] + a[1..] && b == [b[0]] + b[1..];
      BelowTotal(a[1..], b[1..]);
    }
  }

  lemma {:induction false} BelowAsymmetric(a: string, b: string)
    requires Below(a, b)
    ensures !Below(b, a)
  {
    if Below(b, a) {
      BelowTransitive(a, b, a);
      BelowIrreflexive(a);
    }
  }

  /** `m` comes before every other member of `s`. */
  predicate IsLeast(m: string, s: set<string>) {
    m in s && forall x :: x in s && x != m ==> Below(m, x)
  }

  lemma {:induction false} LeastExists(s: set<string>)
    requires s != {}
    ensures exists m :: IsLeast(m, s)
    decreases s
  {
    var x :| x in s;
    if s != {x} {
      LeastExists(s - {x});
      var m :| IsLeast(m, s - {x});
      if Below(x, m) {
        forall y | y in s && y != x ensures Below(x, y) {
          if y != m {
            BelowTransitive(x, m, y);
          }
        }
        assert IsLeast(x, s);
      } else {
        BelowTotal(x, m);
        assert IsLeast(m, s);
      }
    } else {
      assert IsLeast(x, s);
    }
  }

  lemma LeastUnique(s: set<string>)
    ensures forall a, b :: IsLeast(a, s) && IsLeast(b, s) ==> a == b
  {
    forall a, b | IsLeast(a, s) && IsLeast(b, s) ensures a == b {
      if a != b {
        BelowAsymmetric(a, b);
      }
    }
  }

  /** Every earlier name comes before every later one. */
  predicate Ascending(names: seq<string>) {
    forall i, j :: 0 <= i < j < |names| ==> Below(names[i], names[j])
  }

  /** The members of `s` in ascending order, each once. */
  function SortSet(s: set<string>): (r: seq<string>)
    ensures |r| == |s| && Ascending(r)
    ensures forall x :: x in r <==> x in s
    decreases s
  {
    if s == {} then []
    else
      LeastExists(s);
      LeastUnique(s);
      var m :| IsLeast(m, s);
      var rest := SortSet(s - {m});
      assert forall j :: 0 <= j < |rest| ==> Below(m, rest[j]);
      [m] + rest
  }

  /** Ascending names are pairwise distinct. */
  lemma AscendingDistinct(names: seq<string>)
    requires Ascending(names)
    ensures forall i, j :: 0 <= i < j < |names| ==> names[i] != names[j]
  {
    forall i, j | 0 <= i < j < |names| ensures names[i] != names[j] {
      BelowIrreflexive(names[i]);
    }
  }

  /** `readdirSync(dir)`: each name directly inside `dir` once, in
      ascending code-point order. */
  function ReadDir(fs: Fs, dir: Path): (r: seq<string>)
    ensures Ascending(r) && |r| == |Children(fs, dir)|
    ensures forall name :: name in r <==> dir + [name] in fs
  {
    SortSet(Children(fs, dir))
  }

  /** `rmSync(p, { recursive: true, force: true })`: `p` and everything
      beneath it go, nothing else changes; a missing `p` is no error. */
  function RemoveTree(fs: Fs, p: Path): (r: Fs)
    ensures forall q :: q in r <==> q in fs && !Within(q, p)
    ensures forall q :: q in r ==> r[q] == fs[q]
  {
    map q | q in fs && !Within(q, p) :: fs[q]
  }

  /** The leading segments of `p`, from one segment up to all of `p`. */
  predicate Ancestor(q: Path, p: Path) {
    0 < |q| <= |p| && q == p[..|q|]
  }

  /** `mkdirSync(p, { recursive: true })`: every missing leading path of
      `p`, `p` included, becomes a directory; nothing present changes. */
  function MakeDirs(fs: Fs, p: Path): (r: Fs)
    ensures forall q :: q in r <==> q in fs || Ancestor(q, p)
    ensures forall q :: q in fs ==> r[q] == fs[q]
    ensures forall q :: q !in fs && Ancestor(q, p) ==> r[q] == Directory
  {
    var leading := set k | 1 <= k <= |p| :: p[..k];
    assert forall q :: Ancestor(q, p) ==> q in leading by {
      forall q | Ancestor(q, p) ensures q in leading {
        assert q == p[..|q|];
      }
    }
    fs + map q | q in leading && q !in fs :: Directory
  }

  /** `renameSync(from, to)` of a file: the content moves to `to` (replacing
      what was there) and `from` is gone. */
  function MoveFile(fs: Fs, from: Path, to: Path): (r: Fs)
    requires IsFile(fs, from) && from != to
    ensures to in r && r[to] == fs[from] && from !in r
    ensures forall q :: q != from && q != to ==> (q in r <==> q in fs) && (q in r ==> r[q] == fs[q])
  {
    fs[to := fs[from]] - {from}
  }
}
