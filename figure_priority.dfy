/**
 * src/lib/remark-mdx-figure-priority.ts: a remark plugin that gives the
 * first `<Figure>` of a post, the hero image, a `priority` attribute, unless
 * it already has one.
 *
 * The syntax tree is a value here and the walk returns the new tree; the
 * walk itself keeps the plugin's shape: a flag that stops it, a loop over
 * the children that breaks once a figure is marked.
 */
module FigurePriority {
  import opened Common

  /** The `value` of a JSX attribute: absent, a string, an expression, or
      the boolean the plugin writes. */
  datatype AttributeValue = NoValue | Text(s: string) | Expression(code: string) | Flag(b: bool)

  datatype Attribute = Attribute(kind: string, name: string, value: AttributeValue)

  /** An mdast node: its `type`, the `name` of a JSX element (empty for
      other nodes), its `attributes` (missing or a list) and its children
      (a missing `children` is the empty list: the walk treats both alike). */
  datatype Node = Node(kind: string, name: string, attributes: Option<seq<Attribute>>, children: seq<Node>)

  /** The attribute the plugin appends. */
  const PriorityAttribute: Attribute := Attribute("mdxJsxAttribute", "priority", Flag(true))

  /** A flow-level JSX element named `Figure`. */
  predicate IsFigure(n: Node) {
    n.kind == "mdxJsxFlowElement" && n.name == "Figure"
  }

  /** `attrs.some(attr => attr.type === "mdxJsxAttribute" && attr.name === "priority")`. */
  predicate HasPriority(attrs: seq<Attribute>) {
    exists i :: 0 <= i < |attrs| && attrs[i].kind == "mdxJsxAttribute" && attrs[i].name == "priority"
  }

  /** Lines 41-56 on a figure: `priority` is appended after the existing
      attributes when none is there; a figure with one is left as it is. */
  function MarkFigure(f: Node): (r: Node)
    ensures r.kind == f.kind && r.name == f.name && r.children == f.children
    ensures r.attributes.Some? && HasPriority(r.attributes.value)
    ensures HasPriority(f.attributes.GetOr([])) ==> r == f
    ensures !HasPriority(f.attributes.GetOr([])) ==>
      r.attributes.value == f.attributes.GetOr([]) + [PriorityAttribute]
  {
    var attrs := f.attributes.GetOr([]);
    if HasPriority(attrs) then
      f
    else
      var marked := attrs + [PriorityAttribute];
      assert marked[|attrs|] == PriorityAttribute;
      f.(attributes := Some(marked))
  }

  // ---------------------------------------------------------------------
  // Positions in the tree
  // ---------------------------------------------------------------------

  /** A path names a node by the child indices that lead to it; the empty
      path names the node itself. */
  predicate ValidPath(n: Node, p: seq<nat>)
    decreases n, 1
  {
    p == [] || ValidIn(n.children, p)
  }

  /** A non-empty path into a list of sibling trees. */
  predicate ValidIn(cs: seq<Node>, p: seq<nat>)
    decreases cs, 0
  {
    p != [] && p[0] < |cs| && ValidPath(cs[p[0]], p[1..])
  }

  function At(n: Node, p: seq<nat>): Node
    requires ValidPath(n, p)
    decreases n, 1
  {
    if p == [] then n else AtIn(n.children, p)
  }

  function AtIn(cs: seq<Node>, p: seq<nat>): Node
    requires ValidIn(cs, p)
    decreases cs, 0
  {
    At(cs[p[0]], p[1..])
  }

  /** The tree with the node at `p` replaced by `v`. */
  function UpdateAt(n: Node, p: seq<nat>, v: Node): Node
    requires ValidPath(n, p)
    decreases n, 1
  {
    if p == [] then v else n.(children := UpdateIn(n.children, p, v))
  }

  function UpdateIn(cs: seq<Node>, p: seq<nat>, v: Node): (r: seq<Node>)
    requires ValidIn(cs, p)
    ensures |r| == |cs|
    decreases cs, 0
  {
    cs[p[0] := UpdateAt(cs[p[0]], p[1..], v)]
  }

  /** Pre-order, the order of a depth-first, left-to-right walk: `q` comes
      before `p` when it is a proper prefix of `p` or turns left of it. */
  predicate Before(q: seq<nat>, p: seq<nat>) {
    p != [] && (q == [] || q[0] < p[0] || (q[0] == p[0] && Before(q[1..], p[1..])))
  }

  // ---------------------------------------------------------------------
  // The first figure
  // ---------------------------------------------------------------------

  /** The path of the first figure in pre-order, if any. */
  function FirstIn(n: Node): (r: Option<seq<nat>>)
    ensures r.Some? ==> ValidPath(n, r.value) && IsFigure(At(n, r.value))
    decreases n, 1
  {
    if IsFigure(n) then Some([]) else FirstFrom(n.children, 0)
  }

  /** The path of the first figure among `cs[k..]`, in pre-order. */
  function FirstFrom(cs: seq<Node>, k: nat): (r: Option<seq<nat>>)
    requires k <= |cs|
    ensures r.Some? ==> ValidIn(cs, r.value) && r.value[0] >= k && IsFigure(AtIn(cs, r.value))
    decreases cs, |cs| - k
  {
    if k == |cs| then None
    else match FirstIn(cs[k])
      case Some(p) =>
        assert ([k] + p)[1..] == p;
        Some([k] + p)
      case None => FirstFrom(cs, k + 1)
  }

  /** No figure comes before the one `FirstIn` finds, and where it finds
      none there is none. */
  lemma {:induction false} FirstInIsFirst(n: Node, q: seq<nat>)
    requires ValidPath(n, q)
    requires FirstIn(n).Some? ==> Before(q, FirstIn(n).value)
    ensures !IsFigure(At(n, q))
    decreases n, 1
  {
    if q != [] {
      FirstFromIsFirst(n.children, 0, q);
    }
  }

  lemma {:induction false} FirstFromIsFirst(cs: seq<Node>, k: nat, q: seq<nat>)
    requires k <= |cs| && ValidIn(cs, q) && q[0] >= k
    requires FirstFrom(cs, k).Some? ==> Before(q, FirstFrom(cs, k).value)
    ensures !IsFigure(AtIn(cs, q))
    decreases cs, |cs| - k
  {
    match FirstIn(cs[k])
    case Some(p) =>
      assert FirstFrom(cs, k) == Some([k] + p);
      assert ([k] + p)[1..] == p;
      FirstInIsFirst(cs[k], q[1..]);
    case None =>
      if q[0] == k {
        FirstInIsFirst(cs[k], q[1..]);
      } else {
        FirstFromIsFirst(cs, k + 1, q);
      }
  }

  // ---------------------------------------------------------------------
  // The intended result
  // ---------------------------------------------------------------------

  /** The tree with its first figure marked: nothing else changes. */
  function Marked(n: Node): Node {
    match FirstIn(n)
    case None => n
    case Some(p) => UpdateAt(n, p, MarkFigure(At(n, p)))
  }

  /** The sibling list `cs` with its first figure marked. */
  function MarkedIn(cs: seq<Node>): seq<Node> {
    match FirstFrom(cs, 0)
    case None => cs
    case Some(p) => UpdateIn(cs, p, MarkFigure(AtIn(cs, p)))
  }

  /** Below a node that is not a figure, marking is marking its children. */
  lemma MarkedNode(n: Node)
    requires !IsFigure(n)
    ensures Marked(n) == n.(children := MarkedIn(n.children))
  {
  }

  /** Marking the siblings marks the first child that holds a figure. */
  lemma {:induction false} MarkedChild(cs: seq<Node>, i: nat)
    requires i < |cs|
    requires FirstFrom(cs, 0) == FirstFrom(cs, i)
    requires FirstIn(cs[i]).Some?
    ensures FirstFrom(cs, 0).Some?
    ensures MarkedIn(cs) == cs[i := Marked(cs[i])]
  {
    var p := FirstIn(cs[i]).value;
    assert FirstFrom(cs, i) == Some([i] + p);
    assert ([i] + p)[0] == i && ([i] + p)[1..] == p;
  }

  // ---------------------------------------------------------------------
  // The walk
  // ---------------------------------------------------------------------

  /** `visit` (lines 35-69). Its first check, `if (hasMarkedFigure)
      return`, never fires: every loop that calls it breaks as soon as the
      flag is set, so the walk starts it only while the flag is clear. */
  method Visit(node: Node) returns (r: Node, marked: bool)
    ensures marked <==> FirstIn(node).Some?
    ensures r == Marked(node)
    decreases node, 1
  {
    if node.kind == "mdxJsxFlowElement" && node.name == "Figure" {
      var attrs := node.attributes.GetOr([]);
      r := node;
      if !HasPriority(attrs) {
        attrs := attrs + [PriorityAttribute];
        r := r.(attributes := Some(attrs));
      }
      return r, true;
    }
    var children;
    children, marked := VisitChildren(node.children);
    r := node.(children := children);
    MarkedNode(node);
  }

  /** The loop `for (const child of children) { visit(child); if
      (hasMarkedFigure) break; }` (lines 64-67 and 72-75), with the flag
      `hasMarkedFigure` as `marked`. */
  method VisitChildren(cs: seq<Node>) returns (rs: seq<Node>, marked: bool)
    ensures marked <==> FirstFrom(cs, 0).Some?
    ensures rs == MarkedIn(cs)
    decreases cs, 0
  {
    rs := cs;
    marked := false;
    var i := 0;
    while i < |cs|
      invariant i <= |cs|
      invariant !marked && rs == cs
      invariant FirstFrom(cs, 0) == FirstFrom(cs, i)
    {
      var child, found := Visit(cs[i]);
      if found {
        MarkedChild(cs, i);
        rs := rs[i := child];
        marked := true;
        break;
      }
      rs := rs[i := child];
      i := i + 1;
    }
  }

  /** The plugin's transformer (lines 31-77): the walk goes over the root's
      children; the root itself is never a figure. */
  method RemarkMdxFigurePriority(tree: Node) returns (r: Node)
    ensures !IsFigure(tree) ==> r == Marked(tree)
    ensures r.kind == tree.kind && r.name == tree.name && r.attributes == tree.attributes
    ensures r.children == MarkedIn(tree.children)
  {
    var children, _ := VisitChildren(tree.children);
    r := tree.(children := children);
    if !IsFigure(tree) {
      MarkedNode(tree);
    }
  }

  // ---------------------------------------------------------------------
  // What marking does
  // ---------------------------------------------------------------------

  /** A tree without a flow-level figure is left as it is. */
  lemma NoFigureUnchanged(n: Node)
    requires forall q :: ValidPath(n, q) ==> !IsFigure(At(n, q))
    ensures Marked(n) == n
  {
  }

  /** Writing back the node already at `p` changes nothing. */
  lemma {:induction false} UpdateSame(n: Node, p: seq<nat>)
    requires ValidPath(n, p)
    ensures UpdateAt(n, p, At(n, p)) == n
    decreases n, 1
  {
    if p != [] {
      UpdateSameIn(n.children, p);
    }
  }

  lemma {:induction false} UpdateSameIn(cs: seq<Node>, p: seq<nat>)
    requires ValidIn(cs, p)
    ensures UpdateIn(cs, p, AtIn(cs, p)) == cs
    decreases cs, 0
  {
    UpdateSame(cs[p[0]], p[1..]);
  }

  /** A first figure that already has `priority` means no change at all. */
  lemma ExistingPriorityKept(n: Node)
    requires FirstIn(n).Some?
    requires HasPriority(At(n, FirstIn(n).value).attributes.GetOr([]))
    ensures Marked(n) == n
  {
    UpdateSame(n, FirstIn(n).value);
  }

  /** The marked figure is the first figure, with `priority` added. */
  lemma {:induction false} UpdateAtAt(n: Node, p: seq<nat>, v: Node)
    requires ValidPath(n, p)
    ensures ValidPath(UpdateAt(n, p, v), p) && At(UpdateAt(n, p, v), p) == v
    decreases n, 1
  {
    if p != [] {
      UpdateAtAtIn(n.children, p, v);
    }
  }

  lemma {:induction false} UpdateAtAtIn(cs: seq<Node>, p: seq<nat>, v: Node)
    requires ValidIn(cs, p)
    ensures ValidIn(UpdateIn(cs, p, v), p) && AtIn(UpdateIn(cs, p, v), p) == v
    decreases cs, 0
  {
    UpdateAtAt(cs[p[0]], p[1..], v);
    assert UpdateIn(cs, p, v)[p[0]] == UpdateAt(cs[p[0]], p[1..], v);
  }

  /** The type, name and attributes of a node: what marking may change. */
  function Label(n: Node): (string, string, Option<seq<Attribute>>) {
    (n.kind, n.name, n.attributes)
  }

  /** Replacing one node by one with the same children keeps every other
      node's place and label. */
  lemma {:induction false} UpdateKeeps(n: Node, p: seq<nat>, v: Node, q: seq<nat>)
    requires ValidPath(n, p) && ValidPath(n, q) && q != p
    requires v.children == At(n, p).children
    ensures ValidPath(UpdateAt(n, p, v), q) && Label(At(UpdateAt(n, p, v), q)) == Label(At(n, q))
    decreases n, 1
  {
    if p != [] && q != [] {
      UpdateKeepsIn(n.children, p, v, q);
    }
  }

  lemma {:induction false} UpdateKeepsIn(cs: seq<Node>, p: seq<nat>, v: Node, q: seq<nat>)
    requires ValidIn(cs, p) && ValidIn(cs, q) && q != p
    requires v.children == AtIn(cs, p).children
    ensures ValidIn(UpdateIn(cs, p, v), q) && Label(AtIn(UpdateIn(cs, p, v), q)) == Label(AtIn(cs, q))
    decreases cs, 0
  {
    var r := UpdateIn(cs, p, v);
    if q[0] == p[0] {
      UpdateKeeps(cs[p[0]], p[1..], v, q[1..]);
    } else {
      assert r[q[0]] == cs[q[0]];
    }
  }

  /** At most one node gets a `priority` attribute: the first figure; every
      other node keeps its type, name and attributes. */
  lemma OnlyFirstFigureMarked(n: Node, q: seq<nat>)
    requires FirstIn(n).Some?
    requires ValidPath(n, q) && q != FirstIn(n).value
    ensures ValidPath(Marked(n), q) && Label(At(Marked(n), q)) == Label(At(n, q))
  {
    var p := FirstIn(n).value;
    UpdateKeeps(n, p, MarkFigure(At(n, p)), q);
  }

  /** The first figure ends up holding `priority`. */
  lemma FirstFigureMarked(n: Node)
    requires FirstIn(n).Some?
    ensures ValidPath(Marked(n), FirstIn(n).value)
    ensures At(Marked(n), FirstIn(n).value) == MarkFigure(At(n, FirstIn(n).value))
  {
    var p := FirstIn(n).value;
    UpdateAtAt(n, p, MarkFigure(At(n, p)));
  }
}
