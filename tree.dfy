/**
 * The journal tree of one destination: its nodes, the lookup of a node's
 * ancestor path, the two splice helpers and the update of one nested sibling
 * array (src/app.js:73-112), and the breadcrumb built from a path
 * (src/app.js:510-511).
 */
module Tree {
  import opened Wrappers

  datatype Kind = Page | Section

  /** A node of the forest. Any node may carry children: nothing in the
      journal forbids them on a page, and indenting under a page creates them. */
  datatype Node = Node(id: string, title: string, kind: Kind, children: Children)

  /** The optional `children` array of a node: absent, or present and
      possibly empty (an empty array is still there). */
  datatype Children = Missing | Present(nodes: seq<Node>)

  /** One step of a lookup path: `node` sits at `index` of the array `parent`. */
  datatype Frame = Frame(parent: seq<Node>, index: nat, node: Node)

  type Path = seq<Frame>

  /** The children of `n` as a forest (none when the node has no array). */
  function Kids(n: Node): seq<Node>
  {
    if n.children.Present? then n.children.nodes else []
  }

  /** The number of nodes of a forest: the measure of the proofs below. */
  ghost function Size(f: seq<Node>): nat
  {
    if f == [] then 0 else NodeSize(f[0]) + Size(f[1..])
  }

  ghost function NodeSize(n: Node): nat
  {
    1 + match n.children
        case Missing => 0
        case Present(c) => Size(c)
  }

  lemma {:induction false} SizeAt(f: seq<Node>, i: nat)
    requires i < |f|
    ensures Size(Kids(f[i])) < NodeSize(f[i]) <= Size(f)
  {
    if i > 0 {
      SizeAt(f[1..], i - 1);
    }
  }

  // ----------------------------------------------------------------------
  // Ids in pre-order

  /** The node's own id, kept when all ids are wanted or the node is a page. */
  function Own(n: Node, pagesOnly: bool): seq<string>
  {
    if !pagesOnly || n.kind == Page then [n.id] else []
  }

  /** The ids of a forest in pre-order, that is in display order; with
      `pagesOnly`, the ids of its page nodes only. */
  function Collect(forest: seq<Node>, pagesOnly: bool): seq<string>
  {
    if forest == [] then []
    else CollectNode(forest[0], pagesOnly) + Collect(forest[1..], pagesOnly)
  }

  /** The ids of the subtree rooted at `n`, in pre-order. */
  function CollectNode(n: Node, pagesOnly: bool): seq<string>
  {
    Own(n, pagesOnly)
    + match n.children
      case Missing => []
      case Present(c) => Collect(c, pagesOnly)
  }

  function Ids(forest: seq<Node>): seq<string>
  {
    Collect(forest, false)
  }

  function PageIds(forest: seq<Node>): seq<string>
  {
    Collect(forest, true)
  }

  lemma {:induction false} CollectConcat(a: seq<Node>, b: seq<Node>, pagesOnly: bool)
    ensures Collect(a + b, pagesOnly) == Collect(a, pagesOnly) + Collect(b, pagesOnly)
  {
    if a == [] {
      assert a + b == b;
    } else {
      assert (a + b)[0] == a[0];
      assert (a + b)[1..] == a[1..] + b;
      CollectConcat(a[1..], b, pagesOnly);
    }
  }

  lemma CollectOne(n: Node, pagesOnly: bool)
    ensures Collect([n], pagesOnly) == CollectNode(n, pagesOnly) == Own(n, pagesOnly) + Collect(Kids(n), pagesOnly)
  {
    assert [n][1..] == [];
  }

  /** The ids of a forest split around position `i`. */
  lemma CollectAround(f: seq<Node>, i: nat, pagesOnly: bool)
    requires i < |f|
    ensures Collect(f, pagesOnly)
         == Collect(f[..i], pagesOnly) + Own(f[i], pagesOnly) + Collect(Kids(f[i]), pagesOnly)
            + Collect(f[i + 1..], pagesOnly)
  {
    assert f == f[..i] + [f[i]] + f[i + 1..];
    CollectConcat(f[..i] + [f[i]], f[i + 1..], pagesOnly);
    CollectConcat(f[..i], [f[i]], pagesOnly);
    CollectOne(f[i], pagesOnly);
  }

  /** Every page id is an id: the page ids form a sub-multiset of all ids. */
  lemma {:induction false} PageIdsAreIds(f: seq<Node>)
    ensures multiset(PageIds(f)) <= multiset(Ids(f))
    decreases Size(f)
  {
    if f != [] {
      SizeAt(f, 0);
      PageIdsAreIds(f[1..]);
      PageIdsAreIds(Kids(f[0]));
      CollectOne(f[0], true);
      CollectOne(f[0], false);
    }
  }

  /** The first root of a non-empty forest is one of its ids. */
  lemma FirstRootIsId(f: seq<Node>)
    requires f != []
    ensures f[0].id in Ids(f)
  {
    assert Ids(f) == CollectNode(f[0], false) + Collect(f[1..], false);
    assert CollectNode(f[0], false)[0] == f[0].id;
  }

  /** No id occurs twice anywhere in the forest. */
  ghost predicate UniqueIds(f: seq<Node>)
  {
    forall x | x in multiset(Ids(f)) :: multiset(Ids(f))[x] == 1
  }

  // ----------------------------------------------------------------------
  // Splice helpers (src/app.js:111-112)

  /** Where `Array.prototype.splice` starts for a requested start position:
      negative positions count from the end, large ones stop at the end. */
  function SpliceStart(len: nat, start: int): (s: nat)
    ensures s <= len
    ensures 0 <= start <= len ==> s == start
  {
    if start < 0 then (if len + start < 0 then 0 else len + start)
    else if start > len then len
    else start
  }

  /** `arr.splice(start, 0, x)`: `x` inserted at the normalised start. */
  function SpliceInsert<T>(arr: seq<T>, start: int, x: T): (r: seq<T>)
    ensures |r| == |arr| + 1
    ensures multiset(r) == multiset(arr) + multiset{x}
    ensures 0 <= start <= |arr| ==> r == arr[..start] + [x] + arr[start..]
  {
    var s := SpliceStart(|arr|, start);
    assert arr == arr[..s] + arr[s..];
    arr[..s] + [x] + arr[s..]
  }

  /** `insertAfter(arr, index, x)`: `x` placed right after position `index`,
      at the head when `index` is -1. */
  function InsertAfter<T>(arr: seq<T>, index: int, x: T): (r: seq<T>)
    ensures |r| == |arr| + 1
    ensures multiset(r) == multiset(arr) + multiset{x}
    ensures -1 <= index < |arr| ==>
              r[index + 1] == x && r[..index + 1] == arr[..index + 1] && r[index + 2..] == arr[index + 1..]
  {
    SpliceInsert(arr, index + 1, x)
  }

  /** `removeAt(arr, index)`: `arr.splice(index, 1)`, with the removed element,
      which is `undefined` (None) when `index` is past the end. */
  function RemoveAt<T>(arr: seq<T>, index: int): (r: (seq<T>, Option<T>))
    ensures 0 <= index < |arr| ==> r.1 == Some(arr[index]) && r.0 == arr[..index] + arr[index + 1..]
    ensures index >= |arr| ==> r == (arr, None)
    ensures r.1.Some? ==> |r.0| + 1 == |arr| && multiset(r.0) + multiset{r.1.value} == multiset(arr)
    ensures r.1.None? ==> r.0 == arr
  {
    var s := SpliceStart(|arr|, index);
    if s < |arr| then
      assert arr == arr[..s] + [arr[s]] + arr[s + 1..];
      (arr[..s] + arr[s + 1..], Some(arr[s]))
    else (arr, None)
  }

  /** Inserting a node adds exactly the ids of its subtree. */
  lemma CollectInsert(arr: seq<Node>, start: int, x: Node, pagesOnly: bool)
    ensures multiset(Collect(SpliceInsert(arr, start, x), pagesOnly))
         == multiset(Collect(arr, pagesOnly)) + multiset(CollectNode(x, pagesOnly))
  {
    var s := SpliceStart(|arr|, start);
    assert arr == arr[..s] + arr[s..];
    CollectConcat(arr[..s] + [x], arr[s..], pagesOnly);
    CollectConcat(arr[..s], [x], pagesOnly);
    CollectConcat(arr[..s], arr[s..], pagesOnly);
    CollectOne(x, pagesOnly);
  }

  /** Removing a node takes away exactly the ids of its subtree. */
  lemma CollectRemove(arr: seq<Node>, index: int, pagesOnly: bool)
    requires RemoveAt(arr, index).1.Some?
    ensures multiset(Collect(RemoveAt(arr, index).0, pagesOnly))
              + multiset(CollectNode(RemoveAt(arr, index).1.value, pagesOnly))
         == multiset(Collect(arr, pagesOnly))
  {
    var i := SpliceStart(|arr|, index);
    CollectAround(arr, i, pagesOnly);
    CollectConcat(arr[..i], arr[i + 1..], pagesOnly);
    CollectOne(arr[i], pagesOnly);
  }

  lemma MultisetCancel<T>(a: multiset<T>, b: multiset<T>, c: multiset<T>)
    requires a + c == b + c
    ensures a == b
  {
    forall x
      ensures a[x] == b[x]
    {
      assert (a + c)[x] == (b + c)[x];
    }
  }

  // ----------------------------------------------------------------------
  // Path lookup (src/app.js:99-110)

  /** `findNodePath` from sibling position `i` on. The frames are those of
      the source with the caller's prefix left off: the source passes the
      prefix down and concatenates, here each level prepends its frame. */
  function FindFrom(forest: seq<Node>, id: string, i: nat): Option<Path>
    requires i <= |forest|
    decreases forest, |forest| - i
  {
    if i == |forest| then None
    else
      var n := forest[i];
      var here := Frame(forest, i, n);
      if n.id == id then Some([here])
      else match FindBelow(n, id)
        case Some(p) => Some([here] + p)
        case None => FindFrom(forest, id, i + 1)
  }

  /** The search inside the children of `n`, when it has a children array. */
  function FindBelow(n: Node, id: string): Option<Path>
    decreases n
  {
    match n.children
    case Missing => None
    case Present(c) => FindFrom(c, id, 0)
  }

  function FindNodePath(forest: seq<Node>, id: string): Option<Path>
  {
    FindFrom(forest, id, 0)
  }

  /** The frame of the node a path leads to. */
  function Last(p: Path): Frame
    requires |p| > 0
  {
    p[|p| - 1]
  }

  /** `p` is a chain of frames from the root array `forest` downwards: every
      frame's node sits at its index of its array, and each later array is
      the children array of the node before it. */
  ghost predicate Chain(forest: seq<Node>, p: Path)
  {
    && |p| > 0
    && p[0].parent == forest
    && (forall k | 0 <= k < |p| :: p[k].index < |p[k].parent| && p[k].parent[p[k].index] == p[k].node)
    && (forall k | 0 <= k < |p| - 1 :: p[k].node.children == Present(p[k + 1].parent))
  }

  /** The chain ends at `id`, no ancestor on it has `id`, and below the top
      frame no earlier sibling subtree holds `id`. */
  ghost predicate Leads(p: Path, id: string)
    requires |p| > 0
    requires forall k | 0 <= k < |p| :: p[k].index < |p[k].parent|
  {
    && p[|p| - 1].node.id == id
    && (forall k | 0 <= k < |p| - 1 :: p[k].node.id != id)
    && (forall k | 1 <= k < |p| :: id !in Ids(p[k].parent[..p[k].index]))
  }

  /** The chain leads to the first node with `id` in pre-order. */
  ghost predicate FirstMatch(p: Path, id: string)
    requires |p| > 0
    requires forall k | 0 <= k < |p| :: p[k].index < |p[k].parent|
  {
    Leads(p, id) && id !in Ids(p[0].parent[..p[0].index])
  }

  lemma {:induction false} FindFromSpec(forest: seq<Node>, id: string, i: nat)
    requires i <= |forest|
    ensures FindFrom(forest, id, i).None? <==> id !in Ids(forest[i..])
    ensures FindFrom(forest, id, i).Some? ==>
              var p := FindFrom(forest, id, i).value;
              && Chain(forest, p) && Leads(p, id)
              && i <= p[0].index && id !in Ids(forest[i..p[0].index])
    decreases Size(forest), |forest| - i
  {
    if i < |forest| {
      var n := forest[i];
      assert forest[i..] == [n] + forest[i + 1..];
      CollectConcat([n], forest[i + 1..], false);
      CollectOne(n, false);
      assert forest[i..i] == [];
      if n.id != id {
        var c := Kids(n);
        var rest := FindFrom(forest, id, i + 1);
        FindFromSpec(forest, id, i + 1);
        if n.children.Present? {
          SizeAt(forest, i);
          FindFromSpec(c, id, 0);
          assert c[0..] == c;
        }
        if n.children.Present? && FindFrom(c, id, 0).Some? {
          PrependFrame(forest, i, FindFrom(c, id, 0).value, id);
        } else if rest.Some? {
          SkipSubtree(forest, i, rest.value[0].index, id);
        }
      }
    }
  }

  /** A chain to `id` inside the children of `forest[i]` becomes one from
      `forest` when the frame of `forest[i]` is put in front. */
  lemma PrependFrame(forest: seq<Node>, i: nat, q: Path, id: string)
    requires i < |forest| && forest[i].id != id && q != [] && forest[i].children == Present(q[0].parent)
    requires Chain(q[0].parent, q) && Leads(q, id) && id !in Ids(q[0].parent[0..q[0].index])
    ensures var p := [Frame(forest, i, forest[i])] + q;
      Chain(forest, p) && Leads(p, id)
  {
    var c := q[0].parent;
    var p := [Frame(forest, i, forest[i])] + q;
    assert c[0..q[0].index] == c[..q[0].index];
    assert forall k | 1 <= k < |p| :: p[k] == q[k - 1];
  }

  /** Skipping a subtree without `id` keeps `id` out of the skipped part. */
  lemma SkipSubtree(forest: seq<Node>, i: nat, j: nat, id: string)
    requires i < j <= |forest| && id !in CollectNode(forest[i], false)
    requires id !in Ids(forest[i + 1..j])
    ensures id !in Ids(forest[i..j])
  {
    assert forest[i..j] == [forest[i]] + forest[i + 1..j];
    CollectConcat([forest[i]], forest[i + 1..j], false);
    CollectOne(forest[i], false);
  }

  /** `findNodePath(tree, id)` is null exactly when no node of the forest has
      `id`; otherwise it is the chain of frames from a root array down to the
      first node with `id` in pre-order. */
  lemma FindNodePathSpec(forest: seq<Node>, id: string)
    ensures FindNodePath(forest, id).None? <==> id !in Ids(forest)
    ensures FindNodePath(forest, id).Some? ==>
              var p := FindNodePath(forest, id).value;
              Chain(forest, p) && FirstMatch(p, id)
  {
    FindFromSpec(forest, id, 0);
    assert forest[0..] == forest;
    if FindNodePath(forest, id).Some? {
      var p := FindNodePath(forest, id).value;
      assert forest[0..p[0].index] == forest[..p[0].index];
    }
  }

  // ----------------------------------------------------------------------
  // Path-directed update of one nested sibling array

  /** The sibling array reached from `forest` by following the indices of
      `route`, each into the children array of the node at that index. */
  function ArrayAt(forest: seq<Node>, route: seq<nat>): Option<seq<Node>>
    decreases route
  {
    if route == [] then Some(forest)
    else if route[0] < |forest| && forest[route[0]].children.Present? then
      ArrayAt(forest[route[0]].children.nodes, route[1..])
    else None
  }

  /** The route to the array that holds the last node of a path: the indices
      of all frames but the last. */
  function Route(p: Path): (r: seq<nat>)
    requires |p| > 0
    ensures |r| == |p| - 1 && forall k | 0 <= k < |r| :: r[k] == p[k].index
  {
    seq(|p| - 1, k requires 0 <= k < |p| - 1 => p[k].index)
  }

  /** The forest with the array at `route` replaced by `arr` and nothing else
      changed: the in-place splice of the source on a nested array. */
  function ReplaceArray(forest: seq<Node>, route: seq<nat>, arr: seq<Node>): (r: seq<Node>)
    requires ArrayAt(forest, route).Some?
    ensures ArrayAt(r, route) == Some(arr)
    ensures route != [] ==> |r| == |forest|
    decreases route
  {
    if route == [] then arr
    else
      var n := forest[route[0]];
      forest[route[0] := n.(children := Present(ReplaceArray(n.children.nodes, route[1..], arr)))]
  }

  /** Following a path's route from the root reaches the array holding the
      path's last node. */
  lemma {:induction false} RouteReaches(forest: seq<Node>, p: Path)
    requires Chain(forest, p)
    ensures ArrayAt(forest, Route(p)) == Some(p[|p| - 1].parent)
    decreases p
  {
    if |p| > 1 {
      var q := p[1..];
      assert Chain(p[1].parent, q) by {
        assert forall k | 0 <= k < |q| :: q[k] == p[k + 1];
      }
      RouteReaches(p[1].parent, q);
      assert Route(p)[1..] == Route(q);
    }
  }

  /** Every prefix of a chain is a chain. */
  lemma ChainPrefix(forest: seq<Node>, p: Path, j: nat)
    requires Chain(forest, p) && 1 <= j <= |p|
    ensures Chain(forest, p[..j]) && Route(p[..j]) == Route(p)[..j - 1]
  {
  }

  /** Replacing a nested array leaves every array above it on its route in
      place, with its length unchanged. */
  lemma {:induction false} ReplaceKeepsAbove(forest: seq<Node>, route: seq<nat>, arr: seq<Node>, above: nat)
    requires ArrayAt(forest, route).Some? && above < |route|
    ensures ArrayAt(forest, route[..above]).Some?
    ensures ArrayAt(ReplaceArray(forest, route, arr), route[..above]).Some?
    ensures |ArrayAt(ReplaceArray(forest, route, arr), route[..above]).value|
         == |ArrayAt(forest, route[..above]).value|
    decreases route
  {
    if above > 0 {
      var n := forest[route[0]];
      assert route[..above][1..] == route[1..][..above - 1];
      ReplaceKeepsAbove(n.children.nodes, route[1..], arr, above - 1);
    }
  }

  /** Replacing a nested array changes the forest's ids exactly by the ids of
      the old and the new array. */
  lemma {:induction false} ReplaceCollect(forest: seq<Node>, route: seq<nat>, arr: seq<Node>, pagesOnly: bool)
    requires ArrayAt(forest, route).Some?
    ensures multiset(Collect(ReplaceArray(forest, route, arr), pagesOnly))
              + multiset(Collect(ArrayAt(forest, route).value, pagesOnly))
         == multiset(Collect(forest, pagesOnly)) + multiset(Collect(arr, pagesOnly))
    decreases route
  {
    if route != [] {
      var i := route[0];
      var n := forest[i];
      var c := n.children.nodes;
      var rc := ReplaceArray(c, route[1..], arr);
      var r := ReplaceArray(forest, route, arr);
      ReplaceCollect(c, route[1..], arr, pagesOnly);
      CollectAround(forest, i, pagesOnly);
      CollectAround(r, i, pagesOnly);
      assert r[..i] == forest[..i] && r[i + 1..] == forest[i + 1..];
      assert Kids(r[i]) == rc && Kids(n) == c && Own(r[i], pagesOnly) == Own(n, pagesOnly);
      var around := Collect(forest[..i], pagesOnly) + Own(n, pagesOnly);
      var after := Collect(forest[i + 1..], pagesOnly);
      assert Collect(r, pagesOnly) == around + Collect(rc, pagesOnly) + after;
      assert Collect(forest, pagesOnly) == around + Collect(c, pagesOnly) + after;
      assert ArrayAt(forest, route) == ArrayAt(c, route[1..]);
      SwapMiddle(around, after, Collect(c, pagesOnly), Collect(rc, pagesOnly),
                 Collect(ArrayAt(forest, route).value, pagesOnly), Collect(arr, pagesOnly));
    }
  }

  lemma SwapMiddle(a: seq<string>, b: seq<string>, m: seq<string>, m': seq<string>, out: seq<string>, in': seq<string>)
    requires multiset(m') + multiset(out) == multiset(m) + multiset(in')
    ensures multiset(a + m' + b) + multiset(out) == multiset(a + m + b) + multiset(in')
  {
    assert multiset(a + m' + b) == multiset(a) + multiset(m') + multiset(b);
    assert multiset(a + m + b) == multiset(a) + multiset(m) + multiset(b);
    forall x
      ensures (multiset(a + m' + b) + multiset(out))[x] == (multiset(a + m + b) + multiset(in'))[x]
    {
      assert (multiset(m') + multiset(out))[x] == (multiset(m) + multiset(in'))[x];
    }
  }

  /** Inserting a node into a nested array adds exactly the ids of its
      subtree to the forest. */
  lemma ReplaceInsert(forest: seq<Node>, route: seq<nat>, index: int, x: Node, pagesOnly: bool)
    requires ArrayAt(forest, route).Some?
    ensures multiset(Collect(ReplaceArray(forest, route, InsertAfter(ArrayAt(forest, route).value, index, x)), pagesOnly))
         == multiset(Collect(forest, pagesOnly)) + multiset(CollectNode(x, pagesOnly))
  {
    var old_ := ArrayAt(forest, route).value;
    var arr := InsertAfter(old_, index, x);
    var r := ReplaceArray(forest, route, arr);
    ReplaceCollect(forest, route, arr, pagesOnly);
    CollectInsert(old_, index + 1, x, pagesOnly);
    MultisetCancel(multiset(Collect(r, pagesOnly)),
                   multiset(Collect(forest, pagesOnly)) + multiset(CollectNode(x, pagesOnly)),
                   multiset(Collect(old_, pagesOnly)));
  }

  /** Removing a node from a nested array takes exactly the ids of its
      subtree out of the forest. */
  lemma ReplaceRemove(forest: seq<Node>, route: seq<nat>, index: int, pagesOnly: bool)
    requires ArrayAt(forest, route).Some? && RemoveAt(ArrayAt(forest, route).value, index).1.Some?
    ensures var rm := RemoveAt(ArrayAt(forest, route).value, index);
      multiset(Collect(ReplaceArray(forest, route, rm.0), pagesOnly)) + multiset(CollectNode(rm.1.value, pagesOnly))
      == multiset(Collect(forest, pagesOnly))
  {
    var old_ := ArrayAt(forest, route).value;
    var rm := RemoveAt(old_, index);
    var r := ReplaceArray(forest, route, rm.0);
    var gone := multiset(CollectNode(rm.1.value, pagesOnly));
    ReplaceCollect(forest, route, rm.0, pagesOnly);
    CollectRemove(old_, index, pagesOnly);
    assert multiset(Collect(r, pagesOnly)) + gone + multiset(Collect(rm.0, pagesOnly))
        == multiset(Collect(forest, pagesOnly)) + multiset(Collect(rm.0, pagesOnly));
    MultisetCancel(multiset(Collect(r, pagesOnly)) + gone, multiset(Collect(forest, pagesOnly)),
                   multiset(Collect(rm.0, pagesOnly)));
  }

  /** When the new array lists the same ids in the same order as the old
      one, so does the whole forest. */
  lemma {:induction false} ReplaceCollectSame(forest: seq<Node>, route: seq<nat>, arr: seq<Node>, pagesOnly: bool)
    requires ArrayAt(forest, route).Some?
    requires Collect(arr, pagesOnly) == Collect(ArrayAt(forest, route).value, pagesOnly)
    ensures Collect(ReplaceArray(forest, route, arr), pagesOnly) == Collect(forest, pagesOnly)
    decreases route
  {
    if route != [] {
      var i := route[0];
      var n := forest[i];
      var c := n.children.nodes;
      var r := ReplaceArray(forest, route, arr);
      ReplaceCollectSame(c, route[1..], arr, pagesOnly);
      CollectAround(forest, i, pagesOnly);
      CollectAround(r, i, pagesOnly);
      assert r[..i] == forest[..i] && r[i + 1..] == forest[i + 1..];
    }
  }

  /** The subtree a chain leads to is part of the forest: its ids are among
      the forest's. */
  lemma {:induction false} ChainInside(forest: seq<Node>, p: Path, pagesOnly: bool)
    requires Chain(forest, p)
    ensures multiset(CollectNode(Last(p).node, pagesOnly)) <= multiset(Collect(forest, pagesOnly))
    decreases |p|
  {
    var top := p[0];
    SubtreeInside(forest, top.index, pagesOnly);
    if |p| > 1 {
      var rest := p[1..];
      var kids := p[1].parent;
      assert top.node.children == Present(kids);
      assert Chain(kids, rest);
      ChainInside(kids, rest, pagesOnly);
      assert Last(rest) == Last(p);
      CollectOne(top.node, pagesOnly);
      assert multiset(Collect(kids, pagesOnly)) <= multiset(CollectNode(top.node, pagesOnly));
    }
  }

  /** The ids of the subtree at position `i` are among the forest's. */
  lemma SubtreeInside(f: seq<Node>, i: nat, pagesOnly: bool)
    requires i < |f|
    ensures multiset(CollectNode(f[i], pagesOnly)) <= multiset(Collect(f, pagesOnly))
  {
    assert f == f[..i] + [f[i]] + f[i + 1..];
    CollectConcat(f[..i] + [f[i]], f[i + 1..], pagesOnly);
    CollectConcat(f[..i], [f[i]], pagesOnly);
    CollectOne(f[i], pagesOnly);
  }

  // ----------------------------------------------------------------------
  // Breadcrumb (src/app.js:510-511)

  function Titles(p: Path): (r: seq<string>)
    ensures |r| == |p| && forall k | 0 <= k < |p| :: r[k] == p[k].node.title
  {
    seq(|p|, k requires 0 <= k < |p| => p[k].node.title)
  }

  /** `Array.prototype.join`. */
  function Join(parts: seq<string>, sep: string): string
  {
    if |parts| == 0 then ""
    else if |parts| == 1 then parts[0]
    else parts[0] + sep + Join(parts[1..], sep)
  }

  /** The titles along a path joined by " / ". */
  function Breadcrumb(p: Path): string
  {
    Join(Titles(p), " / ")
  }

  lemma {:induction false} JoinSnoc(parts: seq<string>, x: string, sep: string)
    requires parts != []
    ensures Join(parts + [x], sep) == Join(parts, sep) + sep + x
  {
    if |parts| == 1 {
      assert (parts + [x])[1..] == [x];
    } else {
      assert (parts + [x])[1..] == parts[1..] + [x];
      JoinSnoc(parts[1..], x, sep);
    }
  }

  /** A root's breadcrumb is its title; a deeper node's is its parent's
      breadcrumb, " / ", and its own title. */
  lemma BreadcrumbSteps(p: Path)
    requires p != []
    ensures |p| == 1 ==> Breadcrumb(p) == p[0].node.title
    ensures |p| > 1 ==> Breadcrumb(p) == Breadcrumb(p[..|p| - 1]) + " / " + p[|p| - 1].node.title
  {
    if |p| > 1 {
      assert Titles(p) == Titles(p[..|p| - 1]) + [p[|p| - 1].node.title];
      JoinSnoc(Titles(p[..|p| - 1]), p[|p| - 1].node.title, " / ");
    }
  }
}
