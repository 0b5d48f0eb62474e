/**
 * One destination's journal document and the structural edits of its tree
 * panel (src/app.js:73-96 and 434-502). The source keeps the document as an
 * object that the panel's handler changes in place: here it is a class whose
 * methods are the branches of `onTreeAction`, each working on the sibling
 * array that holds the selected node through a path-directed update.
 */
module Journal {
  import opened Wrappers
  import opened Tree

  /** A page's stored content; `html` is an opaque rich-text string. */
  datatype PageContent = PageContent(id: string, title: string, html: string, created: int, updated: int)

  /** What the source's outdent did: nothing, a move, or the insertion of
      `undefined` because the index it removes at was past the end; the hole
      then sits at position `at` of the array reached by `route`. */
  datatype OutdentOutcome = Unmoved | Moved | InsertedUndefined(route: seq<nat>, at: nat)

  /** JavaScript truthiness of a string that may be null: null and "" are false. */
  predicate Truthy(s: Option<string>)
  {
    s.Some? && s.value != ""
  }

  const SeedTitle := "Page 1"
  const NewPageTitle := "Nouvelle page"
  const NewSectionTitle := "Nouvelle section"

  /** The node `mkPage` or `mkSec` builds: a section comes with an empty
      children array, a page with none. */
  function NewNode(kind: Kind, id: string): Node
  {
    if kind == Page then Node(id, NewPageTitle, Page, Missing)
    else Node(id, NewSectionTitle, Section, Present([]))
  }

  /** The tree of a freshly seeded document: one page titled "Page 1". */
  function SeedTree(pid: string): seq<Node>
  {
    [Node(pid, SeedTitle, Page, Missing)]
  }

  /** The pages of a freshly seeded document: the seed page, empty. */
  function SeedPages(pid: string, created: int, updated: int): map<string, PageContent>
  {
    map[pid := PageContent(pid, SeedTitle, "", created, updated)]
  }

  /** The selection after a delete: `d.tree[0]?.id || null`. */
  function FirstRoot(tree: seq<Node>): Option<string>
  {
    if |tree| > 0 && tree[0].id != "" then Some(tree[0].id) else None
  }

  /** `arr` with the elements at `j` and `j + 1` exchanged. */
  function SwapAt(arr: seq<Node>, j: nat): seq<Node>
    requires j + 1 < |arr|
  {
    arr[..j] + [arr[j + 1], arr[j]] + arr[j + 2..]
  }

  /** `prev` with `x` appended to its children, the array created if absent. */
  function AppendChild(prev: Node, x: Node): Node
  {
    prev.(children := Present(Kids(prev) + [x]))
  }

  /** `arr` with its element at `i` moved to the end of the children of the
      previous sibling. */
  function Adopted(arr: seq<Node>, i: nat): seq<Node>
    requires 0 < i < |arr|
  {
    arr[..i - 1] + [AppendChild(arr[i - 1], arr[i])] + arr[i + 1..]
  }

  // ----------------------------------------------------------------------
  // Consistency of a document

  /** Every page node has a `pages` entry. */
  ghost predicate PagesCover(tree: seq<Node>, pages: map<string, PageContent>)
  {
    forall x | x in PageIds(tree) :: x in pages
  }

  /** Every `pages` entry is filed under its own id. */
  ghost predicate KeysMatch(pages: map<string, PageContent>)
  {
    forall k | k in pages :: pages[k].id == k
  }

  /** What the edits keep, given fresh ids for new nodes: ids unique across
      the tree, a `pages` entry for every page node, entries under their own
      id, and a selection that names a node of the tree. */
  ghost predicate Consistent(tree: seq<Node>, pages: map<string, PageContent>, selectedId: Option<string>)
  {
    && UniqueIds(tree)
    && PagesCover(tree, pages)
    && KeysMatch(pages)
    && (selectedId.Some? ==> selectedId.value in Ids(tree))
  }

  /** A seeded document is consistent, with its page selected: the page is
      the only id and the only page id, and it has its entry. */
  lemma SeedConsistent(pid: string, created: int, updated: int)
    ensures Ids(SeedTree(pid)) == [pid] && PageIds(SeedTree(pid)) == [pid]
    ensures Consistent(SeedTree(pid), SeedPages(pid, created, updated), Some(pid))
  {
    CollectOne(SeedTree(pid)[0], false);
    CollectOne(SeedTree(pid)[0], true);
  }

  /** An edit that keeps the multisets of ids and of page ids keeps the
      document consistent. */
  lemma ReshapeKeepsConsistent(t: seq<Node>, t': seq<Node>, pages: map<string, PageContent>, sel: Option<string>)
    requires multiset(Ids(t')) == multiset(Ids(t)) && multiset(PageIds(t')) == multiset(PageIds(t))
    ensures Consistent(t, pages, sel) ==> Consistent(t', pages, sel)
  {
    if Consistent(t, pages, sel) {
      assert forall x :: x in Ids(t') <==> x in multiset(Ids(t'));
      assert forall x :: x in PageIds(t') <==> x in multiset(PageIds(t'));
    }
  }

  /** Adding a node under a fresh id, with a `pages` entry when it is a page,
      and selecting it keeps the document consistent. */
  lemma AddKeepsConsistent(t: seq<Node>, t': seq<Node>, pages: map<string, PageContent>, sel: Option<string>,
                           kind: Kind, id: string, created: int, updated: int)
    requires multiset(Ids(t')) == multiset(Ids(t)) + multiset{id}
    requires multiset(PageIds(t')) == multiset(PageIds(t)) + (if kind == Page then multiset{id} else multiset{})
    ensures Consistent(t, pages, sel) && id !in Ids(t) ==>
      Consistent(t', if kind == Page then pages[id := PageContent(id, NewPageTitle, "", created, updated)] else pages,
                       Some(id))
  {
    if Consistent(t, pages, sel) && id !in Ids(t) {
      assert id in multiset(Ids(t'));
      forall x | x in multiset(Ids(t'))
        ensures multiset(Ids(t'))[x] == 1
      {
        if x != id {
          assert x in multiset(Ids(t));
        }
      }
      forall x | x in PageIds(t')
        ensures x in PageIds(t) || (kind == Page && x == id)
      {
        assert x in multiset(PageIds(t'));
      }
    }
  }

  /** Taking ids out of a tree whose ids are unique leaves them unique. */
  lemma ShrinkKeepsUnique(t: seq<Node>, t': seq<Node>, gone: multiset<string>)
    requires UniqueIds(t) && multiset(Ids(t')) + gone == multiset(Ids(t))
    ensures UniqueIds(t')
  {
    forall x | x in multiset(Ids(t'))
      ensures multiset(Ids(t'))[x] == 1
    {
      assert (multiset(Ids(t')) + gone)[x] == multiset(Ids(t))[x];
    }
  }

  /** After a subtree is removed, its root's id is no longer a page id of the
      tree, so dropping that entry keeps every page node covered. */
  lemma DeleteKeepsCover(t: seq<Node>, t': seq<Node>, pages: map<string, PageContent>, removed: Node)
    requires UniqueIds(t) && PagesCover(t, pages)
    requires multiset(Ids(t')) + multiset(CollectNode(removed, false)) == multiset(Ids(t))
    requires multiset(PageIds(t')) + multiset(CollectNode(removed, true)) == multiset(PageIds(t))
    ensures PagesCover(t', if removed.kind == Page then pages - {removed.id} else pages)
  {
    PageIdsAreIds(t');
    forall x | x in PageIds(t')
      ensures x in pages && (removed.kind == Page ==> x != removed.id)
    {
      assert x in multiset(PageIds(t'));
      assert (multiset(PageIds(t')) + multiset(CollectNode(removed, true)))[x] == multiset(PageIds(t))[x];
      assert x in multiset(PageIds(t));
      assert x in multiset(Ids(t'));
      RemovedRootGone(t, t', removed, x);
    }
  }

  /** An id that is still in the tree after a removal is not the removed
      root's, since ids were unique. */
  lemma RemovedRootGone(t: seq<Node>, t': seq<Node>, removed: Node, x: string)
    requires UniqueIds(t)
    requires multiset(Ids(t')) + multiset(CollectNode(removed, false)) == multiset(Ids(t))
    requires x in multiset(Ids(t'))
    ensures x != removed.id
  {
    assert CollectNode(removed, false)[0] == removed.id;
    assert (multiset(Ids(t')) + multiset(CollectNode(removed, false)))[x] == multiset(Ids(t))[x];
  }

  /** Removing a subtree, dropping the `pages` entry of its root when that is
      a page, and selecting the first root keeps the document consistent:
      the entries of pages deeper in the subtree stay, unreferenced. */
  lemma DeleteKeepsConsistent(t: seq<Node>, t': seq<Node>, pages: map<string, PageContent>, sel: Option<string>, removed: Node)
    requires multiset(Ids(t')) + multiset(CollectNode(removed, false)) == multiset(Ids(t))
    requires multiset(PageIds(t')) + multiset(CollectNode(removed, true)) == multiset(PageIds(t))
    ensures Consistent(t, pages, sel) ==>
      Consistent(t', if removed.kind == Page then pages - {removed.id} else pages, FirstRoot(t'))
  {
    if Consistent(t, pages, sel) {
      ShrinkKeepsUnique(t, t', multiset(CollectNode(removed, false)));
      DeleteKeepsCover(t, t', pages, removed);
      if |t'| > 0 {
        FirstRootIsId(t');
      }
    }
  }

  // ----------------------------------------------------------------------
  // The splice sequences of the handler, and what they amount to

  /** `up`: `arr.splice(i, 1)` then `arr.splice(i - 1, 0, it)` swaps the
      node with its previous sibling. */
  lemma UpIsSwap(arr: seq<Node>, i: nat)
    requires 0 < i < |arr|
    ensures SpliceInsert(RemoveAt(arr, i).0, i - 1, arr[i]) == SwapAt(arr, i - 1)
  {
    var rest := RemoveAt(arr, i).0;
    assert rest[..i - 1] == arr[..i - 1];
    assert rest[i - 1..] == [arr[i - 1]] + arr[i + 1..];
  }

  /** `down`: `arr.splice(i, 1)` then `arr.splice(i + 1, 0, it)` swaps the
      node with its next sibling. */
  lemma DownIsSwap(arr: seq<Node>, i: nat)
    requires i + 1 < |arr|
    ensures SpliceInsert(RemoveAt(arr, i).0, i + 1, arr[i]) == SwapAt(arr, i)
  {
    var rest := RemoveAt(arr, i).0;
    assert rest[..i + 1] == arr[..i] + [arr[i + 1]];
    assert rest[i + 1..] == arr[i + 2..];
  }

  /** `indent`: giving the previous sibling a children array if it has none,
      removing the node and pushing it there is `Adopted`. */
  lemma IndentIsAdoption(arr: seq<Node>, i: nat)
    requires 0 < i < |arr|
    ensures RemoveAt(arr, i).0[i - 1 := AppendChild(arr[i - 1], arr[i])] == Adopted(arr, i)
  {
  }

  /** A swap keeps the ids of the array, reordered. */
  lemma SwapKeepsIds(arr: seq<Node>, j: nat, pagesOnly: bool)
    requires j + 1 < |arr|
    ensures multiset(Collect(SwapAt(arr, j), pagesOnly)) == multiset(Collect(arr, pagesOnly))
  {
    var a, x, y, b := arr[..j], arr[j], arr[j + 1], arr[j + 2..];
    assert arr == a + [x] + [y] + b;
    assert SwapAt(arr, j) == a + [y] + [x] + b;
    CollectConcat(a + [x] + [y], b, pagesOnly);
    CollectConcat(a + [x], [y], pagesOnly);
    CollectConcat(a, [x], pagesOnly);
    CollectConcat(a + [y] + [x], b, pagesOnly);
    CollectConcat(a + [y], [x], pagesOnly);
    CollectConcat(a, [y], pagesOnly);
  }

  /** An adoption does not even reorder: the pre-order of ids, that is the
      display order of the tree, stays the same. */
  lemma {:induction false} AdoptionKeepsOrder(arr: seq<Node>, i: nat, pagesOnly: bool)
    requires 0 < i < |arr|
    ensures Collect(Adopted(arr, i), pagesOnly) == Collect(arr, pagesOnly)
  {
    var a, prev, x, b := arr[..i - 1], arr[i - 1], arr[i], arr[i + 1..];
    var prev' := AppendChild(prev, x);
    var A, B, X := Collect(a, pagesOnly), Collect(b, pagesOnly), Collect([x], pagesOnly);
    var P := Own(prev, pagesOnly) + Collect(Kids(prev), pagesOnly);
    assert arr == (a + [prev]) + ([x] + b);
    assert Adopted(arr, i) == a + ([prev'] + b);
    CollectOne(prev, pagesOnly);
    CollectOne(prev', pagesOnly);
    CollectConcat(Kids(prev), [x], pagesOnly);
    assert Collect([prev'], pagesOnly) == P + X;
    CollectConcat(a, [prev'] + b, pagesOnly);
    CollectConcat([prev'], b, pagesOnly);
    assert Collect(Adopted(arr, i), pagesOnly) == A + ((P + X) + B);
    CollectConcat(a + [prev], [x] + b, pagesOnly);
    CollectConcat(a, [prev], pagesOnly);
    CollectConcat([x], b, pagesOnly);
    assert Collect(arr, pagesOnly) == (A + P) + (X + B);
    Regroup(A, P, X, B);
  }

  /** Regrouping four concatenated sequences, kept apart from the facts
      about `Collect` so that the solver does not search through them. */
  lemma Regroup(a: seq<string>, p: seq<string>, x: seq<string>, b: seq<string>)
    ensures a + ((p + x) + b) == (a + p) + (x + b)
  {
  }

  /** Changing a node's title keeps the ids of its array. */
  lemma RetitleKeepsIds(arr: seq<Node>, i: nat, t: string, pagesOnly: bool)
    requires i < |arr|
    ensures Collect(arr[i := arr[i].(title := t)], pagesOnly) == Collect(arr, pagesOnly)
  {
    CollectAround(arr, i, pagesOnly);
    CollectAround(arr[i := arr[i].(title := t)], i, pagesOnly);
    assert arr[i := arr[i].(title := t)][..i] == arr[..i];
    assert arr[i := arr[i].(title := t)][i + 1..] == arr[i + 1..];
  }

  // ----------------------------------------------------------------------
  // Edits of the selected node's sibling array

  /** The tree with the sibling array that holds the last node of `p`
      replaced by `arr`: the handler's in-place splice of that array, as a
      value. */
  function AtSelection(t: seq<Node>, p: Path, arr: seq<Node>): (r: seq<Node>)
    requires Chain(t, p)
    ensures ArrayAt(r, Route(p)) == Some(arr)
  {
    RouteReaches(t, p);
    ReplaceArray(t, Route(p), arr)
  }

  /** The ids of a node made by `mkPage` or `mkSec`: its own only. */
  lemma NewNodeIds(kind: Kind, id: string)
    ensures CollectNode(NewNode(kind, id), false) == [id]
    ensures CollectNode(NewNode(kind, id), true) == if kind == Page then [id] else []
  {
  }

  /** Appending a root adds exactly the ids of its subtree. */
  lemma AppendIds(t: seq<Node>, x: Node, pagesOnly: bool)
    ensures multiset(Collect(t + [x], pagesOnly)) == multiset(Collect(t, pagesOnly)) + multiset(CollectNode(x, pagesOnly))
  {
    CollectConcat(t, [x], pagesOnly);
    CollectOne(x, pagesOnly);
  }

  /** Inserting right after the selected node adds exactly the ids of the
      inserted subtree. */
  lemma InsertAtSelection(t: seq<Node>, p: Path, x: Node, pagesOnly: bool)
    requires Chain(t, p)
    ensures multiset(Collect(AtSelection(t, p, InsertAfter(Last(p).parent, Last(p).index, x)), pagesOnly))
         == multiset(Collect(t, pagesOnly)) + multiset(CollectNode(x, pagesOnly))
  {
    RouteReaches(t, p);
    ReplaceInsert(t, Route(p), Last(p).index, x, pagesOnly);
  }

  /** Removing the selected node takes exactly the ids of its subtree out of
      the tree. */
  lemma RemoveAtSelection(t: seq<Node>, p: Path, pagesOnly: bool)
    requires Chain(t, p)
    ensures multiset(Collect(AtSelection(t, p, RemoveAt(Last(p).parent, Last(p).index).0), pagesOnly))
              + multiset(CollectNode(Last(p).node, pagesOnly))
         == multiset(Collect(t, pagesOnly))
  {
    RouteReaches(t, p);
    ReplaceRemove(t, Route(p), Last(p).index, pagesOnly);
  }

  /** Swapping two neighbours in the selected node's array keeps the ids of
      the tree. */
  lemma SwapAtSelection(t: seq<Node>, p: Path, j: nat, pagesOnly: bool)
    requires Chain(t, p) && j + 1 < |Last(p).parent|
    ensures multiset(Collect(AtSelection(t, p, SwapAt(Last(p).parent, j)), pagesOnly)) == multiset(Collect(t, pagesOnly))
  {
    RouteReaches(t, p);
    var arr := SwapAt(Last(p).parent, j);
    ReplaceCollect(t, Route(p), arr, pagesOnly);
    SwapKeepsIds(Last(p).parent, j, pagesOnly);
    MultisetCancel(multiset(Collect(AtSelection(t, p, arr), pagesOnly)), multiset(Collect(t, pagesOnly)),
                   multiset(Collect(arr, pagesOnly)));
  }

  /** A new array for the selected node's siblings that lists the same ids
      in the same order leaves the tree's ids in the same order. */
  lemma SameAtSelection(t: seq<Node>, p: Path, arr: seq<Node>, pagesOnly: bool)
    requires Chain(t, p) && Collect(arr, pagesOnly) == Collect(Last(p).parent, pagesOnly)
    ensures Collect(AtSelection(t, p, arr), pagesOnly) == Collect(t, pagesOnly)
  {
    RouteReaches(t, p);
    ReplaceCollectSame(t, Route(p), arr, pagesOnly);
  }

  // ----------------------------------------------------------------------
  // Outdent as the source writes it (src/app.js:492-500)

  /** The route to the array of the frame at depth `k` of a chain. */
  lemma ChainRouteAt(forest: seq<Node>, p: Path, k: nat)
    requires Chain(forest, p) && k < |p|
    ensures ArrayAt(forest, Route(p)[..k]) == Some(p[k].parent)
  {
    ChainPrefix(forest, p, k + 1);
    RouteReaches(forest, p[..k + 1]);
  }

  /** The source's outdent on a path of depth at least two whose parent index
      `j` is in range in the selected node's sibling array: the element at
      position `j` of that array (not necessarily the selected node) is
      removed there, then inserted right after the grandparent in the
      grandparent's array, or at the head of the root array at depth two. */
  function OutdentAsWritten(forest: seq<Node>, p: Path): seq<Node>
    requires Chain(forest, p) && |p| > 1 && p[|p| - 2].index < |Last(p).parent|
  {
    var j := p[|p| - 2].index;
    var sibs := Last(p).parent;
    RouteReaches(forest, p);
    var mid := ReplaceArray(forest, Route(p), RemoveAt(sibs, j).0);
    if |p| == 2 then InsertAfter(mid, -1, sibs[j])
    else
      var gRoute := Route(p)[..|p| - 3];
      ChainRouteAt(forest, p, |p| - 3);
      ReplaceKeepsAbove(forest, Route(p), RemoveAt(sibs, j).0, |p| - 3);
      ReplaceArray(mid, gRoute, InsertAfter(ArrayAt(mid, gRoute).value, p[|p| - 3].index, sibs[j]))
  }

  /** Where the source's outdent puts `undefined` when it removed nothing:
      right after the grandparent in the grandparent's array, or at the head
      of the root array at depth two. The position is a valid insertion
      point of that array. */
  function HoleAt(forest: seq<Node>, p: Path): (r: OutdentOutcome)
    requires Chain(forest, p) && |p| > 1
    ensures r.InsertedUndefined?
    ensures ArrayAt(forest, r.route).Some? && r.at <= |ArrayAt(forest, r.route).value|
    ensures |p| == 2 ==> r.route == [] && r.at == 0
    ensures |p| > 2 ==> ArrayAt(forest, r.route) == Some(p[|p| - 3].parent) && r.at == p[|p| - 3].index + 1
  {
    if |p| == 2 then InsertedUndefined([], 0)
    else
      ChainRouteAt(forest, p, |p| - 3);
      InsertedUndefined(Route(p)[..|p| - 3], p[|p| - 3].index + 1)
  }

  /** The source's outdent keeps the multisets of ids and of page ids, and
      the moved element lands at the head of the root array (depth two) or
      right after the grandparent in the grandparent's array. */
  lemma {:induction false} OutdentAsWrittenSpec(forest: seq<Node>, p: Path)
    requires Chain(forest, p) && |p| > 1 && p[|p| - 2].index < |Last(p).parent|
    ensures var r := OutdentAsWritten(forest, p);
      && multiset(Ids(r)) == multiset(Ids(forest))
      && multiset(PageIds(r)) == multiset(PageIds(forest))
    ensures |p| == 2 ==> OutdentAsWritten(forest, p)[0] == Last(p).parent[p[0].index]
    ensures |p| > 2 ==>
      var g := p[|p| - 3];
      var arr := ArrayAt(OutdentAsWritten(forest, p), Route(p)[..|p| - 3]);
      arr.Some? && g.index + 1 < |arr.value| && arr.value[g.index + 1] == Last(p).parent[p[|p| - 2].index]
  {
    OutdentCollect(forest, p, false);
    OutdentCollect(forest, p, true);
    if |p| > 2 {
      OutdentLands(forest, p);
    }
  }

  /** Below depth two the moved element lands right after the grandparent. */
  lemma OutdentLands(forest: seq<Node>, p: Path)
    requires Chain(forest, p) && |p| > 2 && p[|p| - 2].index < |Last(p).parent|
    ensures var arr := ArrayAt(OutdentAsWritten(forest, p), Route(p)[..|p| - 3]);
      arr.Some? && p[|p| - 3].index + 1 < |arr.value| && arr.value[p[|p| - 3].index + 1] == Last(p).parent[p[|p| - 2].index]
  {
    var j := p[|p| - 2].index;
    var sibs := Last(p).parent;
    var g := p[|p| - 3];
    RouteReaches(forest, p);
    var mid := ReplaceArray(forest, Route(p), RemoveAt(sibs, j).0);
    var gRoute := Route(p)[..|p| - 3];
    ChainRouteAt(forest, p, |p| - 3);
    ReplaceKeepsAbove(forest, Route(p), RemoveAt(sibs, j).0, |p| - 3);
    var garr := ArrayAt(mid, gRoute).value;
    assert g.index < |garr|;
    var ins := InsertAfter(garr, g.index, sibs[j]);
    assert ins[g.index + 1] == sibs[j];
    assert OutdentAsWritten(forest, p) == ReplaceArray(mid, gRoute, ins);
  }

  lemma OutdentCollect(forest: seq<Node>, p: Path, pagesOnly: bool)
    requires Chain(forest, p) && |p| > 1 && p[|p| - 2].index < |Last(p).parent|
    ensures multiset(Collect(OutdentAsWritten(forest, p), pagesOnly)) == multiset(Collect(forest, pagesOnly))
  {
    var j := p[|p| - 2].index;
    var sibs := Last(p).parent;
    RouteReaches(forest, p);
    var rest := RemoveAt(sibs, j).0;
    var mid := ReplaceArray(forest, Route(p), rest);
    ReplaceRemove(forest, Route(p), j, pagesOnly);
    if |p| == 2 {
      CollectInsert(mid, 0, sibs[j], pagesOnly);
    } else {
      ChainRouteAt(forest, p, |p| - 3);
      ReplaceKeepsAbove(forest, Route(p), rest, |p| - 3);
      ReplaceInsert(mid, Route(p)[..|p| - 3], p[|p| - 3].index, sibs[j], pagesOnly);
    }
  }

  // ----------------------------------------------------------------------
  // The document

  class JournalDoc {
    var tree: seq<Node>
    var pages: map<string, PageContent>
    var selectedId: Option<string>

    ghost predicate Valid()
      reads this
    {
      Consistent(tree, pages, selectedId)
    }

    /** The document `ensureDoc` creates for a destination seen for the
        first time (src/app.js:88-94): one page "Page 1" with empty content,
        selected. The two clock readings are parameters. */
    constructor Seed(pid: string, created: int, updated: int)
      ensures tree == SeedTree(pid) && pages == SeedPages(pid, created, updated) && selectedId == Some(pid)
      ensures Valid()
    {
      tree := [Node(pid, SeedTitle, Page, Missing)];
      pages := map[pid := PageContent(pid, SeedTitle, "", created, updated)];
      selectedId := Some(pid);
      new;
      SeedConsistent(pid, created, updated);
    }

    /** A document as read back from storage, whatever its shape. */
    constructor Restore(tree: seq<Node>, pages: map<string, PageContent>, selectedId: Option<string>)
      ensures this.tree == tree && this.pages == pages && this.selectedId == selectedId
    {
      this.tree, this.pages, this.selectedId := tree, pages, selectedId;
    }

    /** `d.selectedId ? findNodePath(d.tree, d.selectedId) : null`
        (src/app.js:439): the path to the selected node, or none when
        nothing is selected or the selected id is no longer in the tree. */
    function Selected(): (r: Option<Path>)
      reads this
      ensures r.None? <==> !Truthy(selectedId) || selectedId.value !in Ids(tree)
      ensures r.Some? ==> Chain(tree, r.value) && FirstMatch(r.value, selectedId.value)
    {
      if Truthy(selectedId) then
        FindNodePathSpec(tree, selectedId.value);
        FindNodePath(tree, selectedId.value)
      else None
    }

    /** `add-page` and `add-sec` (src/app.js:441-453): the new node goes right
        after the selected node in its sibling array, or at the end of the
        root array when nothing resolves; a page gets a `pages` entry with
        empty content; the new node becomes the selection. The generated id
        and the clock readings are parameters. */
    method Add(kind: Kind, newId: string, created: int, updated: int)
      modifies this
      ensures tree == match old(Selected())
        case Some(p) => AtSelection(old(tree), p, InsertAfter(Last(p).parent, Last(p).index, NewNode(kind, newId)))
        case None => old(tree) + [NewNode(kind, newId)]
      ensures pages == if kind == Page then old(pages)[newId := PageContent(newId, NewPageTitle, "", created, updated)]
                       else old(pages)
      ensures selectedId == Some(newId)
      ensures multiset(Ids(tree)) == multiset(Ids(old(tree))) + multiset{newId}
      ensures old(Valid()) && newId !in old(Ids(tree)) ==> Valid()
    {
      var sel := Selected();
      var node := NewNode(kind, newId);
      var t := tree;
      var t';
      if sel.Some? {
        var last := Last(sel.value);
        t' := AtSelection(t, sel.value, InsertAfter(last.parent, last.index, node));
      } else {
        t' := t + [node];
      }
      var pages' := if kind == Page then pages[newId := PageContent(newId, NewPageTitle, "", created, updated)] else pages;
      assert multiset(Ids(t')) == multiset(Ids(t)) + multiset{newId}
          && multiset(PageIds(t')) == multiset(PageIds(t)) + (if kind == Page then multiset{newId} else multiset{}) by {
        NewNodeIds(kind, newId);
        if sel.Some? {
          InsertAtSelection(t, sel.value, node, false);
          InsertAtSelection(t, sel.value, node, true);
        } else {
          AppendIds(t, node, false);
          AppendIds(t, node, true);
        }
      }
      AddKeepsConsistent(t, t', pages, selectedId, kind, newId, created, updated);
      tree, pages, selectedId := t', pages', Some(newId);
    }

    /** `rename` (src/app.js:458-463): `answer` is what the prompt returned
        (None when cancelled). An empty or cancelled answer changes nothing;
        otherwise the selected node takes the new title and, when it is a
        page with an entry, so does its `pages` entry. */
    method Rename(answer: Option<string>)
      modifies this
      ensures !Truthy(answer) || old(Selected()).None? ==> tree == old(tree) && pages == old(pages)
      ensures Truthy(answer) && old(Selected()).Some? ==>
        var p := old(Selected()).value;
        var last := Last(p);
        && tree == AtSelection(old(tree), p, last.parent[last.index := last.node.(title := answer.value)])
        && pages == (if last.node.kind == Page && last.node.id in old(pages)
                     then old(pages)[last.node.id := old(pages)[last.node.id].(title := answer.value)]
                     else old(pages))
      ensures selectedId == old(selectedId)
      ensures Ids(tree) == Ids(old(tree)) && PageIds(tree) == PageIds(old(tree))
      ensures old(Valid()) ==> Valid()
    {
      var sel := Selected();
      if sel.Some? && Truthy(answer) {
        var p := sel.value;
        var last := Last(p);
        var title := answer.value;
        var arr := last.parent[last.index := last.node.(title := title)];
        RetitleKeepsIds(last.parent, last.index, title, false);
        RetitleKeepsIds(last.parent, last.index, title, true);
        SameAtSelection(tree, p, arr, false);
        SameAtSelection(tree, p, arr, true);
        var pages' := if last.node.kind == Page && last.node.id in pages
                      then pages[last.node.id := pages[last.node.id].(title := title)]
                      else pages;
        tree, pages := AtSelection(tree, p, arr), pages';
      }
    }

    /** `del` (src/app.js:466-471): `confirmed` is what the confirmation
        returned. The selected subtree leaves its sibling array; the `pages`
        entry goes only when the removed node is itself a page, so pages
        deeper inside a removed section keep theirs; the first root becomes
        the selection. */
    method Delete(confirmed: bool)
      modifies this
      ensures !confirmed || old(Selected()).None? ==>
                tree == old(tree) && pages == old(pages) && selectedId == old(selectedId)
      ensures confirmed && old(Selected()).Some? ==>
        var p := old(Selected()).value;
        var last := Last(p);
        && tree == AtSelection(old(tree), p, last.parent[..last.index] + last.parent[last.index + 1..])
        && multiset(Ids(tree)) + multiset(CollectNode(last.node, false)) == multiset(Ids(old(tree)))
        && pages == (if last.node.kind == Page then old(pages) - {last.node.id} else old(pages))
        && selectedId == FirstRoot(tree)
      ensures old(Valid()) ==> Valid()
    {
      var sel := Selected();
      if sel.Some? && confirmed {
        var p := sel.value;
        var last := Last(p);
        var (rest, removed) := RemoveAt(last.parent, last.index);
        var t' := AtSelection(tree, p, rest);
        var pages' := if removed.value.kind == Page then pages - {removed.value.id} else pages;
        assert multiset(Ids(t')) + multiset(CollectNode(last.node, false)) == multiset(Ids(tree))
            && multiset(PageIds(t')) + multiset(CollectNode(last.node, true)) == multiset(PageIds(tree)) by {
          RemoveAtSelection(tree, p, false);
          RemoveAtSelection(tree, p, true);
        }
        DeleteKeepsConsistent(tree, t', pages, selectedId, last.node);
        tree, pages, selectedId := t', pages', FirstRoot(t');
      }
    }

    /** `up` (src/app.js:474-477): the selected node changes place with its
        previous sibling; nothing happens at index 0. */
    method MoveUp()
      modifies this
      ensures var sel := old(Selected());
        if sel.Some? && Last(sel.value).index > 0
        then tree == AtSelection(old(tree), sel.value, SwapAt(Last(sel.value).parent, Last(sel.value).index - 1))
        else tree == old(tree)
      ensures pages == old(pages) && selectedId == old(selectedId)
      ensures multiset(Ids(tree)) == multiset(Ids(old(tree)))
      ensures old(Valid()) ==> Valid()
    {
      var sel := Selected();
      if sel.Some? && Last(sel.value).index > 0 {
        var p := sel.value;
        var last := Last(p);
        var i := last.index;
        var (rest, it) := RemoveAt(last.parent, i);
        var arr := SpliceInsert(rest, i - 1, it.value);
        UpIsSwap(last.parent, i);
        assert multiset(Ids(AtSelection(tree, p, arr))) == multiset(Ids(tree))
            && multiset(PageIds(AtSelection(tree, p, arr))) == multiset(PageIds(tree)) by {
          SwapAtSelection(tree, p, i - 1, false);
          SwapAtSelection(tree, p, i - 1, true);
        }
        ReshapeKeepsConsistent(tree, AtSelection(tree, p, arr), pages, selectedId);
        tree := AtSelection(tree, p, arr);
      }
    }

    /** `down` (src/app.js:479-482): the selected node changes place with its
        next sibling; nothing happens at the last index. */
    method MoveDown()
      modifies this
      ensures var sel := old(Selected());
        if sel.Some? && Last(sel.value).index < |Last(sel.value).parent| - 1
        then tree == AtSelection(old(tree), sel.value, SwapAt(Last(sel.value).parent, Last(sel.value).index))
        else tree == old(tree)
      ensures pages == old(pages) && selectedId == old(selectedId)
      ensures multiset(Ids(tree)) == multiset(Ids(old(tree)))
      ensures old(Valid()) ==> Valid()
    {
      var sel := Selected();
      if sel.Some? && Last(sel.value).index < |Last(sel.value).parent| - 1 {
        var p := sel.value;
        var last := Last(p);
        var i := last.index;
        var (rest, it) := RemoveAt(last.parent, i);
        var arr := SpliceInsert(rest, i + 1, it.value);
        DownIsSwap(last.parent, i);
        assert multiset(Ids(AtSelection(tree, p, arr))) == multiset(Ids(tree))
            && multiset(PageIds(AtSelection(tree, p, arr))) == multiset(PageIds(tree)) by {
          SwapAtSelection(tree, p, i, false);
          SwapAtSelection(tree, p, i, true);
        }
        ReshapeKeepsConsistent(tree, AtSelection(tree, p, arr), pages, selectedId);
        tree := AtSelection(tree, p, arr);
      }
    }

    /** `indent` (src/app.js:484-490): the selected node becomes the last
        child of its previous sibling, which gets a children array if it has
        none (a page included); nothing happens at index 0. */
    method Indent()
      modifies this
      ensures var sel := old(Selected());
        if sel.Some? && Last(sel.value).index > 0
        then tree == AtSelection(old(tree), sel.value, Adopted(Last(sel.value).parent, Last(sel.value).index))
        else tree == old(tree)
      ensures pages == old(pages) && selectedId == old(selectedId)
      ensures Ids(tree) == Ids(old(tree)) && PageIds(tree) == PageIds(old(tree))
      ensures old(Valid()) ==> Valid()
    {
      var sel := Selected();
      if sel.Some? && Last(sel.value).index > 0 {
        var p := sel.value;
        var last := Last(p);
        var i := last.index;
        var prev := last.parent[i - 1];
        var kids := if prev.children.Present? then prev.children.nodes else [];
        var (rest, it) := RemoveAt(last.parent, i);
        var arr := rest[i - 1 := prev.(children := Present(kids + [it.value]))];
        IndentIsAdoption(last.parent, i);
        AdoptionKeepsOrder(last.parent, i, false);
        AdoptionKeepsOrder(last.parent, i, true);
        SameAtSelection(tree, p, arr, false);
        SameAtSelection(tree, p, arr, true);
        tree := AtSelection(tree, p, arr);
      }
    }

    /** `outdent` (src/app.js:492-500) as written. At depth one nothing
        happens. Deeper, with `j` the parent's own index: when `j` is in range
        in the selected node's sibling array, the element there moves as
        `OutdentAsWritten` says; otherwise nothing is removed and the source
        inserts `undefined`, which the outcome reports. */
    method Outdent() returns (outcome: OutdentOutcome)
      modifies this
      ensures var sel := old(Selected());
        if sel.None? || |sel.value| == 1 then outcome == Unmoved && tree == old(tree)
        else if sel.value[|sel.value| - 2].index < |Last(sel.value).parent|
        then outcome == Moved && tree == OutdentAsWritten(old(tree), sel.value)
        else outcome == HoleAt(old(tree), sel.value) && tree == old(tree)
      ensures pages == old(pages) && selectedId == old(selectedId)
      ensures multiset(Ids(tree)) == multiset(Ids(old(tree)))
      ensures old(Valid()) ==> Valid()
    {
      var sel := Selected();
      outcome := Unmoved;
      if sel.Some? && |sel.value| > 1 {
        var p := sel.value;
        var up := p[|p| - 2];
        var (rest, it) := RemoveAt(Last(p).parent, up.index);
        if it.None? {
          outcome := HoleAt(tree, p);
        } else {
          // The splice out of the selected node's array and the splice into
          // the grandparent's (or the root) array, as one path-directed update.
          var t := tree;
          var t' := OutdentAsWritten(t, p);
          assert multiset(Ids(t')) == multiset(Ids(t)) && (Consistent(t, pages, selectedId) ==> Consistent(t', pages, selectedId)) by {
            OutdentAsWrittenSpec(t, p);
            ReshapeKeepsConsistent(t, t', pages, selectedId);
          }
          tree := t';
          outcome := Moved;
        }
      }
    }
  }
}
