/**
 * The journal overlay's session state (src/app.js:350-368 and 504-536):
 * the index of documents by destination, the open destination and page, the
 * editor's content and breadcrumb, and the pending autosave timer. The
 * source keeps these in module-level variables that its handlers assign;
 * here they are the fields of one object. Clock readings, generated ids and
 * what the user typed are parameters; the timer is the instant at which the
 * pending save is due.
 */
module Overlay {
  import opened Wrappers
  import opened Tree
  import opened Journal

  /** The autosave delay, in milliseconds. */
  const SaveDelay := 300

  /** What the editor shows when the selection is not a page. */
  const Placeholder := "<div class=\"opacity-60\">Sélectionne une page pour écrire…</div>"

  /** What `selectNode` puts on screen: the page being edited, the editor's
      content and the breadcrumb. */
  datatype View = View(pageId: Option<string>, html: string, path: string)

  /** The view of a selection (src/app.js:509-522): the breadcrumb of the
      selected node, or "" when it does not resolve; when the node is a page,
      that page and its stored html ("" without an entry); otherwise no page
      and the placeholder. */
  function ViewOf(tree: seq<Node>, pages: map<string, PageContent>, nodeId: Option<string>): (r: View)
    ensures r.pageId.Some? ==> nodeId == r.pageId && r.pageId.value in PageIds(tree)
    ensures r.pageId.Some? ==> r.html == if r.pageId.value in pages then pages[r.pageId.value].html else ""
    ensures r.pageId.None? ==> r.html == Placeholder
    ensures nodeId.None? || nodeId.value !in Ids(tree) ==> r == View(None, Placeholder, "")
    ensures nodeId.Some? && nodeId.value in Ids(tree) ==>
      FindNodePath(tree, nodeId.value).Some? && FindNodePath(tree, nodeId.value).value != [] &&
      var p := FindNodePath(tree, nodeId.value).value;
      && r.path == Breadcrumb(p)
      && r.pageId == (if Last(p).node.kind == Page then nodeId else None)
  {
    if nodeId.Some? && nodeId.value in Ids(tree) then
      FindNodePathSpec(tree, nodeId.value);
      PathView(tree, pages, FindNodePath(tree, nodeId.value).value)
    else
      if nodeId.Some? then FindNodePathSpec(tree, nodeId.value); View(None, Placeholder, "")
      else View(None, Placeholder, "")
  }

  /** The view of the node a path from the root leads to. */
  function PathView(tree: seq<Node>, pages: map<string, PageContent>, p: Path): (r: View)
    requires Chain(tree, p)
    ensures r.path == Breadcrumb(p)
    ensures r.pageId == if Last(p).node.kind == Page then Some(Last(p).node.id) else None
    ensures r.pageId.Some? ==> r.pageId.value in PageIds(tree)
    ensures r.pageId.Some? ==> r.html == if r.pageId.value in pages then pages[r.pageId.value].html else ""
    ensures r.pageId.None? ==> r.html == Placeholder
  {
    var node := Last(p).node;
    if node.kind == Page then
      var id := node.id;
      ChainInside(tree, p, true);
      assert CollectNode(node, true)[0] == id;
      assert id in multiset(CollectNode(node, true));
      assert id in multiset(PageIds(tree));
      View(Some(id), if id in pages then pages[id].html else "", Breadcrumb(p))
    else View(None, Placeholder, Breadcrumb(p))
  }

  /** In a consistent document a selected page always has an entry, so the
      editor shows that entry's stored html. */
  lemma ConsistentViewShowsEntry(tree: seq<Node>, pages: map<string, PageContent>, sel: Option<string>, nodeId: Option<string>)
    requires Consistent(tree, pages, sel)
    ensures var v := ViewOf(tree, pages, nodeId);
      v.pageId.Some? ==> v.pageId.value in pages && v.html == pages[v.pageId.value].html
  {
  }

  class Session {
    /** `docsIndex`: the journal document of each destination. */
    var docs: map<string, JournalDoc>
    var currentEntryId: Option<string>
    var currentPageId: Option<string>
    /** The editor's `innerHTML` and the `#pagePath` text. */
    var editorHtml: string
    var pathText: string
    /** When the pending autosave fires, if one is pending (`saveTimer`). */
    var saveDue: Option<int>
    /** How many times the autosave has written a page. */
    var writes: nat

    constructor (docs: map<string, JournalDoc>)
      ensures this.docs == docs && currentEntryId == None && currentPageId == None
      ensures editorHtml == "" && pathText == "" && saveDue == None && writes == 0
    {
      this.docs := docs;
      currentEntryId, currentPageId := None, None;
      editorHtml, pathText := "", "";
      saveDue, writes := None, 0;
    }

    /** The tree, pages and selection of the document `ensureDoc(e)` returns
        when `pid` and the two clock readings are what a seed would use. */
    ghost function DocTree(e: string, pid: string): seq<Node>
      reads this, docs.Values
    {
      if e in docs then docs[e].tree else SeedTree(pid)
    }

    ghost function DocPages(e: string, pid: string, created: int, updated: int): map<string, PageContent>
      reads this, docs.Values
    {
      if e in docs then docs[e].pages else SeedPages(pid, created, updated)
    }

    ghost function DocSelected(e: string, pid: string): Option<string>
      reads this, docs.Values
    {
      if e in docs then docs[e].selectedId else Some(pid)
    }

    /** `ensureDoc` (src/app.js:86-96): the document of `entryId`, created
        and seeded on first access; a second access returns the same object
        untouched. */
    method EnsureDoc(entryId: string, pid: string, created: int, updated: int) returns (d: JournalDoc)
      modifies this
      ensures entryId in docs && d == docs[entryId]
      ensures entryId in old(docs) ==> docs == old(docs)
      ensures entryId !in old(docs) ==> fresh(d) && docs == old(docs)[entryId := d] && d.Valid()
      ensures d.tree == old(DocTree(entryId, pid)) && d.pages == old(DocPages(entryId, pid, created, updated))
      ensures d.selectedId == old(DocSelected(entryId, pid))
      ensures currentEntryId == old(currentEntryId) && currentPageId == old(currentPageId)
      ensures editorHtml == old(editorHtml) && pathText == old(pathText) && saveDue == old(saveDue) && writes == old(writes)
    {
      if entryId in docs {
        d := docs[entryId];
      } else {
        d := new JournalDoc.Seed(pid, created, updated);
        docs := docs[entryId := d];
      }
    }

    /** `selectNode` (src/app.js:506-523): the document's selection becomes
        `nodeId`, and the editor, the open page and the breadcrumb show its
        view. A pending autosave is left as it is: switching pages does not
        flush it. */
    method SelectNode(entryId: string, nodeId: Option<string>, pid: string, created: int, updated: int)
      modifies this, if entryId in docs then {docs[entryId]} else {}
      ensures entryId in docs
      ensures entryId in old(docs) ==> docs == old(docs)
      ensures entryId !in old(docs) ==> fresh(docs[entryId]) && docs == old(docs)[entryId := docs[entryId]]
      ensures docs[entryId].tree == old(DocTree(entryId, pid))
      ensures docs[entryId].pages == old(DocPages(entryId, pid, created, updated))
      ensures docs[entryId].selectedId == nodeId
      ensures View(currentPageId, editorHtml, pathText) == ViewOf(docs[entryId].tree, docs[entryId].pages, nodeId)
      ensures currentEntryId == old(currentEntryId) && saveDue == old(saveDue) && writes == old(writes)
      ensures (entryId in old(docs) ==> old(docs[entryId].Valid())) && (nodeId.Some? ==> nodeId.value in Ids(docs[entryId].tree))
              ==> docs[entryId].Valid()
    {
      var d := EnsureDoc(entryId, pid, created, updated);
      d.selectedId := nodeId;
      var v := ViewOf(d.tree, d.pages, nodeId);
      currentPageId, editorHtml, pathText := v.pageId, v.html, v.path;
    }

    /** `openJournalOverlay` (src/app.js:354-362): the destination becomes the
        open one and its document's stored selection is selected again. */
    method OpenJournal(entryId: string, pid: string, created: int, updated: int)
      modifies this, if entryId in docs then {docs[entryId]} else {}
      ensures currentEntryId == Some(entryId) && entryId in docs
      ensures entryId in old(docs) ==> docs == old(docs)
      ensures entryId !in old(docs) ==> fresh(docs[entryId]) && docs == old(docs)[entryId := docs[entryId]]
      ensures docs[entryId].tree == old(DocTree(entryId, pid))
      ensures docs[entryId].pages == old(DocPages(entryId, pid, created, updated))
      ensures docs[entryId].selectedId == old(DocSelected(entryId, pid))
      ensures View(currentPageId, editorHtml, pathText)
           == ViewOf(docs[entryId].tree, docs[entryId].pages, docs[entryId].selectedId)
      ensures saveDue == old(saveDue) && writes == old(writes)
    {
      currentEntryId := Some(entryId);
      var d := EnsureDoc(entryId, pid, created, updated);
      SelectNode(entryId, d.selectedId, pid, created, updated);
    }

    /** `closeJournalOverlay` (src/app.js:363-368): no destination and no
        page are open any more; a pending autosave stays pending. */
    method CloseJournal()
      modifies this
      ensures currentEntryId == None && currentPageId == None
      ensures docs == old(docs) && editorHtml == old(editorHtml) && pathText == old(pathText)
      ensures saveDue == old(saveDue) && writes == old(writes)
    {
      currentEntryId, currentPageId := None, None;
    }

    /** An `input` event on the editor, handled by `scheduleSave`
        (src/app.js:525-537): the editor holds `html`, and the pending
        autosave, if any, is replaced by one due `SaveDelay` after `now`, so
        at most one is ever pending. */
    method Input(html: string, now: int)
      modifies this
      ensures editorHtml == html && saveDue == Some(now + SaveDelay)
      ensures docs == old(docs) && currentEntryId == old(currentEntryId) && currentPageId == old(currentPageId)
      ensures pathText == old(pathText) && writes == old(writes)
    {
      editorHtml := html;
      saveDue := Some(now + SaveDelay);
    }

    /** The clock reaching `now`. A pending autosave that is due fires
        (src/app.js:527-535): with a destination and a page open it fetches
        the destination's document (seeding it if needed) and, when the page
        has an entry, stores the editor's content there with `now` as its
        update time. Whatever page is open when it fires gets the content. */
    method Tick(now: int, pid: string, created: int, updated: int)
      modifies this, if Truthy(currentEntryId) && currentEntryId.value in docs then {docs[currentEntryId.value]} else {}
      ensures currentEntryId == old(currentEntryId) && currentPageId == old(currentPageId)
      ensures editorHtml == old(editorHtml) && pathText == old(pathText)
      ensures saveDue == if old(saveDue).Some? && old(saveDue).value <= now then None else old(saveDue)
      ensures !(old(saveDue).Some? && old(saveDue).value <= now && Truthy(currentEntryId) && Truthy(currentPageId)) ==>
        && docs == old(docs) && writes == old(writes)
        && (Truthy(currentEntryId) && currentEntryId.value in docs ==> unchanged(docs[currentEntryId.value]))
      ensures old(saveDue).Some? && old(saveDue).value <= now && Truthy(currentEntryId) && Truthy(currentPageId) ==>
        var e, pg := currentEntryId.value, currentPageId.value;
        var before := old(DocPages(e, pid, created, updated));
        && e in docs
        && (e in old(docs) ==> docs == old(docs))
        && (e !in old(docs) ==> fresh(docs[e]) && docs == old(docs)[e := docs[e]])
        && docs[e].tree == old(DocTree(e, pid)) && docs[e].selectedId == old(DocSelected(e, pid))
        && docs[e].pages == (if pg in before then before[pg := before[pg].(html := editorHtml, updated := now)] else before)
        && writes == old(writes) + (if pg in before then 1 else 0)
        && (e in old(docs) && old(docs[e].Valid()) ==> docs[e].Valid())
    {
      if saveDue.Some? && saveDue.value <= now {
        saveDue := None;
        if Truthy(currentEntryId) && Truthy(currentPageId) {
          var d := EnsureDoc(currentEntryId.value, pid, created, updated);
          var pg := currentPageId.value;
          if pg in d.pages {
            d.pages := d.pages[pg := d.pages[pg].(html := editorHtml, updated := now)];
            writes := writes + 1;
          }
        }
      }
    }
  }
}
