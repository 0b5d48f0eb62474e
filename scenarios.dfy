/**
 * Worked runs of the journal handlers on small documents, showing where the
 * code's behaviour departs from what the panel's labels suggest.
 */
module Scenarios {
  import opened Wrappers
  import opened Tree
  import opened Journal
  import opened Overlay

  // The nodes of the first run: the seed page, a new section (empty, then
  // holding the new page) and the new page.
  const P1 := Node("p1", SeedTitle, Page, Missing)
  const S0 := Node("s", NewSectionTitle, Section, Present([]))
  const D := Node("d", NewPageTitle, Page, Missing)
  const S1 := Node("s", NewSectionTitle, Section, Present([D]))

  lemma FindSeed()
    ensures FindNodePath([P1], "p1") == Some([Frame([P1], 0, P1)])
  {
  }

  lemma FindSection()
    ensures FindNodePath([P1, S0], "s") == Some([Frame([P1, S0], 1, S0)])
  {
    assert FindBelow(P1, "s") == None;
    assert FindFrom([P1, S0], "s", 1) == Some([Frame([P1, S0], 1, S0)]);
  }

  lemma FindRootPage()
    ensures FindNodePath([P1, S0, D], "d") == Some([Frame([P1, S0, D], 2, D)])
  {
    assert FindBelow(P1, "d") == None;
    assert FindBelow(S0, "d") == None;
    assert FindFrom([P1, S0, D], "d", 2) == Some([Frame([P1, S0, D], 2, D)]);
    assert FindFrom([P1, S0, D], "d", 1) == Some([Frame([P1, S0, D], 2, D)]);
  }

  lemma FindNestedPage()
    ensures FindNodePath([P1, S1], "d") == Some([Frame([P1, S1], 1, S1), Frame([D], 0, D)])
  {
    assert FindBelow(P1, "d") == None;
    assert FindFrom([D], "d", 0) == Some([Frame([D], 0, D)]);
    assert FindBelow(S1, "d") == Some([Frame([D], 0, D)]);
    assert [Frame([P1, S1], 1, S1)] + [Frame([D], 0, D)] == [Frame([P1, S1], 1, S1), Frame([D], 0, D)];
    assert FindFrom([P1, S1], "d", 1) == Some([Frame([P1, S1], 1, S1), Frame([D], 0, D)]);
  }

  lemma IndentNestsPage()
    ensures Adopted([P1, S0, D], 2) == [P1, S1]
  {
    assert Kids(S0) + [D] == [D];
    assert AppendChild(S0, D) == S1;
  }

  /** At depth one the selected node's array is the root array itself. */
  lemma AtRoot(t: seq<Node>, p: Path, arr: seq<Node>)
    requires Chain(t, p) && |p| == 1
    ensures AtSelection(t, p, arr) == arr
  {
    assert Route(p) == [];
  }

  /** A new document, a section added after the seed page, a page added after
      the section, that page indented under the section, then outdented. The
      indent nests the page as expected; the outdent then splices the
      section's own index (1) out of the section's one-element children array,
      removes nothing, and the source inserts `undefined` at the head of the
      root (position 0 of the root array) instead of bringing the page back.
      The tree here is the one around that hole. */
  method IndentThenOutdent() returns (outcome: OutdentOutcome, tree: seq<Node>)
    ensures outcome == InsertedUndefined([], 0)
    ensures tree == [P1, S1]
  {
    var doc := new JournalDoc.Seed("p1", 0, 0);
    FindSeed();
    doc.Add(Section, "s", 1, 1);
    assert doc.tree == [P1, S0];
    FindSection();
    doc.Add(Page, "d", 2, 2);
    assert doc.tree == [P1, S0, D];
    FindRootPage();
    assert doc.Selected() == Some([Frame([P1, S0, D], 2, D)]);
    IndentNestsPage();
    AtRoot([P1, S0, D], [Frame([P1, S0, D], 2, D)], [P1, S1]);
    doc.Indent();
    assert doc.tree == [P1, S1];
    FindNestedPage();
    outcome := doc.Outdent();
    tree := doc.tree;
  }

  // The nodes of the second run: a section holding two pages.
  const A := Node("a", "A", Page, Missing)
  const B := Node("b", "B", Page, Missing)
  const SAB := Node("s", "S", Section, Present([A, B]))

  /** Outdenting the first of two pages nested in the second root moves the
      other page: the parent's index 1 is also a valid index of the two-page
      array, so the page at that index leaves it and lands at the head of the
      root, while the selected page stays where it was. */
  lemma OutdentMovesSibling()
    ensures FindNodePath([P1, SAB], "a") == Some([Frame([P1, SAB], 1, SAB), Frame([A, B], 0, A)])
    ensures OutdentAsWritten([P1, SAB], [Frame([P1, SAB], 1, SAB), Frame([A, B], 0, A)])
         == [B, P1, Node("s", "S", Section, Present([A]))]
  {
    FindNestedA();
    var p := [Frame([P1, SAB], 1, SAB), Frame([A, B], 0, A)];
    assert Route(p) == [1];
    assert RemoveAt([A, B], 1).0 == [A];
    LeaveOnlyA();
    assert InsertAfter([P1, Node("s", "S", Section, Present([A]))], -1, B) == [B, P1, Node("s", "S", Section, Present([A]))];
  }

  lemma FindNestedA()
    ensures FindNodePath([P1, SAB], "a") == Some([Frame([P1, SAB], 1, SAB), Frame([A, B], 0, A)])
  {
    var p := [Frame([P1, SAB], 1, SAB), Frame([A, B], 0, A)];
    assert FindBelow(P1, "a") == None;
    assert FindFrom([A, B], "a", 0) == Some([Frame([A, B], 0, A)]);
    assert [Frame([P1, SAB], 1, SAB)] + [Frame([A, B], 0, A)] == p;
    assert FindFrom([P1, SAB], "a", 1) == Some(p);
  }

  lemma LeaveOnlyA()
    ensures ReplaceArray([P1, SAB], [1], [A]) == [P1, Node("s", "S", Section, Present([A]))]
  {
    assert ReplaceArray([A, B], [], [A]) == [A];
  }

  /** Deleting a section removes its subtree from the tree but leaves the
      `pages` entry of the page inside it; with the root now empty the
      selection becomes null. */
  method DeleteSectionKeepsPageEntry() returns (tree: seq<Node>, pages: map<string, PageContent>, sel: Option<string>)
    ensures tree == [] && sel == None
    ensures "d" in pages && pages["d"].html == "<p>day one</p>"
  {
    var entry := PageContent("d", NewPageTitle, "<p>day one</p>", 0, 0);
    var doc := new JournalDoc.Restore([S1], map["d" := entry], Some("s"));
    assert FindNodePath([S1], "s") == Some([Frame([S1], 0, S1)]);
    assert doc.Selected() == Some([Frame([S1], 0, S1)]);
    AtRoot([S1], [Frame([S1], 0, S1)], []);
    doc.Delete(true);
    tree, pages, sel := doc.tree, doc.pages, doc.selectedId;
  }

  /** A destination whose document holds the one page `p`, selected, with
      the given entry. */
  method OneDestination(e: string, p: string, html: string) returns (s: Session)
    ensures fresh(s) && s.docs.Keys == {e} && fresh(s.docs[e])
    ensures s.docs[e].tree == [Node(p, "P", Page, Missing)]
    ensures s.docs[e].pages == map[p := PageContent(p, "P", html, 0, 0)]
    ensures s.docs[e].selectedId == Some(p)
    ensures s.currentEntryId == None && s.currentPageId == None && s.saveDue == None && s.writes == 0
  {
    var doc := new JournalDoc.Restore([Node(p, "P", Page, Missing)], map[p := PageContent(p, "P", html, 0, 0)], Some(p));
    s := new Session(map[e := doc]);
  }

  /** Two inputs 200 ms apart: the first timer is replaced by the second, so
      nothing is written at 300 ms and a single write of the second content
      happens at 500 ms. */
  method BurstWritesOnce() returns (stored: string, writes: nat)
    ensures stored == "<p>two</p>" && writes == 1
  {
    var s := OneDestination("e", "pg", "");
    var pg := Node("pg", "P", Page, Missing);
    assert Ids([pg]) == ["pg"] by {
      CollectOne(pg, false);
    }
    assert FindNodePath([pg], "pg") == Some([Frame([pg], 0, pg)]);
    s.OpenJournal("e", "seed", 0, 0);
    assert s.currentPageId == Some("pg");
    s.Input("<p>one</p>", 0);
    s.Input("<p>two</p>", 200);
    s.Tick(300, "seed", 0, 0);
    assert s.writes == 0 && s.saveDue == Some(500);
    s.Tick(500, "seed", 0, 0);
    stored, writes := s.docs["e"].pages["pg"].html, s.writes;
  }

  // The entries of pages `a` and `b`.
  const PagesAB := map["a" := PageContent("a", "A", "<p>a</p>", 0, 0), "b" := PageContent("b", "B", "<p>b</p>", 0, 0)]

  /** The views of `a` and `b` in the document [A, B]. */
  lemma ViewsAB()
    ensures ViewOf([A, B], PagesAB, Some("a")).pageId == Some("a") && ViewOf([A, B], PagesAB, Some("a")).html == "<p>a</p>"
    ensures ViewOf([A, B], PagesAB, Some("b")).pageId == Some("b") && ViewOf([A, B], PagesAB, Some("b")).html == "<p>b</p>"
  {
    assert Ids([A, B]) == ["a", "b"] by {
      CollectConcat([A], [B], false);
      CollectOne(A, false);
      CollectOne(B, false);
    }
    assert FindNodePath([A, B], "a") == Some([Frame([A, B], 0, A)]);
    assert FindNodePath([A, B], "b") == Some([Frame([A, B], 1, B)]) by {
      assert FindBelow(A, "b") == None;
      assert FindFrom([A, B], "b", 1) == Some([Frame([A, B], 1, B)]);
    }
  }

  /** An edit typed on page `a`, then a click on page `b` before the timer
      fires: the pending save is not flushed, the editor now shows `b`, and
      when the timer fires it writes `b`'s own content back to `b`. The edit
      of `a` is lost. */
  method SwitchLosesPendingEdit() returns (storedA: string, storedB: string, writes: nat)
    ensures storedA == "<p>a</p>" && storedB == "<p>b</p>" && writes == 1
  {
    var doc := new JournalDoc.Restore([A, B], PagesAB, Some("a"));
    var s := new Session(map["e" := doc]);
    ViewsAB();
    s.OpenJournal("e", "seed", 0, 0);
    assert s.currentPageId == Some("a") && s.editorHtml == "<p>a</p>";
    s.Input("<p>a, edited</p>", 0);
    s.SelectNode("e", Some("b"), "seed", 0, 0);
    assert s.currentPageId == Some("b") && s.editorHtml == "<p>b</p>" && s.saveDue == Some(300);
    s.Tick(300, "seed", 0, 0);
    storedA, storedB, writes := s.docs["e"].pages["a"].html, s.docs["e"].pages["b"].html, s.writes;
  }

  /** Closing the overlay before the timer fires: the timer still fires but
      finds no open destination and writes nothing. */
  method CloseBeforeFire() returns (stored: string, writes: nat)
    ensures stored == "" && writes == 0
  {
    var s := OneDestination("e", "pg", "");
    var pg := Node("pg", "P", Page, Missing);
    assert Ids([pg]) == ["pg"] by {
      CollectOne(pg, false);
    }
    assert FindNodePath([pg], "pg") == Some([Frame([pg], 0, pg)]);
    s.OpenJournal("e", "seed", 0, 0);
    s.Input("<p>draft</p>", 0);
    s.CloseJournal();
    s.Tick(300, "seed", 0, 0);
    stored, writes := s.docs["e"].pages["pg"].html, s.writes;
  }
}
