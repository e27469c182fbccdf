/** Small documents whose report can be stated outright. */
module Examples {
  import opened Counters
  import opened Xml
  import opened Schema
  import opened TagUse
  import opened TallyFacts

  /** `<a><b/><b/><c/></a>` against a DTD that lets `a` contain `b` and `c`. */
  const LeafB: Node := Element("b", {}, false, [])
  const LeafC: Node := Element("c", {}, false, [])
  const SmallTree: Node := Element("a", {}, false, [LeafB, LeafB, LeafC])
  const SmallDtd: Dtd := Dtd(map["a" := ["b", "c"]], map[])

  /** The children of `SmallTree` leave the root's record as the root's own visit made it. */
  lemma SmallRootVisitedOnce(tree: Node, dtd: Dtd)
    requires tree == SmallTree && dtd == SmallDtd
    ensures "a" in Tally(map[], tree, "", dtd)
    ensures Tally(map[], tree, "", dtd)["a"] == Visited(Fresh, tree, "", dtd)
  {
    SmallChildren(LeafB, LeafC);
    TallyChildrenUntouched(Visit(map[], tree, "", dtd), tree.children, "a", dtd, "a");
  }

  /** In the report on `SmallTree`, `a` is seen once, at the root, with two `b`
      and one `c` children and no direct text. */
  lemma SmallDocumentRoot(tree: Node, dtd: Dtd)
    requires tree == SmallTree && dtd == SmallDtd
    ensures var r := Tally(map[], tree, "", dtd);
      && "a" in r
      && r["a"].total == 1
      && Get(r["a"].parents, "") == 1
      && Get(r["a"].elements, "b") == 2
      && Get(r["a"].elements, "c") == 1
      && Get(r["a"].text, NoText) == 1
  {
    SmallRootVisitedOnce(tree, dtd);
    SmallChildren(LeafB, LeafC);
    SmallDtdListsEach(dtd);
    ChildCountsAdded(map[], dtd.LegalChildren("a"), tree.children, "b");
    ChildCountsAdded(map[], dtd.LegalChildren("a"), tree.children, "c");
  }

  /** In the report on `SmallTree`, `b` is seen twice, both times under `a`. */
  lemma SmallDocumentChild(tree: Node, dtd: Dtd)
    requires tree == SmallTree && dtd == SmallDtd
    ensures var r := Tally(map[], tree, "", dtd);
      && "b" in r
      && r["b"].total == 2
      && Get(r["b"].parents, "a") == 2
  {
    SmallChildren(LeafB, LeafC);
    assert Occurrences(tree, "b") == OccurrencesIn(tree.children, "b") == 2;
    assert Edges(tree, "", "b", "a") == EdgesIn(tree.children, "a", "b", "a") == 2;
    TallyTotals(map[], tree, "", dtd, "b");
    TallyParents(map[], tree, "", dtd, "b", "a");
  }

  /** The DTD of `SmallTree` lists `b` and `c` once each under `a`. */
  lemma SmallDtdListsEach(dtd: Dtd)
    requires dtd == SmallDtd
    ensures Multiplicity(dtd.LegalChildren("a"), "b") == 1
    ensures Multiplicity(dtd.LegalChildren("a"), "c") == 1
  {
    var listed := dtd.LegalChildren("a");
    assert listed == ["b", "c"];
    assert listed[..1] == ["b"] && listed[..1][..0] == [];
  }

  /** The counts over the children `[b, b, c]` of `SmallTree`, one child at a time. */
  lemma SmallChildren(b: Node, c: Node)
    requires b == Element("b", {}, false, []) && c == Element("c", {}, false, [])
    ensures CountNamed([b, b, c], "b") == 2 && CountNamed([b, b, c], "c") == 1
    ensures "a" !in NamesIn([b, b, c])
    ensures OccurrencesIn([b, b, c], "b") == 2 && EdgesIn([b, b, c], "a", "b", "a") == 2
  {
    var one, two, three := [b], [b, b], [b, b, c];
    assert Front(one) == [] && Front(two) == one && Front(three) == two;
    assert Last(one) == b && Last(two) == b && Last(three) == c;
    assert CountNamed(one, "b") == 1 && CountNamed(one, "c") == 0;
    assert CountNamed(two, "b") == 2 && CountNamed(two, "c") == 0;
    assert NamesIn(one) == {"b"} && NamesIn(two) == {"b"} && NamesIn(three) == {"b", "c"};
    assert Occurrences(b, "b") == 1 && Occurrences(c, "b") == 0;
    assert Edges(b, "a", "b", "a") == 1 && Edges(c, "a", "b", "a") == 0;
    assert OccurrencesIn(one, "b") == 1 && OccurrencesIn(two, "b") == 2;
    assert EdgesIn(one, "a", "b", "a") == 1 && EdgesIn(two, "a", "b", "a") == 2;
  }

  /** An attribute-list declaration that names `id` twice makes one `<a id="x"/>`
      count `id` twice: the attribute count then exceeds the element's total,
      which is why `TallyAttributesWithin` needs a DTD without such repeats. */
  lemma RepeatedAttributeCountedTwice()
    ensures
      var a := Element("a", {"id"}, true, []);
      var dtd := Dtd(map[], map["a" := ["id", "id"]]);
      var r := Tally(map[], a, "", dtd);
      && r["a"].total == 1
      && Get(r["a"].attributes, "id") == 2
      && Get(r["a"].text, PCDATA) == 1
  {
    var a := Element("a", {"id"}, true, []);
    var dtd := Dtd(map[], map["a" := ["id", "id"]]);
    VisitRecord(map[], a, "", dtd);
    assert Multiplicity(["id", "id"], "id") == 2;
  }
}
