/** The statistics table that the traversal updates in place, and the
    traversal itself, written as the program performs it: one field update at a
    time, one loop per DTD list, and one recursive call per child node. */
module Report {
  import opened Counters
  import opened Xml
  import opened Schema
  import opened TagUse
  import opened TallyFacts

  class Stats {
    /** Element local name -> usage record. */
    var table: Table

    /** The empty table a run starts from; it satisfies the table's invariants. */
    constructor ()
      ensures table == map[]
      ensures Consistent(table) && AttributesWithin(table)
    {
      table := map[];
    }

    /** Update the record of one element; its children are visited by `CountElements`. */
    method VisitElement(node: Node, parent: string, dtd: Dtd)
      requires node.Element?
      modifies this
      ensures table == Visit(old(table), node, parent, dtd)
    {
      var key := node.name;
      // `setdefault`: a zeroed record for a name seen for the first time. The
      // program then updates that record object in place; here the record is
      // a value, updated field by field and stored back.
      var record := if key in table then table[key] else Fresh;
      table := table[key := record];
      record := UpdateRecord(record, node, parent, dtd);
      table := table[key := record];
    }

    /** Tally the tree rooted at `node`, whose parent has local name `parent`.
        Comments and processing instructions are skipped. */
    method CountElements(node: Node, parent: string, dtd: Dtd)
      modifies this
      ensures table == Tally(old(table), node, parent, dtd)
      ensures Consistent(old(table)) ==> Consistent(table)
      ensures dtd.DistinctAttributes() && AttributesWithin(old(table)) ==> AttributesWithin(table)
      ensures TableGrows(old(table), table)
      decreases node
    {
      ghost var start := table;
      match node
      case Comment =>
      case ProcessingInstruction =>
      case Element(key, _, _, children) =>
        VisitElement(node, parent, dtd);
        ghost var visited := table;
        for i := 0 to |children|
          invariant table == TallyChildren(visited, children[..i], key, dtd)
        {
          assert Front(children[..i + 1]) == children[..i];
          assert Last(children[..i + 1]) == children[i];
          CountElements(children[i], key, dtd);
        }
        assert children[..|children|] == children;
      TallyKeepsInvariants(start, node, parent, dtd);
      TallyGrows(start, node, parent, dtd);
    }

    /** One file of the corpus: a zero-length file is skipped; the root
        element of a parsed one hangs from the document node, whose local name
        is empty. */
    method AnalyzeFile(doc: Document, dtd: Dtd)
      modifies this
      ensures table == Analyze(old(table), doc, dtd)
      ensures doc.EmptyFile? ==> table == old(table)
    {
      match doc
      case EmptyFile =>
      case Parsed(root) => CountElements(root, "", dtd);
    }

    /** The files of the corpus, in the order they were found. */
    method AnalyzeCorpus(docs: seq<Document>, dtd: Dtd)
      modifies this
      ensures table == AnalyzeAll(old(table), docs, dtd)
      ensures forall k :: RecordOf(table, k).total == RecordOf(old(table), k).total + CorpusOccurrences(docs, k)
      ensures Consistent(old(table)) ==> Consistent(table)
      ensures dtd.DistinctAttributes() && AttributesWithin(old(table)) ==> AttributesWithin(table)
    {
      ghost var start := table;
      for i := 0 to |docs|
        invariant table == AnalyzeAll(start, docs[..i], dtd)
      {
        assert docs[..i + 1][..i] == docs[..i];
        AnalyzeFile(docs[i], dtd);
      }
      assert docs[..|docs|] == docs;
      forall k {
        CorpusTotals(start, docs, dtd, k);
      }
      CorpusKeepsInvariants(start, docs, dtd);
    }
  }

  /** The record of `node` after the visit: the total, the parent count, each
      DTD-listed child name, each DTD-declared attribute and the text key, in
      that order. */
  method UpdateRecord(u: Usage, node: Node, parent: string, dtd: Dtd) returns (v: Usage)
    requires node.Element?
    ensures v == Visited(u, node, parent, dtd)
  {
    var key := node.name;
    var elements := dtd.LegalChildren(key);
    var attributes := dtd.LegalAttributes(key);

    v := u.(total := u.total + 1);
    v := v.(parents := Bump(v.parents, parent, 1));
    var elementCounts := CountChildElements(v.elements, elements, node.children);
    v := v.(elements := elementCounts);
    var attributeCounts := CountAttributes(v.attributes, attributes, node.attributes);
    v := v.(attributes := attributeCounts);
    v := v.(text := Bump(v.text, TextKey(node.hasText), 1));
  }

  /** For each DTD-listed child name, in order, add to `counts` the number of
      direct children with that name. */
  method CountChildElements(counts: Counter, names: seq<string>, children: seq<Node>) returns (r: Counter)
    ensures r == AddChildCounts(counts, names, children)
  {
    r := counts;
    for i := 0 to |names|
      invariant r == AddChildCounts(counts, names[..i], children)
    {
      assert names[..i + 1][..i] == names[..i];
      r := Bump(r, names[i], CountNamed(children, names[i]));
    }
    assert names[..|names|] == names;
  }

  /** For each DTD-declared attribute name, in order, add to `counts` 1 if the
      node carries that attribute and 0 otherwise. */
  method CountAttributes(counts: Counter, names: seq<string>, present: set<string>) returns (r: Counter)
    ensures r == AddAttributeCounts(counts, names, present)
  {
    r := counts;
    for i := 0 to |names|
      invariant r == AddAttributeCounts(counts, names[..i], present)
    {
      assert names[..i + 1][..i] == names[..i];
      r := Bump(r, names[i], if names[i] in present then 1 else 0);
    }
    assert names[..|names|] == names;
  }

  /** The table invariants, each under its own hypothesis, after one walk. */
  lemma TallyKeepsInvariants(t: Table, n: Node, parent: string, dtd: Dtd)
    ensures Consistent(t) ==> Consistent(Tally(t, n, parent, dtd))
    ensures dtd.DistinctAttributes() && AttributesWithin(t) ==> AttributesWithin(Tally(t, n, parent, dtd))
  {
    if Consistent(t) {
      TallyConsistent(t, n, parent, dtd);
    }
    if dtd.DistinctAttributes() && AttributesWithin(t) {
      TallyAttributesWithin(t, n, parent, dtd);
    }
  }

  /** The table invariants, each under its own hypothesis, after a corpus. */
  lemma CorpusKeepsInvariants(t: Table, docs: seq<Document>, dtd: Dtd)
    ensures Consistent(t) ==> Consistent(AnalyzeAll(t, docs, dtd))
    ensures dtd.DistinctAttributes() && AttributesWithin(t) ==> AttributesWithin(AnalyzeAll(t, docs, dtd))
  {
    if Consistent(t) {
      CorpusConsistent(t, docs, dtd);
    }
    if dtd.DistinctAttributes() && AttributesWithin(t) {
      CorpusAttributesWithin(t, docs, dtd);
    }
  }
}
