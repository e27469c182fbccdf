/** What the tally means: the effect of one visit on an element's record, the
    invariants every visit keeps, and the counts a whole traversal adds. */
module TallyFacts {
  import opened Counters
  import opened Xml
  import opened Schema
  import opened TagUse

  // ---------------------------------------------------------------------------
  // One visit

  lemma MulStep(m: nat, n: nat)
    ensures (m + 1) * n == m * n + n
  {
  }

  /** Each listed child name gains the number of direct children with that
      name, once per time the DTD lists it; other names gain nothing. */
  lemma {:induction false} ChildCountsAdded(c: Counter, listed: seq<string>, children: seq<Node>, k: string)
    ensures Get(AddChildCounts(c, listed, children), k) == Get(c, k) + Multiplicity(listed, k) * CountNamed(children, k)
  {
    if listed != [] {
      var front, j := listed[..|listed| - 1], listed[|listed| - 1];
      ChildCountsAdded(c, front, children, k);
      if j == k {
        MulStep(Multiplicity(front, k), CountNamed(children, k));
      }
    }
  }

  /** Each listed attribute name gains 1 per listing if the node carries it,
      and 0 otherwise; other names gain nothing. */
  lemma {:induction false} AttributeCountsAdded(c: Counter, listed: seq<string>, present: set<string>, k: string)
    ensures Get(AddAttributeCounts(c, listed, present), k) == Get(c, k) + (if k in present then Multiplicity(listed, k) else 0)
  {
    if listed != [] {
      AttributeCountsAdded(c, listed[..|listed| - 1], present, k);
    }
  }

  /** Visiting an element: its record (a zeroed one if the name is new) gains 1
      in total, 1 under its parent's name, the DTD-listed child and attribute
      counts, and 1 under exactly one of the two text keys. A name the DTD does
      not declare gets no child or attribute entries. */
  lemma VisitRecord(t: Table, n: Node, parent: string, dtd: Dtd)
    requires n.Element?
    ensures var u, v := RecordOf(t, n.name), Visit(t, n, parent, dtd)[n.name];
      && v.total == u.total + 1
      && v.parents.Keys == u.parents.Keys + {parent}
      && Get(v.parents, parent) == Get(u.parents, parent) + 1
      && (forall p :: p != parent ==> Get(v.parents, p) == Get(u.parents, p))
      && (forall c :: c in v.elements <==> c in u.elements || c in dtd.LegalChildren(n.name))
      && (forall c :: Get(v.elements, c) == Get(u.elements, c) + Multiplicity(dtd.LegalChildren(n.name), c) * CountNamed(n.children, c))
      && (forall a :: a in v.attributes <==> a in u.attributes || a in dtd.LegalAttributes(n.name))
      && (forall a :: Get(v.attributes, a) == Get(u.attributes, a) + (if a in n.attributes then Multiplicity(dtd.LegalAttributes(n.name), a) else 0))
      && (n.name !in dtd.contentModels ==> v.elements == u.elements)
      && (n.name !in dtd.attributeLists ==> v.attributes == u.attributes)
      && v.text.Keys == u.text.Keys + {TextKey(n.hasText)}
      && Get(v.text, TextKey(n.hasText)) == Get(u.text, TextKey(n.hasText)) + 1
      && Get(v.text, TextKey(!n.hasText)) == Get(u.text, TextKey(!n.hasText))
  {
    var u := RecordOf(t, n.name);
    forall c {
      ChildCountsAdded(u.elements, dtd.LegalChildren(n.name), n.children, c);
    }
    forall a {
      AttributeCountsAdded(u.attributes, dtd.LegalAttributes(n.name), n.attributes, a);
    }
  }

  // ---------------------------------------------------------------------------
  // Invariants of the table

  /** The total of a record is the sum of its parent counts. */
  ghost predicate ParentsAgree(u: Usage)
  {
    Sum(u.parents) == u.total
  }

  /** The text counter holds only the two text keys, and they add up to the total. */
  ghost predicate TextAgrees(u: Usage)
  {
    && u.text.Keys <= {PCDATA, NoText}
    && Get(u.text, PCDATA) + Get(u.text, NoText) == u.total
  }

  /** No attribute was counted more often than its element was seen. */
  ghost predicate AttributesBounded(u: Usage)
  {
    forall a :: a in u.attributes ==> u.attributes[a] <= u.total
  }

  ghost predicate Consistent(t: Table)
  {
    forall k :: k in t ==> ParentsAgree(t[k]) && TextAgrees(t[k])
  }

  ghost predicate AttributesWithin(t: Table)
  {
    forall k :: k in t ==> AttributesBounded(t[k])
  }

  /** With both text keys the only ones present, the text counter sums to the total. */
  lemma TextCountsSumToTotal(u: Usage)
    requires TextAgrees(u)
    ensures Sum(u.text) == u.total
  {
    SumOfTwo(u.text, PCDATA, NoText);
  }

  /** A duplicate-free list names each entry at most once. */
  lemma {:induction false} DistinctMultiplicity(s: seq<string>, k: string)
    requires forall i, j :: 0 <= i < j < |s| ==> s[i] != s[j]
    ensures Multiplicity(s, k) <= 1
  {
    if s != [] {
      var front := s[..|s| - 1];
      DistinctMultiplicity(front, k);
    }
  }

  lemma VisitConsistent(t: Table, n: Node, parent: string, dtd: Dtd)
    requires n.Element?
    requires Consistent(t)
    ensures Consistent(Visit(t, n, parent, dtd))
  {
    var u := RecordOf(t, n.name);
    var v := Visited(u, n, parent, dtd);
    VisitStores(t, n, parent, dtd);
    assert v.parents == Bump(u.parents, parent, 1);
    SumBump(u.parents, parent, 1);
    assert v.text == Bump(u.text, TextKey(n.hasText), 1);
  }

  lemma VisitAttributesWithin(t: Table, n: Node, parent: string, dtd: Dtd)
    requires n.Element?
    requires dtd.DistinctAttributes()
    requires AttributesWithin(t)
    ensures AttributesWithin(Visit(t, n, parent, dtd))
  {
    var u, v := RecordOf(t, n.name), Visit(t, n, parent, dtd)[n.name];
    VisitRecord(t, n, parent, dtd);
    forall a | a in v.attributes
      ensures v.attributes[a] <= v.total
    {
      var listed := dtd.LegalAttributes(n.name);
      if n.name in dtd.attributeLists {
        DistinctMultiplicity(listed, a);
      }
      assert Get(v.attributes, a) <= Get(u.attributes, a) + 1;
    }
  }

  /** The invariants hold after any traversal that starts from a table where they hold. */
  lemma {:induction false} TallyConsistent(t: Table, n: Node, parent: string, dtd: Dtd)
    requires Consistent(t)
    ensures Consistent(Tally(t, n, parent, dtd))
    decreases n
  {
    match n
    case Element(key, _, _, children) =>
      VisitConsistent(t, n, parent, dtd);
      TallyChildrenConsistent(Visit(t, n, parent, dtd), children, key, dtd);
    case _ =>
  }

  lemma {:induction false} TallyChildrenConsistent(t: Table, children: seq<Node>, parent: string, dtd: Dtd)
    requires Consistent(t)
    ensures Consistent(TallyChildren(t, children, parent, dtd))
    decreases children
  {
    if children != [] {
      TallyChildrenConsistent(t, Front(children), parent, dtd);
      TallyConsistent(TallyChildren(t, Front(children), parent, dtd), Last(children), parent, dtd);
    }
  }

  /** With a DTD that declares no attribute twice for one element, no
      attribute count ever exceeds its element's total. */
  lemma {:induction false} TallyAttributesWithin(t: Table, n: Node, parent: string, dtd: Dtd)
    requires dtd.DistinctAttributes()
    requires AttributesWithin(t)
    ensures AttributesWithin(Tally(t, n, parent, dtd))
    decreases n
  {
    match n
    case Element(key, _, _, children) =>
      VisitAttributesWithin(t, n, parent, dtd);
      TallyChildrenAttributesWithin(Visit(t, n, parent, dtd), children, key, dtd);
    case _ =>
  }

  lemma {:induction false} TallyChildrenAttributesWithin(t: Table, children: seq<Node>, parent: string, dtd: Dtd)
    requires dtd.DistinctAttributes()
    requires AttributesWithin(t)
    ensures AttributesWithin(TallyChildren(t, children, parent, dtd))
    decreases children
  {
    if children != [] {
      TallyChildrenAttributesWithin(t, Front(children), parent, dtd);
      TallyAttributesWithin(TallyChildren(t, Front(children), parent, dtd), Last(children), parent, dtd);
    }
  }

  // ---------------------------------------------------------------------------
  // What a whole traversal adds

  /** Each name's total grows by exactly the number of elements with that name in the tree. */
  lemma {:induction false} TallyTotals(t: Table, n: Node, parent: string, dtd: Dtd, k: string)
    ensures RecordOf(Tally(t, n, parent, dtd), k).total == RecordOf(t, k).total + Occurrences(n, k)
    decreases n
  {
    match n
    case Element(key, _, _, children) =>
      VisitRecord(t, n, parent, dtd);
      TallyChildrenTotals(Visit(t, n, parent, dtd), children, key, dtd, k);
    case _ =>
  }

  lemma {:induction false} TallyChildrenTotals(t: Table, children: seq<Node>, parent: string, dtd: Dtd, k: string)
    ensures RecordOf(TallyChildren(t, children, parent, dtd), k).total == RecordOf(t, k).total + OccurrencesIn(children, k)
    decreases children
  {
    if children != [] {
      TallyChildrenTotals(t, Front(children), parent, dtd, k);
      TallyTotals(TallyChildren(t, Front(children), parent, dtd), Last(children), parent, dtd, k);
    }
  }

  /** A name is in the table after a walk exactly when it was before or some
      element of the tree has it; a name new to the table has as its total the
      number of its elements in the tree. */
  lemma TallyNames(t: Table, n: Node, parent: string, dtd: Dtd, k: string)
    ensures k in Tally(t, n, parent, dtd) <==> k in t || Occurrences(n, k) > 0
    ensures k in Tally(t, n, parent, dtd) && k !in t ==> Tally(t, n, parent, dtd)[k].total == Occurrences(n, k)
  {
    NamesOccur(n, k);
    TallyTotals(t, n, parent, dtd, k);
  }

  /** Each name's count under parent name `p` grows by exactly the number of
      elements with that name whose parent is named `p`; the root hangs from `parent`. */
  lemma {:induction false} TallyParents(t: Table, n: Node, parent: string, dtd: Dtd, k: string, p: string)
    ensures Get(RecordOf(Tally(t, n, parent, dtd), k).parents, p) == Get(RecordOf(t, k).parents, p) + Edges(n, parent, k, p)
    decreases n
  {
    match n
    case Element(key, _, _, children) =>
      VisitRecord(t, n, parent, dtd);
      TallyChildrenParents(Visit(t, n, parent, dtd), children, key, dtd, k, p);
    case _ =>
  }

  lemma {:induction false} TallyChildrenParents(t: Table, children: seq<Node>, parent: string, dtd: Dtd, k: string, p: string)
    ensures Get(RecordOf(TallyChildren(t, children, parent, dtd), k).parents, p) == Get(RecordOf(t, k).parents, p) + EdgesIn(children, parent, k, p)
    decreases children
  {
    if children != [] {
      TallyChildrenParents(t, Front(children), parent, dtd, k, p);
      TallyParents(TallyChildren(t, Front(children), parent, dtd), Last(children), parent, dtd, k, p);
    }
  }

  /** The record of a name that does not occur in the tree is left exactly as it was. */
  lemma {:induction false} TallyUntouched(t: Table, n: Node, parent: string, dtd: Dtd, k: string)
    requires k !in Names(n)
    ensures k in Tally(t, n, parent, dtd) <==> k in t
    ensures k in t ==> Tally(t, n, parent, dtd)[k] == t[k]
    decreases n
  {
    match n
    case Element(key, _, _, children) =>
      TallyChildrenUntouched(Visit(t, n, parent, dtd), children, key, dtd, k);
    case _ =>
  }

  lemma {:induction false} TallyChildrenUntouched(t: Table, children: seq<Node>, parent: string, dtd: Dtd, k: string)
    requires k !in NamesIn(children)
    ensures k in TallyChildren(t, children, parent, dtd) <==> k in t
    ensures k in t ==> TallyChildren(t, children, parent, dtd)[k] == t[k]
    decreases children
  {
    if children != [] {
      TallyChildrenUntouched(t, Front(children), parent, dtd, k);
      TallyUntouched(TallyChildren(t, Front(children), parent, dtd), Last(children), parent, dtd, k);
    }
  }

  /** No record loses a count, a parent, a child or attribute entry or a text key. */
  ghost predicate Grows(u: Usage, v: Usage)
  {
    && u.total <= v.total
    && Below(u.parents, v.parents)
    && Below(u.elements, v.elements)
    && Below(u.attributes, v.attributes)
    && Below(u.text, v.text)
  }

  /** Every record of `t` is still in `r`, and has only grown. */
  ghost predicate TableGrows(t: Table, r: Table)
  {
    forall k :: k in t ==> k in r && Grows(t[k], r[k])
  }

  lemma TableGrowsTransitive(a: Table, b: Table, c: Table)
    requires TableGrows(a, b) && TableGrows(b, c)
    ensures TableGrows(a, c)
  {
    forall k | k in a
      ensures k in c && Grows(a[k], c[k])
    {
      var u, v, w := a[k], b[k], c[k];
      BelowTransitive(u.parents, v.parents, w.parents);
      BelowTransitive(u.elements, v.elements, w.elements);
      BelowTransitive(u.attributes, v.attributes, w.attributes);
      BelowTransitive(u.text, v.text, w.text);
    }
  }

  /** `c[k] += n` keeps every name and count of `c`. */
  lemma BumpGrows(c: Counter, k: string, n: nat)
    ensures Below(c, Bump(c, k, n))
  {
    BelowByGet(c, Bump(c, k, n));
  }

  /** Counting children keeps every name and count already there. */
  lemma {:induction false} ChildCountsGrow(c: Counter, listed: seq<string>, children: seq<Node>)
    ensures Below(c, AddChildCounts(c, listed, children))
  {
    if listed != [] {
      var front, k := listed[..|listed| - 1], listed[|listed| - 1];
      var mid := AddChildCounts(c, front, children);
      ChildCountsGrow(c, front, children);
      BumpGrows(mid, k, CountNamed(children, k));
      BelowTransitive(c, mid, Bump(mid, k, CountNamed(children, k)));
    }
  }

  /** Counting attributes keeps every name and count already there. */
  lemma {:induction false} AttributeCountsGrow(c: Counter, listed: seq<string>, present: set<string>)
    ensures Below(c, AddAttributeCounts(c, listed, present))
  {
    if listed != [] {
      var front, k := listed[..|listed| - 1], listed[|listed| - 1];
      var mid := AddAttributeCounts(c, front, present);
      AttributeCountsGrow(c, front, present);
      BumpGrows(mid, k, if k in present then 1 else 0);
      BelowTransitive(c, mid, Bump(mid, k, if k in present then 1 else 0));
    }
  }

  /** Visiting an element only adds to its record. */
  lemma VisitedGrows(u: Usage, n: Node, parent: string, dtd: Dtd)
    requires n.Element?
    ensures Grows(u, Visited(u, n, parent, dtd))
  {
    BumpGrows(u.parents, parent, 1);
    ChildCountsGrow(u.elements, dtd.LegalChildren(n.name), n.children);
    AttributeCountsGrow(u.attributes, dtd.LegalAttributes(n.name), n.attributes);
    BumpGrows(u.text, TextKey(n.hasText), 1);
  }

  lemma VisitGrows(t: Table, n: Node, parent: string, dtd: Dtd)
    requires n.Element?
    ensures TableGrows(t, Visit(t, n, parent, dtd))
  {
    VisitStores(t, n, parent, dtd);
    if n.name in t {
      VisitedGrows(t[n.name], n, parent, dtd);
    }
  }

  /** A traversal never decreases any count of any record. */
  lemma {:induction false} TallyGrows(t: Table, n: Node, parent: string, dtd: Dtd)
    ensures TableGrows(t, Tally(t, n, parent, dtd))
    decreases n
  {
    match n
    case Element(key, _, _, children) =>
      var v := Visit(t, n, parent, dtd);
      VisitGrows(t, n, parent, dtd);
      TallyChildrenGrows(v, children, key, dtd);
      TableGrowsTransitive(t, v, TallyChildren(v, children, key, dtd));
    case _ =>
  }

  lemma {:induction false} TallyChildrenGrows(t: Table, children: seq<Node>, parent: string, dtd: Dtd)
    ensures TableGrows(t, TallyChildren(t, children, parent, dtd))
    decreases children
  {
    if children != [] {
      var mid := TallyChildren(t, Front(children), parent, dtd);
      TallyChildrenGrows(t, Front(children), parent, dtd);
      TallyGrows(mid, Last(children), parent, dtd);
      TableGrowsTransitive(t, mid, Tally(mid, Last(children), parent, dtd));
    }
  }

  /** Stripping a node's comments and processing instructions leaves its child counts alone. */
  lemma {:induction false} ChildCountsStrip(c: Counter, listed: seq<string>, children: seq<Node>)
    ensures AddChildCounts(c, listed, StripAll(children)) == AddChildCounts(c, listed, children)
  {
    if listed != [] {
      ChildCountsStrip(c, listed[..|listed| - 1], children);
      CountNamedStrip(children, listed[|listed| - 1]);
    }
  }

  /** Comments and processing instructions anywhere in the tree contribute
      nothing: the table is the same as for the tree without them. */
  lemma {:induction false} TallyStrip(t: Table, n: Node, parent: string, dtd: Dtd)
    ensures Tally(t, Strip(n), parent, dtd) == Tally(t, n, parent, dtd)
    decreases n
  {
    match n
    case Element(key, _, _, children) =>
      ChildCountsStrip(RecordOf(t, key).elements, dtd.LegalChildren(key), children);
      assert Visit(t, Strip(n), parent, dtd) == Visit(t, n, parent, dtd);
      TallyChildrenStrip(Visit(t, n, parent, dtd), children, key, dtd);
    case _ =>
  }

  lemma {:induction false} TallyChildrenStrip(t: Table, children: seq<Node>, parent: string, dtd: Dtd)
    ensures TallyChildren(t, StripAll(children), parent, dtd) == TallyChildren(t, children, parent, dtd)
    decreases children
  {
    if children != [] {
      var front, last := StripAll(Front(children)), Last(children);
      TallyChildrenStrip(t, Front(children), parent, dtd);
      var mid := TallyChildren(t, front, parent, dtd);
      if last.Element? {
        var r := front + [Strip(last)];
        assert StripAll(children) == r;
        assert Front(r) == front && Last(r) == Strip(last);
        assert TallyChildren(t, r, parent, dtd) == Tally(mid, Strip(last), parent, dtd);
        TallyStrip(mid, last, parent, dtd);
      } else {
        assert StripAll(children) == front;
      }
    }
  }

  // ---------------------------------------------------------------------------
  // The corpus

  /** The number of elements named `k` over all parsed files of the corpus. */
  function CorpusOccurrences(docs: seq<Document>, k: string): nat
  {
    if docs == [] then 0
    else
      var last := docs[|docs| - 1];
      CorpusOccurrences(docs[..|docs| - 1], k) + (if last.Parsed? then Occurrences(last.root, k) else 0)
  }

  /** The parsed files of the corpus, in order. */
  function ParsedOnly(docs: seq<Document>): (r: seq<Document>)
    ensures forall i :: 0 <= i < |r| ==> r[i].Parsed?
    ensures |r| <= |docs|
  {
    if docs == [] then []
    else
      var front := ParsedOnly(docs[..|docs| - 1]);
      if docs[|docs| - 1].Parsed? then front + [docs[|docs| - 1]] else front
  }

  /** A zero-length file changes nothing: the corpus gives the same table
      as the corpus with every zero-length file left out. */
  lemma {:induction false} EmptyFilesChangeNothing(t: Table, docs: seq<Document>, dtd: Dtd)
    ensures AnalyzeAll(t, docs, dtd) == AnalyzeAll(t, ParsedOnly(docs), dtd)
  {
    if docs != [] {
      var front, last := docs[..|docs| - 1], docs[|docs| - 1];
      EmptyFilesChangeNothing(t, front, dtd);
      if last.Parsed? {
        var r := ParsedOnly(front) + [last];
        assert r[..|r| - 1] == ParsedOnly(front);
      }
    }
  }

  /** Over the corpus, each name's total grows by the number of its elements in all parsed files. */
  lemma {:induction false} CorpusTotals(t: Table, docs: seq<Document>, dtd: Dtd, k: string)
    ensures RecordOf(AnalyzeAll(t, docs, dtd), k).total == RecordOf(t, k).total + CorpusOccurrences(docs, k)
  {
    if docs != [] {
      var front, last := docs[..|docs| - 1], docs[|docs| - 1];
      CorpusTotals(t, front, dtd, k);
      if last.Parsed? {
        TallyTotals(AnalyzeAll(t, front, dtd), last.root, "", dtd, k);
      }
    }
  }

  /** The number of elements named `k` whose parent is named `p` over all
      parsed files; each root hangs from the document node, whose name is empty. */
  function CorpusEdges(docs: seq<Document>, k: string, p: string): nat
  {
    if docs == [] then 0
    else
      var last := docs[|docs| - 1];
      CorpusEdges(docs[..|docs| - 1], k, p) + (if last.Parsed? then Edges(last.root, "", k, p) else 0)
  }

  /** Over the corpus, each name's count under parent name `p` grows by the
      number of its elements under a parent named `p` in all parsed files. */
  lemma {:induction false} CorpusParents(t: Table, docs: seq<Document>, dtd: Dtd, k: string, p: string)
    ensures Get(RecordOf(AnalyzeAll(t, docs, dtd), k).parents, p) == Get(RecordOf(t, k).parents, p) + CorpusEdges(docs, k, p)
  {
    if docs != [] {
      var front, last := docs[..|docs| - 1], docs[|docs| - 1];
      CorpusParents(t, front, dtd, k, p);
      if last.Parsed? {
        TallyParents(AnalyzeAll(t, front, dtd), last.root, "", dtd, k, p);
      }
    }
  }

  /** The invariants hold of the report for every corpus, starting from any
      table where they hold. */
  lemma {:induction false} CorpusConsistent(t: Table, docs: seq<Document>, dtd: Dtd)
    requires Consistent(t)
    ensures Consistent(AnalyzeAll(t, docs, dtd))
  {
    if docs != [] {
      var front, last := docs[..|docs| - 1], docs[|docs| - 1];
      CorpusConsistent(t, front, dtd);
      if last.Parsed? {
        TallyConsistent(AnalyzeAll(t, front, dtd), last.root, "", dtd);
      }
    }
  }

  /** With a DTD that declares no attribute twice for one element, no
      attribute count exceeds its element's total after any corpus. */
  lemma {:induction false} CorpusAttributesWithin(t: Table, docs: seq<Document>, dtd: Dtd)
    requires dtd.DistinctAttributes()
    requires AttributesWithin(t)
    ensures AttributesWithin(AnalyzeAll(t, docs, dtd))
  {
    if docs != [] {
      var front, last := docs[..|docs| - 1], docs[|docs| - 1];
      CorpusAttributesWithin(t, front, dtd);
      if last.Parsed? {
        TallyAttributesWithin(AnalyzeAll(t, front, dtd), last.root, "", dtd);
      }
    }
  }

  // ---------------------------------------------------------------------------
  // Order: the final report does not depend on the order of the walks

  /** Counting the children of two elements against the same DTD list gives
      the same counts in either order. */
  lemma ChildCountsCommute(c: Counter, listed: seq<string>, x: seq<Node>, y: seq<Node>)
    ensures AddChildCounts(AddChildCounts(c, listed, x), listed, y) == AddChildCounts(AddChildCounts(c, listed, y), listed, x)
  {
    var cx, cy := AddChildCounts(c, listed, x), AddChildCounts(c, listed, y);
    var xy, yx := AddChildCounts(cx, listed, y), AddChildCounts(cy, listed, x);
    forall k
      ensures Get(xy, k) == Get(yx, k)
    {
      ChildCountsAdded(c, listed, x, k);
      ChildCountsAdded(cx, listed, y, k);
      ChildCountsAdded(c, listed, y, k);
      ChildCountsAdded(cy, listed, x, k);
    }
    assert xy.Keys == yx.Keys;
    CountersEqual(xy, yx);
  }

  /** Counting the attributes of two elements against the same DTD list gives
      the same counts in either order. */
  lemma AttributeCountsCommute(c: Counter, listed: seq<string>, x: set<string>, y: set<string>)
    ensures AddAttributeCounts(AddAttributeCounts(c, listed, x), listed, y) == AddAttributeCounts(AddAttributeCounts(c, listed, y), listed, x)
  {
    var cx, cy := AddAttributeCounts(c, listed, x), AddAttributeCounts(c, listed, y);
    var xy, yx := AddAttributeCounts(cx, listed, y), AddAttributeCounts(cy, listed, x);
    forall k
      ensures Get(xy, k) == Get(yx, k)
    {
      AttributeCountsAdded(c, listed, x, k);
      AttributeCountsAdded(cx, listed, y, k);
      AttributeCountsAdded(c, listed, y, k);
      AttributeCountsAdded(cy, listed, x, k);
    }
    assert xy.Keys == yx.Keys;
    CountersEqual(xy, yx);
  }

  /** Two visits of elements with the same name update its record to the same
      value in either order. */
  lemma VisitedCommutes(u: Usage, a: Node, pa: string, b: Node, pb: string, dtd: Dtd)
    requires a.Element? && b.Element? && a.name == b.name
    ensures Visited(Visited(u, a, pa, dtd), b, pb, dtd) == Visited(Visited(u, b, pb, dtd), a, pa, dtd)
  {
    BumpCommutes(u.parents, pa, 1, pb, 1);
    ChildCountsCommute(u.elements, dtd.LegalChildren(a.name), a.children, b.children);
    AttributeCountsCommute(u.attributes, dtd.LegalAttributes(a.name), a.attributes, b.attributes);
    BumpCommutes(u.text, TextKey(a.hasText), 1, TextKey(b.hasText), 1);
  }

  /** Visiting an element stores its updated record under its name and changes nothing else. */
  lemma VisitStores(t: Table, a: Node, pa: string, dtd: Dtd)
    requires a.Element?
    ensures Visit(t, a, pa, dtd) == t[a.name := Visited(RecordOf(t, a.name), a, pa, dtd)]
  {
  }

  /** Two visits of elements with the same name give the same table in either order. */
  lemma VisitCommutesSameName(t: Table, a: Node, pa: string, b: Node, pb: string, dtd: Dtd)
    requires a.Element? && b.Element? && a.name == b.name
    ensures Visit(Visit(t, a, pa, dtd), b, pb, dtd) == Visit(Visit(t, b, pb, dtd), a, pa, dtd)
  {
    var r := RecordOf(t, a.name);
    VisitedCommutes(r, a, pa, b, pb, dtd);
    AfterVisit(t, a, pa, b, pb, dtd);
    AfterVisit(t, b, pb, a, pa, dtd);
  }

  /** Visiting `b` after `a`, both of one name, stores the twice-updated record. */
  lemma AfterVisit(t: Table, a: Node, pa: string, b: Node, pb: string, dtd: Dtd)
    requires a.Element? && b.Element? && a.name == b.name
    ensures Visit(Visit(t, a, pa, dtd), b, pb, dtd) == t[a.name := Visited(Visited(RecordOf(t, a.name), a, pa, dtd), b, pb, dtd)]
  {
    var va := Visited(RecordOf(t, a.name), a, pa, dtd);
    var ta := Visit(t, a, pa, dtd);
    VisitStores(t, a, pa, dtd);
    assert RecordOf(ta, b.name) == va;
    VisitStores(ta, b, pb, dtd);
  }

  /** Two visits of elements with different names give the same table in either order. */
  lemma VisitCommutesOtherNames(t: Table, a: Node, pa: string, b: Node, pb: string, dtd: Dtd)
    requires a.Element? && b.Element? && a.name != b.name
    ensures Visit(Visit(t, a, pa, dtd), b, pb, dtd) == Visit(Visit(t, b, pb, dtd), a, pa, dtd)
  {
    var va, vb := Visited(RecordOf(t, a.name), a, pa, dtd), Visited(RecordOf(t, b.name), b, pb, dtd);
    var ta, tb := t[a.name := va], t[b.name := vb];
    VisitStores(t, a, pa, dtd);
    VisitStores(t, b, pb, dtd);
    assert RecordOf(ta, b.name) == RecordOf(t, b.name);
    assert RecordOf(tb, a.name) == RecordOf(t, a.name);
    VisitStores(ta, b, pb, dtd);
    VisitStores(tb, a, pa, dtd);
    UpdatesCommute(t, a.name, va, b.name, vb);
  }

  /** Storing records under two different names gives the same table in either order. */
  lemma UpdatesCommute(t: Table, j: string, x: Usage, k: string, y: Usage)
    requires j != k
    ensures t[j := x][k := y] == t[k := y][j := x]
  {
  }

  /** Two element visits give the same table in either order. */
  lemma VisitCommutes(t: Table, a: Node, pa: string, b: Node, pb: string, dtd: Dtd)
    requires a.Element? && b.Element?
    ensures Visit(Visit(t, a, pa, dtd), b, pb, dtd) == Visit(Visit(t, b, pb, dtd), a, pa, dtd)
  {
    if a.name == b.name {
      VisitCommutesSameName(t, a, pa, b, pb, dtd);
    } else {
      VisitCommutesOtherNames(t, a, pa, b, pb, dtd);
    }
  }

  /** An element visit and a whole walk give the same table in either order. */
  lemma {:induction false} VisitTallyCommute(t: Table, a: Node, pa: string, n: Node, q: string, dtd: Dtd)
    requires a.Element?
    ensures Tally(Visit(t, a, pa, dtd), n, q, dtd) == Visit(Tally(t, n, q, dtd), a, pa, dtd)
    decreases n
  {
    match n
    case Element(key, _, _, children) =>
      VisitCommutes(t, a, pa, n, q, dtd);
      VisitTallyChildrenCommute(Visit(t, n, q, dtd), a, pa, children, key, dtd);
    case _ =>
  }

  lemma {:induction false} VisitTallyChildrenCommute(t: Table, a: Node, pa: string, children: seq<Node>, parent: string, dtd: Dtd)
    requires a.Element?
    ensures TallyChildren(Visit(t, a, pa, dtd), children, parent, dtd) == Visit(TallyChildren(t, children, parent, dtd), a, pa, dtd)
    decreases children
  {
    if children != [] {
      VisitTallyChildrenCommute(t, a, pa, Front(children), parent, dtd);
      VisitTallyCommute(TallyChildren(t, Front(children), parent, dtd), a, pa, Last(children), parent, dtd);
    }
  }

  /** Walking two trees gives the same final table in either order: only the
      intermediate tables depend on the order. */
  lemma {:induction false} TallyCommutes(t: Table, m: Node, p: string, n: Node, q: string, dtd: Dtd)
    ensures Tally(Tally(t, m, p, dtd), n, q, dtd) == Tally(Tally(t, n, q, dtd), m, p, dtd)
    decreases m
  {
    match m
    case Element(key, _, _, children) =>
      TallyChildrenTallyCommute(Visit(t, m, p, dtd), children, key, n, q, dtd);
      VisitTallyCommute(t, m, p, n, q, dtd);
    case _ =>
  }

  lemma {:induction false} TallyChildrenTallyCommute(t: Table, children: seq<Node>, parent: string, n: Node, q: string, dtd: Dtd)
    ensures Tally(TallyChildren(t, children, parent, dtd), n, q, dtd) == TallyChildren(Tally(t, n, q, dtd), children, parent, dtd)
    decreases children
  {
    if children != [] {
      TallyCommutes(TallyChildren(t, Front(children), parent, dtd), Last(children), parent, n, q, dtd);
      TallyChildrenTallyCommute(t, Front(children), parent, n, q, dtd);
    }
  }

  /** Two files give the same table in either order. */
  lemma AnalyzeCommutes(t: Table, x: Document, y: Document, dtd: Dtd)
    ensures Analyze(Analyze(t, x, dtd), y, dtd) == Analyze(Analyze(t, y, dtd), x, dtd)
  {
    if x.Parsed? && y.Parsed? {
      TallyCommutes(t, x.root, "", y.root, "", dtd);
    }
  }

  /** A corpus split in two is the second part analyzed after the first. */
  lemma {:induction false} AnalyzeAllAppend(t: Table, a: seq<Document>, b: seq<Document>, dtd: Dtd)
    ensures AnalyzeAll(t, a + b, dtd) == AnalyzeAll(AnalyzeAll(t, a, dtd), b, dtd)
  {
    if b == [] {
      assert a + b == a;
    } else {
      var front := b[..|b| - 1];
      assert (a + b)[..|a + b| - 1] == a + front;
      AnalyzeAllAppend(t, a, front, dtd);
    }
  }

  /** One file analyzed after a corpus gives the same table as before it. */
  lemma {:induction false} AnalyzeAfterAll(t: Table, x: Document, docs: seq<Document>, dtd: Dtd)
    ensures Analyze(AnalyzeAll(t, docs, dtd), x, dtd) == AnalyzeAll(Analyze(t, x, dtd), docs, dtd)
  {
    if docs != [] {
      var front, last := docs[..|docs| - 1], docs[|docs| - 1];
      AnalyzeCommutes(AnalyzeAll(t, front, dtd), last, x, dtd);
      AnalyzeAfterAll(t, x, front, dtd);
    }
  }

  /** A file may move to the end of the corpus without changing the report. */
  lemma MoveToEnd(t: Table, a: seq<Document>, x: Document, b: seq<Document>, dtd: Dtd)
    ensures AnalyzeAll(t, a + [x] + b, dtd) == AnalyzeAll(t, a + b + [x], dtd)
  {
    var s := AnalyzeAll(t, a, dtd);
    AnalyzeAllAppend(t, a + [x], b, dtd);
    assert (a + [x])[..|a|] == a;
    AnalyzeAfterAll(s, x, b, dtd);
    AnalyzeAllAppend(t, a, b, dtd);
    assert (a + b + [x])[..|a + b|] == a + b;
  }

  /** Taking the same file out of two orderings of one corpus leaves two
      orderings of the rest. */
  lemma RemoveLast(docs: seq<Document>, a: seq<Document>, y: Document, b: seq<Document>, others: seq<Document>, front: seq<Document>)
    requires docs == a + [y] + b && others == front + [y]
    requires multiset(docs) == multiset(others)
    ensures multiset(a + b) == multiset(front)
  {
    calc {
      multiset(a + b);
      multiset(a) + multiset(b);
      multiset(a) + multiset{y} + multiset(b) - multiset{y};
      { assert multiset(docs) == multiset(a) + multiset{y} + multiset(b); }
      multiset(docs) - multiset{y};
      multiset(others) - multiset{y};
      { assert multiset(others) == multiset(front) + multiset{y}; }
      multiset(front) + multiset{y} - multiset{y};
      multiset(front);
    }
  }

  /** A corpus with one more file at its end. */
  lemma AnalyzeAllSnoc(t: Table, docs: seq<Document>, y: Document, dtd: Dtd)
    ensures AnalyzeAll(t, docs + [y], dtd) == Analyze(AnalyzeAll(t, docs, dtd), y, dtd)
  {
    var s := docs + [y];
    assert s[..|s| - 1] == docs;
  }

  /** The report does not depend on the order in which the files of the corpus
      are found: any reordering of the same files gives the same table. */
  lemma {:induction false} CorpusOrderIrrelevant(t: Table, docs: seq<Document>, others: seq<Document>, dtd: Dtd)
    requires multiset(docs) == multiset(others)
    ensures AnalyzeAll(t, docs, dtd) == AnalyzeAll(t, others, dtd)
    decreases |others|
  {
    if others == [] {
      assert |docs| == |multiset(docs)| == 0;
    } else {
      var front, y := others[..|others| - 1], others[|others| - 1];
      assert others == front + [y];
      assert y in multiset(docs);
      var i :| 0 <= i < |docs| && docs[i] == y;
      var a, b := docs[..i], docs[i + 1..];
      assert docs == a + [y] + b;
      MoveToEnd(t, a, y, b, dtd);
      RemoveLast(docs, a, y, b, others, front);
      CorpusOrderIrrelevant(t, a + b, front, dtd);
      AnalyzeAllSnoc(t, a + b, y, dtd);
      AnalyzeAllSnoc(t, front, y, dtd);
    }
  }
}
