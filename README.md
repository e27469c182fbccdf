# EAD tag-usage tally, modelled in Dafny

`ead_tag_use.py` reports how a corpus of Encoded Archival Description (EAD)
finding aids uses its tags. It walks every parsed document in pre-order and
keeps one statistics table for the whole run. The table maps an element's local
name to a usage record:

- the number of times the element was seen;
- a counter of the local names of its parents (the root hangs from the document
  node, whose local name is empty);
- a counter of child elements, one entry per child name that the DTD's expanded
  content model lists for the element;
- a counter of attributes, one entry per attribute that the DTD's attribute-list
  declaration names for the element;
- a counter with the keys `PCDATA` and `no text()`.

This project models that tally, `count_elements`, and proves what its counts
mean.

Modules:

- `Counters` (`counters.dfy`) models Python's `Counter`. `c[k] += n` stores `k`
  even when `n` is 0. `Sum` adds up a counter.
- `Xml` (`xml.dfy`) holds the parsed tree. A node is an element (local name,
  set of attribute names, whether it has a direct `text()` child, children), a
  comment or a processing instruction. The module also counts names in a tree.
- `Schema` (`schema.dfy`) holds the DTD's two lookups. Each maps an element name
  to a *sequence* of names. An undeclared name gets the empty sequence. A name
  listed twice is counted twice, as the loops at lines 91-94 do.
- `TagUse` (`tally.dfy`) gives the table and one traversal as pure functions.
  `Visited` is one element's record update, `Visit` puts it in the table, and
  `Tally`/`TallyChildren` are the pre-order walk. `Analyze`/`AnalyzeAll` cover
  one file and a list of files.
- `TallyFacts` (`facts.dfy`) proves what one visit adds and the invariants the
  walk keeps. It also proves what a whole tree or corpus adds to each name's
  total and parent counts, and that comments and processing instructions count
  for nothing. Finally it proves that order does not matter for the final
  report: not the order of two walks over separate trees, and not the order in
  which the directory walk finds the files. Only the intermediate tables differ.
- `Report` (`report.dfy`) is the program's own form. Class `Stats` owns the
  table, and its recursive method `CountElements` updates it one element at a
  time. The loops over the DTD's child and attribute names are methods of their
  own. Each method is proved to compute the corresponding `TagUse` function.
- `Examples` (`examples.dfy`) works through two small documents.

Details of `ead_tag_use.py` that the model keeps:

- Both DTD queries (lines 76 and 79) run afresh for every element; nothing is
  cached.
- Direct text is `boolean(./text())` (line 73). This is true for any text-node
  child, including whitespace-only text and text that follows a child element.
- A DTD-listed child or attribute that never occurs still gets an explicit 0
  entry, because `Counter[k] += 0` stores `k` (lines 92 and 94).
- Only zero-length files are skipped (line 56). A malformed file raises out of
  the XML parser.

## Model

| member | source | states |
|---|---|---|
| `Counters.Bump` | ead_tag_use.py:87-96 | `c[k] += n` stores `k`, raises its count by exactly `n` and leaves every other count alone |
| `Counters.Get` | ead_tag_use.py:87-96 | reading a Counter gives the stored count, and 0 for a name never stored |
| `Counters.SumBump` | ead_tag_use.py:89 | adding `n` under one key adds exactly `n` to the counter's sum |
| `Xml.CountNamed` | ead_tag_use.py:92 | the number of direct element children with a given name is at most the number of children, and 0 exactly when no child element has that name |
| `Xml.CountNamedStrip` | ead_tag_use.py:92 | comments and processing instructions among the children do not change that count |
| `Schema.Multiplicity` | ead_tag_use.py:76-79 | a name's repetition count in a DTD list is 0 exactly when the list does not contain it |
| `Schema.Dtd.LegalChildren` | ead_tag_use.py:76 | the child names listed by the element's expanded content model, with repetitions; none for an undeclared element |
| `Schema.Dtd.LegalAttributes` | ead_tag_use.py:79 | the attribute names of the element's attribute-list declaration; none for an undeclared element |
| `TagUse.AddChildCounts` | ead_tag_use.py:91-92 | the child counter gains entries for exactly the DTD-listed names; no other name is added |
| `TagUse.AddAttributeCounts` | ead_tag_use.py:93-94 | the attribute counter gains entries for exactly the DTD-declared names, present on the node or not |
| `TagUse.Visited` | ead_tag_use.py:82-96 | one element's record update: total +1, the parent name stored with its count +1, every DTD-listed child and attribute name stored, and the element's text key stored with its count +1 |
| `TagUse.Visit` | ead_tag_use.py:82-96 | visiting an element adds its name to the table and leaves every other record untouched |
| `TagUse.Tally` | ead_tag_use.py:62-101 | after a walk, the table's names are the old names plus the names of the elements in the tree |
| `TagUse.TallyChildren` | ead_tag_use.py:99-101 | after walking a child list, the names are the old names plus those in the children's subtrees |
| `TagUse.Analyze` | ead_tag_use.py:51-60 | one file adds exactly the element names of its tree to the table; a zero-length file leaves the table unchanged |
| `TagUse.AnalyzeAll` | ead_tag_use.py:40-47 | a corpus adds exactly the element names of all its parsed files to the table |
| `TallyFacts.ChildCountsAdded` | ead_tag_use.py:91-92 | each child name's count grows by the number of direct children with that name, once per time the DTD lists it; unlisted names grow by 0 |
| `TallyFacts.AttributeCountsAdded` | ead_tag_use.py:93-94 | each declared attribute's count grows by 1 per listing if the node carries it, by 0 if not; undeclared names grow by 0 |
| `TallyFacts.VisitRecord` | ead_tag_use.py:70-96 | one visit starts from a zeroed record if the name is new. The total grows by 1 and the parent's count by 1, with other parents unchanged. Child and attribute counts grow as listed by the DTD; an undeclared name's child and attribute counters stay unchanged. Exactly one of `PCDATA`/`no text()` grows by 1 |
| `TallyFacts.TextCountsSumToTotal` | ead_tag_use.py:73-96 | when the text counter holds only its two keys and they add up to the total, its sum is the total |
| `TallyFacts.VisitConsistent` | ead_tag_use.py:87-96 | a visit keeps "total = sum of parent counts" and "total = `PCDATA` + `no text()`" for every record |
| `TallyFacts.VisitAttributesWithin` | ead_tag_use.py:93-94 | with no attribute declared twice, a visit keeps every attribute count at most its element's total |
| `TallyFacts.TallyConsistent` | ead_tag_use.py:62-101 | a whole walk keeps both invariants of `VisitConsistent` |
| `TallyFacts.TallyChildrenConsistent` | ead_tag_use.py:99-101 | walking a child list keeps both invariants |
| `TallyFacts.TallyAttributesWithin` | ead_tag_use.py:79-94 | with no attribute declared twice, a whole walk keeps attribute counts at most the total |
| `TallyFacts.TallyChildrenAttributesWithin` | ead_tag_use.py:99-101 | the same for a child list |
| `TallyFacts.TallyTotals` | ead_tag_use.py:82-101 | each name's total grows by exactly the number of elements with that name in the tree |
| `TallyFacts.TallyChildrenTotals` | ead_tag_use.py:99-101 | the same for a child list |
| `TallyFacts.TallyNames` | ead_tag_use.py:82-101 | a name is in the table after a walk exactly when it was before or some element of the tree has it; a new name's total is its number of elements in the tree |
| `TallyFacts.TallyParents` | ead_tag_use.py:71-101 | each name's count under parent name `p` grows by exactly the number of its elements whose parent is named `p` |
| `TallyFacts.TallyChildrenParents` | ead_tag_use.py:99-101 | the same for a child list |
| `TallyFacts.TallyUntouched` | ead_tag_use.py:82-101 | a name that does not occur in the tree keeps its record exactly, or stays absent |
| `TallyFacts.TallyChildrenUntouched` | ead_tag_use.py:99-101 | the same for a child list |
| `TallyFacts.VisitedGrows` | ead_tag_use.py:87-96 | one record update removes no name and lowers no count in any of its counters |
| `TallyFacts.ChildCountsGrow` | ead_tag_use.py:91-92 | counting children removes no name and lowers no count |
| `TallyFacts.AttributeCountsGrow` | ead_tag_use.py:93-94 | counting attributes removes no name and lowers no count |
| `TallyFacts.VisitGrows` | ead_tag_use.py:87-96 | a visit removes no record, no key and no count |
| `TallyFacts.TallyGrows` | ead_tag_use.py:87-101 | a whole walk removes no record, no key and no count |
| `TallyFacts.TallyChildrenGrows` | ead_tag_use.py:99-101 | the same for a child list |
| `TallyFacts.ChildCountsStrip` | ead_tag_use.py:91-92 | a node's child counts are the same with its comments and processing instructions removed |
| `TallyFacts.TallyStrip` | ead_tag_use.py:65-67 | comments and processing instructions anywhere in a tree contribute nothing: the table equals that of the tree without them |
| `TallyFacts.TallyChildrenStrip` | ead_tag_use.py:99-101 | the same for a child list |
| `TallyFacts.EmptyFilesChangeNothing` | ead_tag_use.py:54-57 | a corpus gives the same table as the corpus with its zero-length files left out |
| `TallyFacts.CorpusTotals` | ead_tag_use.py:40-47 | over a corpus, each name's total grows by its number of elements in all parsed files |
| `TallyFacts.CorpusParents` | ead_tag_use.py:40-47 | over a corpus, each name's count under parent name `p` grows by its number of elements under a parent named `p` in all parsed files, each root counting under the empty name |
| `TallyFacts.CorpusConsistent` | ead_tag_use.py:40-47 | both invariants hold of the report after any corpus, starting from a table where they hold |
| `TallyFacts.CorpusAttributesWithin` | ead_tag_use.py:40-47 | with no attribute declared twice, attribute counts stay at most the total over any corpus |
| `TallyFacts.ChildCountsCommute` | ead_tag_use.py:91-92 | counting the children of two elements against the same DTD list gives the same counter in either order |
| `TallyFacts.AttributeCountsCommute` | ead_tag_use.py:93-94 | counting the attributes of two elements against the same DTD list gives the same counter in either order |
| `TallyFacts.VisitedCommutes` | ead_tag_use.py:82-96 | two updates of one name's record give the same record in either order |
| `TallyFacts.VisitCommutes` | ead_tag_use.py:82-96 | two element visits give the same table in either order |
| `TallyFacts.VisitTallyCommute` | ead_tag_use.py:62-101 | an element visit and a whole walk give the same table in either order |
| `TallyFacts.VisitTallyChildrenCommute` | ead_tag_use.py:99-101 | the same for a walk over a child list |
| `TallyFacts.TallyCommutes` | ead_tag_use.py:62-101 | walking two trees gives the same final table in either order |
| `TallyFacts.TallyChildrenTallyCommute` | ead_tag_use.py:99-101 | a walk over a child list and a walk over another tree give the same table in either order |
| `TallyFacts.AnalyzeCommutes` | ead_tag_use.py:51-60 | two files give the same table in either order |
| `TallyFacts.AnalyzeAllAppend` | ead_tag_use.py:40-47 | a corpus split in two is its second part analyzed after its first |
| `TallyFacts.AnalyzeAfterAll` | ead_tag_use.py:40-47 | one file analyzed after a corpus gives the same table as before it |
| `TallyFacts.MoveToEnd` | ead_tag_use.py:40-47 | moving one file to the end of the corpus does not change the report |
| `TallyFacts.CorpusOrderIrrelevant` | ead_tag_use.py:40-47 | any reordering of the same files, for example another directory-walk order, gives the same report |
| `Report.Stats.constructor` | ead_tag_use.py:35 | the run starts from the empty table, which satisfies the consistency invariants and the attribute bound |
| `Report.Stats.VisitElement` | ead_tag_use.py:69-96 | the in-place update of one element's record, after `setdefault`, computes `Visit` |
| `Report.Stats.CountElements` | ead_tag_use.py:62-101 | the recursive in-place walk computes `Tally` of the old table. It keeps the consistency invariants, keeps the attribute bound when no attribute is declared twice, and removes no count |
| `Report.Stats.AnalyzeFile` | ead_tag_use.py:51-60 | a zero-length file leaves the table unchanged; a parsed one is walked from its root under the empty parent name |
| `Report.Stats.AnalyzeCorpus` | ead_tag_use.py:40-47 | the per-file loop computes `AnalyzeAll`, so each total grows by that name's element count over all parsed files. It keeps the consistency invariants, and keeps the attribute bound when no attribute is declared twice |
| `Report.UpdateRecord` | ead_tag_use.py:82-96 | the field-by-field record update computes `Visited` |
| `Report.CountChildElements` | ead_tag_use.py:91-92 | the loop over DTD child names computes `AddChildCounts` |
| `Report.CountAttributes` | ead_tag_use.py:93-94 | the loop over DTD attribute names computes `AddAttributeCounts` |
| `Examples.SmallDocumentRoot` | ead_tag_use.py:62-101 | for `<a><b/><b/><c/></a>` with `a` allowed `b` and `c`, `a` is seen once under the empty name, with 2 `b`, 1 `c` and `no text()` once |
| `Examples.SmallDocumentChild` | ead_tag_use.py:62-101 | in the same document `b` is seen twice, both times under `a` |
| `Examples.RepeatedAttributeCountedTwice` | ead_tag_use.py:93-94 | an attribute that the DTD declares twice for an element is counted twice on one occurrence, above the element's total |

## Left out

- `main` (lines 22-49): command-line parsing, the directory walk with its
  `*.xml` filter, and the report printing are I/O. Only the per-file loop is
  modelled, by `Report.Stats.AnalyzeCorpus` over a given list of files.
- `analyze_file` (lines 51-60): file size and parsing are I/O and the XML
  library. A file arrives as `EmptyFile` or as its parsed root element. A
  malformed file, which raises in the source, has no counterpart.
- The DTD load at line 19 and the XPath engine are foreign calls.
  - The queries at lines 76 and 79 are the two maps of `Schema.Dtd`.
  - `len(node.xpath(name))` at line 92 is `Xml.CountNamed`.
  - `len(node.xpath('@' + name))` at line 94 is membership in the node's
    attribute set.
  - `local-name(..)` at line 71 is the `parent` argument, passed down by the
    recursion.
- Namespaces: the model assumes that no element is in a namespace and counts
  children by local name. The unprefixed name test at line 92 matches only
  children in no namespace. Under a default namespace, such as
  `xmlns="urn:isbn:1-931666-22-9"`, the source therefore adds 0 for every
  listed child, while `Xml.CountNamed` counts them. Unprefixed attributes are in
  no namespace, so line 94 is not affected.
- Other node kinds among the children: line 66 skips only comments and
  processing instructions. The XML library can also yield an entity-reference
  node, for example for an undeclared `&mdash;`. Lines 70-101 would tally such a
  node under the empty name. `Xml.Node` has no such case.
- `Report.Stats.VisitElement`: Python updates one shared record object through
  `stats[key]`. The model updates a record value field by field and stores it
  back into the table, so aliasing of that record object is not modelled.
- `TallyFacts.TallyAttributesWithin`: the bound "attribute count at most total"
  is proved only for a DTD that declares no attribute twice for one element.
  Without that, the source counts a repeated declaration twice, as
  `Examples.RepeatedAttributeCountedTwice` shows.
