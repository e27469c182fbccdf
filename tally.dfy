/** The tag-usage statistics and what one traversal does to them, as pure
    functions. The imperative traversal in module `Report` is proved to compute
    exactly `Tally`; the lemmas in module `TallyFacts` say what `Tally` means. */
module TagUse {
  import opened Counters
  import opened Xml
  import opened Schema

  /** The two keys of the text-presence counter. */
  const PCDATA: string := "PCDATA"
  const NoText: string := "no text()"

  /** The statistics kept for one element name: how often it was seen, under
      which parent names, how many of each DTD-listed child element it had, how
      many of each DTD-declared attribute it carried, and how often it had
      direct text. */
  datatype Usage = Usage(total: nat, parents: Counter, elements: Counter, attributes: Counter, text: Counter)

  /** The record `setdefault` creates for a name seen for the first time. */
  const Fresh: Usage := Usage(0, map[], map[], map[], map[])

  /** The statistics table, keyed by element local name. */
  type Table = map<string, Usage>

  function RecordOf(t: Table, name: string): Usage
  {
    if name in t then t[name] else Fresh
  }

  function TextKey(hasText: bool): string
  {
    if hasText then PCDATA else NoText
  }

  /** For each listed child name, in order, add the number of direct children
      with that name. */
  function AddChildCounts(c: Counter, listed: seq<string>, children: seq<Node>): (r: Counter)
    ensures forall k :: k in r <==> k in c || k in listed
  {
    if listed == [] then c
    else
      var front, k := listed[..|listed| - 1], listed[|listed| - 1];
      Bump(AddChildCounts(c, front, children), k, CountNamed(children, k))
  }

  /** For each listed attribute name, in order, add 1 if the node carries it
      and 0 otherwise. */
  function AddAttributeCounts(c: Counter, listed: seq<string>, present: set<string>): (r: Counter)
    ensures forall k :: k in r <==> k in c || k in listed
  {
    if listed == [] then c
    else
      var front, k := listed[..|listed| - 1], listed[|listed| - 1];
      Bump(AddAttributeCounts(c, front, present), k, if k in present then 1 else 0)
  }

  /** What visiting element `n` does to its own record `u`; `parent` is the
      local name of the node `n` hangs from. Its effect is spelled out by
      `TallyFacts.VisitRecord`. */
  function Visited(u: Usage, n: Node, parent: string, dtd: Dtd): (r: Usage)
    requires n.Element?
    ensures r.total == u.total + 1
    ensures r.parents.Keys == u.parents.Keys + {parent}
    ensures Get(r.parents, parent) == Get(u.parents, parent) + 1
    ensures forall c :: c in r.elements <==> c in u.elements || c in dtd.LegalChildren(n.name)
    ensures forall a :: a in r.attributes <==> a in u.attributes || a in dtd.LegalAttributes(n.name)
    ensures r.text.Keys == u.text.Keys + {TextKey(n.hasText)}
    ensures Get(r.text, TextKey(n.hasText)) == Get(u.text, TextKey(n.hasText)) + 1
  {
    Usage(
      u.total + 1,
      Bump(u.parents, parent, 1),
      AddChildCounts(u.elements, dtd.LegalChildren(n.name), n.children),
      AddAttributeCounts(u.attributes, dtd.LegalAttributes(n.name), n.attributes),
      Bump(u.text, TextKey(n.hasText), 1))
  }

  /** What visiting one element does to the table, before its children are
      visited: its record, a zeroed one if the name is new, is updated and
      every other record is left alone. */
  function Visit(t: Table, n: Node, parent: string, dtd: Dtd): (r: Table)
    requires n.Element?
    ensures r.Keys == t.Keys + {n.name}
    ensures forall k :: k in t && k != n.name ==> r[k] == t[k]
  {
    t[n.name := Visited(RecordOf(t, n.name), n, parent, dtd)]
  }

  /** The whole pre-order traversal of the tree rooted at `n`. Comments and
      processing instructions are skipped. */
  function Tally(t: Table, n: Node, parent: string, dtd: Dtd): (r: Table)
    ensures r.Keys == t.Keys + Names(n)
    decreases n
  {
    match n
    case Element(key, _, _, children) => TallyChildren(Visit(t, n, parent, dtd), children, key, dtd)
    case _ => t
  }

  /** The traversal of a node's children, in document order. */
  function TallyChildren(t: Table, children: seq<Node>, parent: string, dtd: Dtd): (r: Table)
    ensures r.Keys == t.Keys + NamesIn(children)
    decreases children
  {
    if children == [] then t
    else Tally(TallyChildren(t, Front(children), parent, dtd), Last(children), parent, dtd)
  }

  /** A file of the corpus: a zero-length file, or the root element of a parsed document. */
  datatype Document = EmptyFile | Parsed(root: Node)

  /** The element names in a file; none in a zero-length file. */
  function DocumentNames(doc: Document): set<string>
  {
    if doc.Parsed? then Names(doc.root) else {}
  }

  /** The element names in all files of the corpus. */
  function CorpusNames(docs: seq<Document>): set<string>
  {
    if docs == [] then {}
    else CorpusNames(docs[..|docs| - 1]) + DocumentNames(docs[|docs| - 1])
  }

  /** One file: a zero-length file is skipped; otherwise the root element is
      tallied with the document node, whose local name is empty, as its parent. */
  function Analyze(t: Table, doc: Document, dtd: Dtd): (r: Table)
    ensures r.Keys == t.Keys + DocumentNames(doc)
    ensures doc.EmptyFile? ==> r == t
  {
    match doc
    case EmptyFile => t
    case Parsed(root) => Tally(t, root, "", dtd)
  }

  /** The files of the corpus, one after another, into the same table. */
  function AnalyzeAll(t: Table, docs: seq<Document>, dtd: Dtd): (r: Table)
    ensures r.Keys == t.Keys + CorpusNames(docs)
  {
    if docs == [] then t
    else Analyze(AnalyzeAll(t, docs[..|docs| - 1], dtd), docs[|docs| - 1], dtd)
  }
}
