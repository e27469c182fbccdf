/** The parsed document as the tag-usage tally sees it. Element names are
    local names, and no element is in a namespace. A node's attributes are the
    names an unprefixed `@name` test selects, that is, its attributes in no
    namespace. */
module Xml {

  datatype Node =
    | Element(name: string, attributes: set<string>, hasText: bool, children: seq<Node>)
    | Comment
    | ProcessingInstruction

  /** All but the last of a non-empty child list. */
  function Front(s: seq<Node>): seq<Node>
    requires s != []
  {
    s[..|s| - 1]
  }

  /** The last of a non-empty child list. */
  function Last(s: seq<Node>): Node
    requires s != []
  {
    s[|s| - 1]
  }

  /** The number of direct children that are elements named `name`: the
      length of the node-set that the relative location path `name` selects. */
  function CountNamed(children: seq<Node>, name: string): (r: nat)
    ensures r <= |children|
    ensures r == 0 <==> forall i :: 0 <= i < |children| ==> !(children[i].Element? && children[i].name == name)
  {
    if children == [] then 0
    else CountNamed(Front(children), name) + (if Last(children).Element? && Last(children).name == name then 1 else 0)
  }

  /** The number of element nodes named `name` in the tree rooted at `n`. */
  function Occurrences(n: Node, name: string): nat
  {
    match n
    case Element(key, _, _, children) => (if key == name then 1 else 0) + OccurrencesIn(children, name)
    case _ => 0
  }

  function OccurrencesIn(children: seq<Node>, name: string): nat
  {
    if children == [] then 0
    else OccurrencesIn(Front(children), name) + Occurrences(Last(children), name)
  }

  /** The number of element nodes named `name` whose parent is named `parent`;
      `above` is the name of the node that `n` itself hangs from. */
  function Edges(n: Node, above: string, name: string, parent: string): nat
  {
    match n
    case Element(key, _, _, children) =>
      (if key == name && above == parent then 1 else 0) + EdgesIn(children, key, name, parent)
    case _ => 0
  }

  function EdgesIn(children: seq<Node>, above: string, name: string, parent: string): nat
  {
    if children == [] then 0
    else EdgesIn(Front(children), above, name, parent) + Edges(Last(children), above, name, parent)
  }

  /** The names of all element nodes in the tree rooted at `n`. */
  function Names(n: Node): set<string>
  {
    match n
    case Element(key, _, _, children) => {key} + NamesIn(children)
    case _ => {}
  }

  function NamesIn(children: seq<Node>): set<string>
  {
    if children == [] then {}
    else NamesIn(Front(children)) + Names(Last(children))
  }

  /** A name occurs in the tree exactly when some element carries it. */
  lemma {:induction false} NamesOccur(n: Node, name: string)
    ensures name in Names(n) <==> Occurrences(n, name) > 0
  {
    match n
    case Element(key, _, _, children) => NamesOccurIn(children, name);
    case _ =>
  }

  lemma {:induction false} NamesOccurIn(children: seq<Node>, name: string)
    ensures name in NamesIn(children) <==> OccurrencesIn(children, name) > 0
  {
    if children != [] {
      NamesOccurIn(Front(children), name);
      NamesOccur(Last(children), name);
    }
  }

  /** The tree with every comment and processing instruction removed. */
  function Strip(n: Node): (r: Node)
    ensures r.Element? == n.Element?
    ensures n.Element? ==> r.name == n.name
    decreases n
  {
    match n
    case Element(key, attributes, hasText, children) => Element(key, attributes, hasText, StripAll(children))
    case _ => n
  }

  function StripAll(children: seq<Node>): (r: seq<Node>)
    ensures forall i :: 0 <= i < |r| ==> r[i].Element?
    decreases children
  {
    if children == [] then []
    else StripAll(Front(children)) + (if Last(children).Element? then [Strip(Last(children))] else [])
  }

  /** Removing comments and processing instructions does not change how many
      children carry a given name. */
  lemma {:induction false} CountNamedStrip(children: seq<Node>, name: string)
    ensures CountNamed(StripAll(children), name) == CountNamed(children, name)
  {
    if children != [] {
      var front, last := StripAll(Front(children)), Last(children);
      CountNamedStrip(Front(children), name);
      if last.Element? {
        var r := front + [Strip(last)];
        assert StripAll(children) == r;
        assert Front(r) == front && Last(r) == Strip(last);
        assert CountNamed(r, name) == CountNamed(front, name) + (if last.name == name then 1 else 0);
      } else {
        assert StripAll(children) == front;
      }
    }
  }
}
