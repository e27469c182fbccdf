/** The two questions the tally asks of the EAD document type definition,
    loaded once from its XML serialisation and never changed afterwards. */
module Schema {

  /** How many times `name` appears in the list `s`. */
  function Multiplicity(s: seq<string>, name: string): (r: nat)
    ensures r == 0 <==> name !in s
  {
    if s == [] then 0
    else Multiplicity(s[..|s| - 1], name) + (if s[|s| - 1] == name then 1 else 0)
  }

  /** `contentModels[e]` lists the `element-name` entries of element `e`'s
      expanded content model, in document order and with any repetitions;
      `attributeLists[e]` lists the attributes of `e`'s attribute-list
      declaration. */
  datatype Dtd = Dtd(contentModels: map<string, seq<string>>, attributeLists: map<string, seq<string>>)
  {
    /** The child element names the DTD allows under `name`; none for an undeclared name. */
    function LegalChildren(name: string): (r: seq<string>)
      ensures name in contentModels ==> r == contentModels[name]
      ensures name !in contentModels ==> r == []
    {
      if name in contentModels then contentModels[name] else []
    }

    /** The attribute names the DTD declares for `name`; none for an undeclared name. */
    function LegalAttributes(name: string): (r: seq<string>)
      ensures name in attributeLists ==> r == attributeLists[name]
      ensures name !in attributeLists ==> r == []
    {
      if name in attributeLists then attributeLists[name] else []
    }

    /** No attribute-list declaration names the same attribute twice. */
    predicate DistinctAttributes()
    {
      forall e, i, j :: e in attributeLists && 0 <= i < j < |attributeLists[e]| ==> attributeLists[e][i] != attributeLists[e][j]
    }
  }
}
