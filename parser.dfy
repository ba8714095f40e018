/** `loadNodes`, the entry point of the parser once the XML document is in
    memory: check the root, build the tree, resolve every leaf into a new
    node set. */
module Parser {
  import opened Wrappers
  import opened Xml
  import opened Resolution
  import opened Tree
  import opened NodeTree

  /** A root not named `nodeset` is a format error. Otherwise the root is
      parsed as a nodeset, its sub-nodesets are parsed a second time and
      attached to it again, and every collected leaf is stored. */
  method LoadNodes(doc: Element) returns (r: Result<Sink, ParseError>)
    ensures r == LoadSpec(doc)
    ensures r.Failure? <==> doc.name != RootName
    ensures r.Success? ==> r.value == Fill(map[], Leaves(doc))
  {
    var nodeEntries := new NodeSink();
    var builder := new Builder();
    if doc.name != RootName {
      return Failure(FormatError(RootMessage));
    }
    var rootSet := builder.ParseNodeSetElement(doc);
    ghost var mid, first := builder.items, builder.allnodes;
    builder.ParseSubNodeSets(doc, rootSet);
    ghost var second := builder.allnodes[|first|..];
    assert builder.allnodes == first + second;
    LoadedChains(doc, mid, builder.items, first, second);
    builder.FillNodes(nodeEntries);
    SinglePassSameSink(doc);
    return Success(nodeEntries.nodes);
  }
}
