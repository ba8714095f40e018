/** The order in which the parser meets leaves, as a function of the element
    tree. For each nodeset its own `<node>` children come first, then the
    leaves of its nested `<nodeset>` children, recursively; each leaf is given
    as its chain of props, root first. `LoadSpec` is what `loadNodes` computes:
    the root's sub-nodesets are parsed a second time, so their leaves are
    stored twice, and `SinglePassSameSink` shows the sink does not change. */
module Tree {
  import opened Wrappers
  import opened Xml
  import opened Attributes
  import opened Resolution

  datatype ParseError = FormatError(message: string)

  const RootName := "nodeset"
  const NodeName := "node"
  const RootMessage := "nodesetxml format error: root element should be 'nodeset'"

  /** Every `<node>` child of `e` among its first `i` children, each with
      the chain `[props of e, props of the node]`. */
  function NodeLeaves(e: Element, i: nat): (r: seq<seq<Props>>)
    requires i <= |e.children|
    ensures forall p :: 0 <= p < |r| ==> |r[p]| == 2 && r[p][0] == NodeAttributes(e)
    decreases i
  {
    if i == 0 then []
    else
      var c := e.children[i - 1];
      if c.name == NodeName then NodeLeaves(e, i - 1) + [[NodeAttributes(e), NodeAttributes(c)]]
      else NodeLeaves(e, i - 1)
  }

  /** How many of the first `i` children of `e` are `<nodeset>` elements. */
  function NodesetCount(e: Element, i: nat): (r: nat)
    requires i <= |e.children|
    ensures r <= i
    decreases i
  {
    if i == 0 then 0
    else NodesetCount(e, i - 1) + (if e.children[i - 1].name == RootName then 1 else 0)
  }

  /** The node leaves are the `<node>` children in document order, one chain
      `[props of e, props of the node]` each. */
  lemma {:induction false} NodeLeavesNamed(e: Element, i: nat)
    requires i <= |e.children|
    ensures |NodeLeaves(e, i)| == |Named(e.children[..i], NodeName)|
    ensures forall p :: 0 <= p < |NodeLeaves(e, i)| ==>
      NodeLeaves(e, i)[p] == [NodeAttributes(e), NodeAttributes(Named(e.children[..i], NodeName)[p])]
    decreases i
  {
    if i > 0 {
      NodeLeavesNamed(e, i - 1);
      assert e.children[..i][..i - 1] == e.children[..i - 1];
    }
  }

  /** The count is that of the `<nodeset>` children in document order. */
  lemma {:induction false} NodesetCountNamed(e: Element, i: nat)
    requires i <= |e.children|
    ensures NodesetCount(e, i) == |Named(e.children[..i], RootName)|
    decreases i
  {
    if i > 0 {
      NodesetCountNamed(e, i - 1);
      assert e.children[..i][..i - 1] == e.children[..i - 1];
    }
  }

  /** Each chain with `pre` put in front of it. */
  function Prefix(pre: seq<Props>, chains: seq<seq<Props>>): (r: seq<seq<Props>>)
    ensures |r| == |chains|
    ensures forall p :: 0 <= p < |r| ==> r[p] == pre + chains[p]
  {
    seq(|chains|, p requires 0 <= p < |chains| => pre + chains[p])
  }

  /** The leaves of the `<nodeset>` children among the first `i` children of
      `e`, each chain starting at that child. */
  function SubsetLeaves(e: Element, i: nat): (r: seq<seq<Props>>)
    requires i <= |e.children|
    ensures forall p :: 0 <= p < |r| ==> |r[p]| >= 2
    decreases e, 0, i
  {
    if i == 0 then []
    else
      var c := e.children[i - 1];
      if c.name == RootName then SubsetLeaves(e, i - 1) + Leaves(c)
      else SubsetLeaves(e, i - 1)
  }

  /** The leaves below nodeset `e` in the order a single pass meets them,
      every chain starting with the props of `e` and ending with a leaf's. */
  function Leaves(e: Element): (r: seq<seq<Props>>)
    ensures forall p :: 0 <= p < |r| ==> |r[p]| >= 2 && r[p][0] == NodeAttributes(e)
    decreases e, 1, 0
  {
    NodeLeaves(e, |e.children|) + Prefix([NodeAttributes(e)], SubsetLeaves(e, |e.children|))
  }

  /** The leaf list `loadNodes` builds: one full pass over the root, then the
      root's sub-nodesets once more. */
  function AllNodes(root: Element): seq<seq<Props>> {
    Leaves(root) + Prefix([NodeAttributes(root)], SubsetLeaves(root, |root.children|))
  }

  /** `loadNodes`: a root not named `nodeset` is a format error; otherwise
      every leaf of the list is resolved and stored in a new sink. */
  function LoadSpec(root: Element): Result<Sink, ParseError> {
    if root.name != RootName then Failure(FormatError(RootMessage))
    else Success(Fill(map[], AllNodes(root)))
  }

  /** A root with any other name fails with the format error and yields no
      sink; a root named `nodeset` always succeeds. */
  lemma RootChecked(root: Element)
    ensures LoadSpec(root).Failure? <==> root.name != "nodeset"
    ensures LoadSpec(root).Failure? ==> LoadSpec(root).error == FormatError(RootMessage)
  {
  }

  /** The second pass over the root's sub-nodesets stores the same nodes in
      the same relative order, so the sink is the one a single pass gives. */
  lemma SinglePassSameSink(root: Element)
    requires root.name == "nodeset"
    ensures LoadSpec(root) == Success(Fill(map[], Leaves(root)))
  {
    var n := |root.children|;
    var a := NodeLeaves(root, n);
    var p := Prefix([NodeAttributes(root)], SubsetLeaves(root, n));
    assert AllNodes(root) == (a + p) + p;
    FillAppend(map[], a + p, p);
    FillAppend(map[], a, p);
    FillTwice(Fill(map[], a), p);
  }

  /** Every node in the sink is the resolution of some leaf stored under its
      own name, and the key of a named node is its `name` attribute. */
  lemma SinkEntries(root: Element, k: Option<string>)
    requires root.name == "nodeset"
    requires k in LoadSpec(root).value
    ensures exists p :: 0 <= p < |Leaves(root)| && NameOf(Leaves(root)[p]) == k
    ensures LoadSpec(root).value[k].nodename == k
    ensures k.Some? ==> ("name" in LoadSpec(root).value[k].props.attributes
      && LoadSpec(root).value[k].props.attributes["name"] == k.value)
  {
    SinglePassSameSink(root);
    var leaves := Leaves(root);
    FillKeys(map[], leaves, k);
    var p := LastWithName(leaves, k);
    assert p >= 0;
    LastLeafWins(map[], leaves, p);
    if k.Some? {
      NameKept(leaves[p]);
    }
  }

  /** An empty `<nodeset/>` document gives an empty sink and no error. */
  lemma EmptyDocument()
    ensures LoadSpec(Element("nodeset", [], [])) == Success(map[])
  {
  }

  /** No props along any of the chains holds a `tags` attribute. */
  ghost predicate TagsFree(chains: seq<seq<Props>>) {
    forall p, q :: 0 <= p < |chains| && 0 <= q < |chains[p]| ==> TagsName !in chains[p][q].attributes
  }

  lemma TagsFreeAppend(xs: seq<seq<Props>>, ys: seq<seq<Props>>)
    requires TagsFree(xs) && TagsFree(ys)
    ensures TagsFree(xs + ys)
  {
    forall p, q | 0 <= p < |xs + ys| && 0 <= q < |(xs + ys)[p]|
      ensures TagsName !in (xs + ys)[p][q].attributes
    {
      if p >= |xs| { assert (xs + ys)[p] == ys[p - |xs|]; }
    }
  }

  lemma {:induction false} NodeLeavesTagsFree(e: Element, i: nat)
    requires i <= |e.children|
    ensures TagsFree(NodeLeaves(e, i))
    decreases i
  {
    if i > 0 {
      var c := e.children[i - 1];
      NodeLeavesTagsFree(e, i - 1);
      if c.name == NodeName {
        NodeAttributesReserveTags(e);
        NodeAttributesReserveTags(c);
        TagsFreeAppend(NodeLeaves(e, i - 1), [[NodeAttributes(e), NodeAttributes(c)]]);
      }
    }
  }

  lemma {:induction false} SubsetLeavesTagsFree(e: Element, i: nat)
    requires i <= |e.children|
    ensures TagsFree(SubsetLeaves(e, i))
    decreases e, 0, i
  {
    if i > 0 {
      var c := e.children[i - 1];
      SubsetLeavesTagsFree(e, i - 1);
      if c.name == RootName {
        LeavesTagsFree(c);
        TagsFreeAppend(SubsetLeaves(e, i - 1), Leaves(c));
      }
    }
  }

  /** Every props along every leaf chain is the props of some element, so
      none of them holds `tags`. */
  lemma {:induction false} LeavesTagsFree(e: Element)
    ensures TagsFree(Leaves(e))
    decreases e, 1, 0
  {
    var n := |e.children|;
    NodeLeavesTagsFree(e, n);
    SubsetLeavesTagsFree(e, n);
    NodeAttributesReserveTags(e);
    var subs: seq<seq<Props>> := SubsetLeaves(e, n);
    var pre: seq<seq<Props>> := Prefix([NodeAttributes(e)], subs);
    forall p, q | 0 <= p < |pre| && 0 <= q < |pre[p]|
      ensures TagsName !in pre[p][q].attributes
    {
      assert pre[p] == [NodeAttributes(e)] + subs[p];
      if q > 0 { assert pre[p][q] == subs[p][q - 1]; }
    }
    TagsFreeAppend(NodeLeaves(e, n), pre);
  }

  /** No node of a loaded document holds a `tags` attribute: the reserved
      name only ever contributes tags, at every level of the tree. */
  lemma NoTagsAttribute(root: Element)
    requires root.name == "nodeset"
    ensures forall k :: k in LoadSpec(root).value ==> TagsName !in LoadSpec(root).value[k].props.attributes
  {
    SinglePassSameSink(root);
    var leaves := Leaves(root);
    LeavesTagsFree(root);
    forall k | k in LoadSpec(root).value
      ensures TagsName !in LoadSpec(root).value[k].props.attributes
    {
      FillKeys(map[], leaves, k);
      var p := LastWithName(leaves, k);
      LastLeafWins(map[], leaves, p);
      ResolvedKeys(leaves[p], TagsName);
    }
  }
}
