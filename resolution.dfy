/** Resolving one leaf and storing it in the node sink. A leaf's chain is the
    props of its root nodeset, the nodesets below it and finally the leaf's own,
    root first; they are merged in that order, so a nearer declaration of an
    attribute replaces a farther one and tags only accumulate. The sink maps a
    node name, which may be missing, to the last node stored under it. */
module Resolution {
  import opened Wrappers
  import opened Seqs
  import opened Attributes

  /** A resolved node: the name it is stored under and its merged props. */
  datatype NodeEntry = NodeEntry(nodename: Option<string>, props: Props)

  /** The node set the parser fills, keyed by node name; a missing name is a
      key of its own. */
  type Sink = map<Option<string>, NodeEntry>

  /** `updateNodeEntry`: the item's attributes are put over the entry's and
      its tags are added to the entry's. */
  function UpdateNodeEntry(item: Props, entry: Props): (r: Props)
    ensures r.attributes.Keys == entry.attributes.Keys + item.attributes.Keys
    ensures forall k :: k in item.attributes ==> r.attributes[k] == item.attributes[k]
    ensures forall k :: k in entry.attributes && k !in item.attributes ==> r.attributes[k] == entry.attributes[k]
    ensures entry.tags <= r.tags && item.tags <= r.tags
    ensures forall t :: t in r.tags ==> t in entry.tags || t in item.tags
  {
    Props(entry.attributes + item.attributes, entry.tags + item.tags)
  }

  /** The props of a chain merged into an empty entry, root first. */
  function Resolve(chain: seq<Props>): Props
    decreases |chain|
  {
    if chain == [] then NoProps
    else UpdateNodeEntry(chain[|chain| - 1], Resolve(chain[..|chain| - 1]))
  }

  /** The key a leaf is stored under: its own local `name` attribute, read
      before anything is merged, or none when it has no such attribute. */
  function NameOf(chain: seq<Props>): Option<string> {
    if chain == [] then None
    else
      var own := chain[|chain| - 1].attributes;
      if "name" in own then Some(own["name"]) else None
  }

  /** The node `fillNodes` builds for one leaf. */
  function ResolveNode(chain: seq<Props>): NodeEntry {
    NodeEntry(NameOf(chain), Resolve(chain))
  }

  /** `putNode`: insert the entry under its name, replacing any earlier one. */
  function PutNode(sink: Sink, entry: NodeEntry): (r: Sink)
    ensures r.Keys == sink.Keys + {entry.nodename}
    ensures r[entry.nodename] == entry
    ensures forall k :: k in sink && k != entry.nodename ==> r[k] == sink[k]
  {
    sink[entry.nodename := entry]
  }

  /** The sink after resolving and storing each leaf chain in turn. */
  function Fill(sink: Sink, chains: seq<seq<Props>>): Sink
    decreases |chains|
  {
    if chains == [] then sink
    else PutNode(Fill(sink, chains[..|chains| - 1]), ResolveNode(chains[|chains| - 1]))
  }

  /** A resolved node has an attribute exactly when some element of its chain
      declares it. */
  lemma {:induction false} ResolvedKeys(chain: seq<Props>, k: string)
    ensures k in Resolve(chain).attributes <==> exists i :: 0 <= i < |chain| && k in chain[i].attributes
    decreases |chain|
  {
    if chain != [] {
      var init := chain[..|chain| - 1];
      ResolvedKeys(init, k);
      if exists i :: 0 <= i < |init| && k in init[i].attributes {
        var i :| 0 <= i < |init| && k in init[i].attributes;
        assert chain[i] == init[i];
      }
      if exists i :: 0 <= i < |chain| && k in chain[i].attributes {
        var i :| 0 <= i < |chain| && k in chain[i].attributes;
        if i < |init| { assert init[i] == chain[i]; }
      }
    }
  }

  /** The nearest declaration wins: the value of an attribute is the one the
      last chain element declaring it gives, so the leaf beats every nodeset
      and a nested nodeset beats the ones around it. */
  lemma {:induction false} NearestDeclarationWins(chain: seq<Props>, i: nat, k: string)
    requires i < |chain| && k in chain[i].attributes
    requires forall j :: i < j < |chain| ==> k !in chain[j].attributes
    ensures k in Resolve(chain).attributes
    ensures Resolve(chain).attributes[k] == chain[i].attributes[k]
    decreases |chain|
  {
    if i < |chain| - 1 {
      NearestDeclarationWins(chain[..|chain| - 1], i, k);
    }
  }

  /** A resolved node's tags are exactly the union of the tags of its chain. */
  lemma {:induction false} ResolvedTags(chain: seq<Props>, t: string)
    ensures t in Resolve(chain).tags <==> exists i :: 0 <= i < |chain| && t in chain[i].tags
    decreases |chain|
  {
    if chain != [] {
      var init := chain[..|chain| - 1];
      ResolvedTags(init, t);
      if exists i :: 0 <= i < |init| && t in init[i].tags {
        var i :| 0 <= i < |init| && t in init[i].tags;
        assert chain[i] == init[i];
      }
      if exists i :: 0 <= i < |chain| && t in chain[i].tags {
        var i :| 0 <= i < |chain| && t in chain[i].tags;
        if i < |init| { assert init[i] == chain[i]; }
      }
    }
  }

  /** When the leaf has a name, the resolved node keeps that name as its
      `name` attribute, whatever the nodesets above declare. */
  lemma NameKept(chain: seq<Props>)
    requires NameOf(chain).Some?
    ensures "name" in Resolve(chain).attributes
    ensures Resolve(chain).attributes["name"] == NameOf(chain).value
  {
    NearestDeclarationWins(chain, |chain| - 1, "name");
  }

  /** Storing the chains of `xs ++ ys` is storing `xs`, then `ys`. */
  lemma {:induction false} FillAppend(sink: Sink, xs: seq<seq<Props>>, ys: seq<seq<Props>>)
    ensures Fill(sink, xs + ys) == Fill(Fill(sink, xs), ys)
    decreases |ys|
  {
    if ys == [] {
      assert xs + ys == xs;
    } else {
      AppendInit(xs, ys);
      FillAppend(sink, xs, ys[..|ys| - 1]);
    }
  }

  /** A chain's node is its leaf's props merged over the rest of the chain. */
  lemma ResolveLast(chain: seq<Props>)
    requires chain != []
    ensures var leaf := chain[|chain| - 1];
            ResolveNode(chain) == NodeEntry(if "name" in leaf.attributes then Some(leaf.attributes["name"]) else None,
                                            UpdateNodeEntry(leaf, Resolve(chain[..|chain| - 1])))
  {
  }

  /** Storing one more leaf is putting its resolved node. */
  lemma FillSnoc(sink: Sink, chains: seq<seq<Props>>, chain: seq<Props>)
    ensures Fill(sink, chains + [chain]) == PutNode(Fill(sink, chains), ResolveNode(chain))
  {
    AppendInit(chains, [chain]);
  }

  /** Storing leaves overrides the earlier sink with what the leaves alone give. */
  lemma {:induction false} FillOverrides(sink: Sink, chains: seq<seq<Props>>)
    ensures Fill(sink, chains) == sink + Fill(map[], chains)
    decreases |chains|
  {
    if chains != [] {
      var init, e := chains[..|chains| - 1], ResolveNode(chains[|chains| - 1]);
      FillOverrides(sink, init);
      OverrideThenPut(sink, Fill(map[], init), e.nodename, e);
    }
  }

  /** Putting after a map override is putting into the overriding map. */
  lemma OverrideThenPut(a: Sink, b: Sink, k: Option<string>, v: NodeEntry)
    ensures (a + b)[k := v] == a + b[k := v]
  {
  }

  /** Storing the same leaves twice is storing them once. */
  lemma FillTwice(sink: Sink, chains: seq<seq<Props>>)
    ensures Fill(Fill(sink, chains), chains) == Fill(sink, chains)
  {
    var w := Fill(map[], chains);
    FillOverrides(sink, chains);
    FillOverrides(Fill(sink, chains), chains);
    assert (sink + w) + w == sink + w;
  }

  /** A name is in the sink afterwards exactly when it was before or some
      leaf has it. */
  lemma {:induction false} FillKeys(sink: Sink, chains: seq<seq<Props>>, k: Option<string>)
    ensures k in Fill(sink, chains) <==> k in sink || exists i :: 0 <= i < |chains| && NameOf(chains[i]) == k
    decreases |chains|
  {
    if chains != [] {
      var init := chains[..|chains| - 1];
      FillKeys(sink, init, k);
      if exists i :: 0 <= i < |init| && NameOf(init[i]) == k {
        var i :| 0 <= i < |init| && NameOf(init[i]) == k;
        assert chains[i] == init[i];
      }
      if exists i :: 0 <= i < |chains| && NameOf(chains[i]) == k {
        var i :| 0 <= i < |chains| && NameOf(chains[i]) == k;
        if i < |init| { assert init[i] == chains[i]; }
      }
    }
  }

  /** The last leaf with a given name is the one stored under it. */
  lemma {:induction false} LastLeafWins(sink: Sink, chains: seq<seq<Props>>, i: nat)
    requires i < |chains|
    requires forall j :: i < j < |chains| ==> NameOf(chains[j]) != NameOf(chains[i])
    ensures NameOf(chains[i]) in Fill(sink, chains)
    ensures Fill(sink, chains)[NameOf(chains[i])] == ResolveNode(chains[i])
    decreases |chains|
  {
    if i < |chains| - 1 {
      LastLeafWins(sink, chains[..|chains| - 1], i);
    }
  }

  /** A name no leaf has keeps its earlier node. */
  lemma {:induction false} FillKeepsOthers(sink: Sink, chains: seq<seq<Props>>, k: Option<string>)
    requires k in sink
    requires forall j :: 0 <= j < |chains| ==> NameOf(chains[j]) != k
    ensures k in Fill(sink, chains) && Fill(sink, chains)[k] == sink[k]
    decreases |chains|
  {
    if chains != [] {
      FillKeepsOthers(sink, chains[..|chains| - 1], k);
    }
  }

  /** The position of the last leaf with name `k`, or -1 when none has it. */
  function LastWithName(chains: seq<seq<Props>>, k: Option<string>): (r: int)
    ensures -1 <= r < |chains|
    ensures r >= 0 ==> NameOf(chains[r]) == k
    ensures forall j :: r < j < |chains| ==> NameOf(chains[j]) != k
    decreases |chains|
  {
    if chains == [] then -1
    else if NameOf(chains[|chains| - 1]) == k then |chains| - 1
    else LastWithName(chains[..|chains| - 1], k)
  }
}
