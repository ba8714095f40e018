/** The intermediate tree as the parser builds it, and the resolver that walks
    it. The Java objects of classes `NodeItem` and `NodeSet` live in an arena:
    `items[i]` is the object at index i and `parent` holds the index of the
    enclosing nodeset. Objects are only ever appended, so a parent always
    precedes its children. `allnodes` is the shared list of leaves. */
module NodeTree {
  import opened Wrappers
  import opened Xml
  import opened Tags
  import opened Attributes
  import opened Resolution
  import opened Tree
  import opened Seqs

  /** A leaf `NodeItem`, or a `NodeSet` with its leaves and nested nodesets. */
  datatype Item =
    | NodeItem(parent: Option<nat>, props: Props)
    | NodeSet(parent: Option<nat>, props: Props, nodes: seq<nat>, subsets: seq<nat>)

  /** The props met going up from item `j` to the top of its tree, root first.
      A parent index that does not precede its child, which `Builder.Valid`
      rules out, ends the walk. */
  ghost function ChainTo(items: seq<Item>, j: nat): (r: seq<Props>)
    requires j < |items|
    ensures |r| >= 1 && r[|r| - 1] == items[j].props
    decreases j
  {
    match items[j].parent
    case Some(q) => if q < j then ChainTo(items, q) + [items[j].props] else [items[j].props]
    case None => [items[j].props]
  }

  /** The index of the item the walk up from `j` ends at. */
  ghost function Top(items: seq<Item>, j: nat): (r: nat)
    requires j < |items|
    ensures r <= j
    decreases j
  {
    match items[j].parent
    case Some(q) => if q < j then Top(items, q) else j
    case None => j
  }

  /** The props of the item at index `i`; none past the end of the arena. */
  ghost function PropsAt(items: seq<Item>, i: nat): Props {
    if i < |items| then items[i].props else NoProps
  }

  /** The props of the items at the given indices. */
  ghost function PropsOf(items: seq<Item>, idxs: seq<nat>): (r: seq<Props>)
    ensures |r| == |idxs|
    decreases |idxs|
  {
    if idxs == [] then [] else [PropsAt(items, idxs[0])] + PropsOf(items, idxs[1..])
  }

  lemma {:induction false} PropsOfIndex(items: seq<Item>, idxs: seq<nat>, m: nat)
    requires m < |idxs|
    ensures PropsOf(items, idxs)[m] == PropsAt(items, idxs[m])
    decreases m
  {
    if m > 0 {
      PropsOfIndex(items, idxs[1..], m - 1);
    }
  }

  /** The chains of the leaves at the given indices. */
  ghost function Chains(items: seq<Item>, leaves: seq<nat>): (r: seq<seq<Props>>)
    requires forall p :: 0 <= p < |leaves| ==> leaves[p] < |items|
    ensures |r| == |leaves| && forall p :: 0 <= p < |leaves| ==> r[p] == ChainTo(items, leaves[p])
    decreases |leaves|
  {
    if leaves == [] then []
    else Chains(items, leaves[..|leaves| - 1]) + [ChainTo(items, leaves[|leaves| - 1])]
  }

  /** The props met going up from the item `parent` points at, root first;
      none when there is no parent. */
  ghost function Up(items: seq<Item>, parent: Option<nat>): seq<Props>
    requires parent.Some? ==> parent.value < |items|
  {
    if parent.Some? then ChainTo(items, parent.value) else []
  }

  /** Every parent index points at an earlier item. */
  ghost predicate ParentsPrecede(items: seq<Item>) {
    forall j :: 0 <= j < |items| && items[j].parent.Some? ==> items[j].parent.value < j
  }

  /** Parents precede their children and `allnodes` holds item indices. */
  ghost predicate ValidArena(items: seq<Item>, allnodes: seq<nat>) {
    && ParentsPrecede(items)
    && (forall p :: 0 <= p < |allnodes| ==> allnodes[p] < |items|)
  }

  /** The leaves lie in `[lo, hi)` and have the given chains. */
  ghost predicate ChainsAre(items: seq<Item>, leaves: seq<nat>, lo: nat, hi: nat, chains: seq<seq<Props>>) {
    && hi <= |items|
    && |leaves| == |chains|
    && forall p :: 0 <= p < |leaves| ==> lo <= leaves[p] < hi && ChainTo(items, leaves[p]) == chains[p]
  }

  /** The first `n` items have the same parents and props in `a` and `b`. */
  ghost predicate SameShapeBelow(a: seq<Item>, b: seq<Item>, n: nat) {
    && n <= |a| && n <= |b|
    && forall i :: 0 <= i < n ==> a[i].parent == b[i].parent && a[i].props == b[i].props
  }

  lemma {:induction false} SameShape(a: seq<Item>, b: seq<Item>, n: nat, j: nat)
    requires SameShapeBelow(a, b, n) && j < n
    ensures ChainTo(a, j) == ChainTo(b, j) && Top(a, j) == Top(b, j)
    decreases j
  {
    match a[j].parent
    case Some(q) => if q < j { SameShape(a, b, n, q); }
    case None =>
  }

  lemma ChainsAreKept(a: seq<Item>, b: seq<Item>, n: nat, leaves: seq<nat>, lo: nat, hi: nat, chains: seq<seq<Props>>)
    requires ChainsAre(a, leaves, lo, hi, chains) && hi <= n && SameShapeBelow(a, b, n)
    ensures ChainsAre(b, leaves, lo, hi, chains)
  {
    forall p | 0 <= p < |leaves| ensures ChainTo(b, leaves[p]) == chains[p] {
      SameShape(a, b, n, leaves[p]);
    }
  }

  lemma ChainsAreJoin(items: seq<Item>, xs: seq<nat>, ys: seq<nat>, lo: nat, mid: nat, hi: nat,
                      cs: seq<seq<Props>>, ds: seq<seq<Props>>)
    requires lo <= mid <= hi && ChainsAre(items, xs, lo, mid, cs) && ChainsAre(items, ys, mid, hi, ds)
    ensures ChainsAre(items, xs + ys, lo, hi, cs + ds)
  {
    forall p | 0 <= p < |xs + ys|
      ensures lo <= (xs + ys)[p] < hi && ChainTo(items, (xs + ys)[p]) == (cs + ds)[p]
    {
      if p < |xs| {
        assert (xs + ys)[p] == xs[p] && (cs + ds)[p] == cs[p];
      } else {
        assert (xs + ys)[p] == ys[p - |xs|] && (cs + ds)[p] == ds[p - |xs|];
      }
    }
  }

  /** Giving root `s` the parent `p` leaves every walk that does not reach `s`
      as it was. */
  lemma {:induction false} ReparentOutside(items: seq<Item>, s: nat, p: nat, j: nat)
    requires s < |items| && j < |items| && items[s].parent.None? && Top(items, j) != s
    ensures ChainTo(items[s := items[s].(parent := Some(p))], j) == ChainTo(items, j)
    ensures Top(items[s := items[s].(parent := Some(p))], j) == Top(items, j)
    decreases j
  {
    var b := items[s := items[s].(parent := Some(p))];
    assert b[j] == items[j];
    match items[j].parent
    case Some(q) => if q < j { ReparentOutside(items, s, p, q); }
    case None =>
  }

  /** Giving root `s` the parent `p < s` puts the chain of `p` in front of
      every chain that ends its walk at `s`. */
  lemma {:induction false} ReparentInside(items: seq<Item>, s: nat, p: nat, j: nat)
    requires s < |items| && j < |items| && items[s].parent.None? && p < s && Top(items, j) == s
    ensures ChainTo(items[s := items[s].(parent := Some(p))], j) == ChainTo(items, p) + ChainTo(items, j)
    ensures Top(items[s := items[s].(parent := Some(p))], j) == Top(items, p)
    decreases j
  {
    var b := items[s := items[s].(parent := Some(p))];
    ReparentOutside(items, s, p, p);
    if j != s {
      assert items[j].parent.Some? && items[j].parent.value < j;
      var q := items[j].parent.value;
      ReparentInside(items, s, p, q);
      assert b[j] == items[j];
      assert ChainTo(b, j) == ChainTo(b, q) + [items[j].props];
      assert ChainTo(items, j) == ChainTo(items, q) + [items[j].props];
    }
  }

  lemma ApplyAllSnoc(p: Props, ds: seq<Attr>, d: Attr)
    ensures ApplyAll(p, ds + [d]) == Declare(ApplyAll(p, ds), d)
  {
    assert (ds + [d])[..|ds|] == ds;
  }

  lemma {:induction false} ApplyAllAppend(p: Props, xs: seq<Attr>, ys: seq<Attr>)
    ensures ApplyAll(p, xs + ys) == ApplyAll(ApplyAll(p, xs), ys)
    decreases |ys|
  {
    if ys == [] {
      assert xs + ys == xs;
    } else {
      var d := ys[|ys| - 1];
      var init := ys[..|ys| - 1];
      assert ys == init + [d];
      assert xs + ys == (xs + init) + [d];
      ApplyAllAppend(p, xs, init);
      ApplyAllSnoc(p, xs + init, d);
      ApplyAllSnoc(ApplyAll(p, xs), init, d);
    }
  }

  /** One more child of an `<attributes>` element applies its declaration, if any. */
  lemma DeclareNext(p: Props, gs: seq<Element>, g: Element)
    ensures ApplyAll(p, DeclaredIn(gs + [g]))
         == if g.name == "attribute" && AttributeDeclaration(g).Some?
            then Declare(ApplyAll(p, DeclaredIn(gs)), AttributeDeclaration(g).value)
            else ApplyAll(p, DeclaredIn(gs))
  {
    DeclaredInSnoc(gs, g);
    if g.name == "attribute" && AttributeDeclaration(g).Some? {
      ApplyAllSnoc(p, DeclaredIn(gs), AttributeDeclaration(g).value);
    } else {
      assert DeclaredIn(gs + [g]) == DeclaredIn(gs);
    }
  }

  lemma DeclaredInSnoc(gs: seq<Element>, g: Element)
    ensures DeclaredIn(gs + [g])
         == DeclaredIn(gs) + (if g.name == "attribute" && AttributeDeclaration(g).Some? then [AttributeDeclaration(g).value] else [])
  {
    assert (gs + [g])[..|gs|] == gs;
  }

  lemma AttributeElementsSnoc(cs: seq<Element>, c: Element)
    ensures AttributeElements(cs + [c]) == AttributeElements(cs) + (if c.name == "attributes" then DeclaredIn(c.children) else [])
  {
    assert (cs + [c])[..|cs|] == cs;
  }

  /** Nodeset `idx` is a root with props `props`, its leaves `added` are its
      only children so far, and the items after it are those leaves. */
  ghost predicate LeavesSoFar(items: seq<Item>, idx: nat, props: Props, added: seq<nat>, chains: seq<seq<Props>>) {
    && idx < |items| && items[idx] == NodeSet(None, props, added, [])
    && ChainsAre(items, added, idx, |items|, chains)
    && (forall j :: idx <= j < |items| ==> Top(items, j) == idx)
  }

  /** The state of the `<node>` loop of `parseNodeSetElement`: the arena is
      `items0` followed by the root nodeset (props `props`) and its leaves
      `added`, which are also the new part of `allnodes`. */
  ghost predicate NodeLoop(items0: seq<Item>, nodes0: seq<nat>, items: seq<Item>, allnodes: seq<nat>,
                           props: Props, added: seq<nat>, chains: seq<seq<Props>>) {
    && ValidArena(items, allnodes) && Grown(items0, items)
    && LeavesSoFar(items, |items0|, props, added, chains)
    && allnodes == nodes0 + added
  }

  /** The indices `lo`, `lo + 1`, ... of `n` consecutive items. */
  function Range(lo: nat, n: nat): (r: seq<nat>)
    ensures |r| == n && forall p :: 0 <= p < n ==> r[p] == lo + p
  {
    seq(n, p requires 0 <= p < n => lo + p)
  }

  /** Leaves with the given props, all children of nodeset `idx`. */
  function LeafItems(idx: nat, leafProps: seq<Props>): (r: seq<Item>)
    ensures |r| == |leafProps| && forall p :: 0 <= p < |r| ==> r[p] == NodeItem(Some(idx), leafProps[p])
  {
    seq(|leafProps|, p requires 0 <= p < |leafProps| => NodeItem(Some(idx), leafProps[p]))
  }

  /** The arena during the `<node>` loop: `items0`, then the new root nodeset
      with props `props`, then its leaves, which are also its `nodes`. */
  function Shape(items0: seq<Item>, props: Props, leafProps: seq<Props>): (r: seq<Item>)
    ensures |r| == |items0| + 1 + |leafProps|
    ensures r[|items0|] == NodeSet(None, props, Range(|items0| + 1, |leafProps|), [])
  {
    items0 + [NodeSet(None, props, Range(|items0| + 1, |leafProps|), [])] + LeafItems(|items0|, leafProps)
  }

  /** The chains `[props, leaf]` of leaves right below a root nodeset. */
  function Pairs(props: Props, leafProps: seq<Props>): (r: seq<seq<Props>>)
    ensures |r| == |leafProps| && forall p :: 0 <= p < |r| ==> r[p] == [props, leafProps[p]]
  {
    seq(|leafProps|, p requires 0 <= p < |leafProps| => [props, leafProps[p]])
  }

  lemma PairsSnoc(props: Props, leafProps: seq<Props>, leaf: Props)
    ensures Pairs(props, leafProps + [leaf]) == Pairs(props, leafProps) + [[props, leaf]]
  {
  }

  /** One more leaf, added as `AddNodeItem` adds it, extends the shape. */
  lemma ShapeStep(items0: seq<Item>, props: Props, leafProps: seq<Props>, leaf: Props)
    ensures var s := Shape(items0, props, leafProps);
            var idx := |items0|;
            (s + [NodeItem(Some(idx), leaf)])[idx := s[idx].(nodes := s[idx].nodes + [|s|])]
              == Shape(items0, props, leafProps + [leaf])
  {
    var s := Shape(items0, props, leafProps);
    var idx, n := |items0|, |leafProps|;
    assert Range(idx + 1, n) + [|s|] == Range(idx + 1, n + 1);
    assert LeafItems(idx, leafProps) + [NodeItem(Some(idx), leaf)] == LeafItems(idx, leafProps + [leaf]);
  }

  /** The shape meets everything the rest of the parse relies on. */
  lemma ShapeIsLoop(items0: seq<Item>, nodes0: seq<nat>, props: Props, leafProps: seq<Props>)
    requires ValidArena(items0 + [NodeSet(None, props, [], [])], nodes0)
    ensures NodeLoop(items0, nodes0, Shape(items0, props, leafProps),
                     nodes0 + Range(|items0| + 1, |leafProps|), props,
                     Range(|items0| + 1, |leafProps|), Pairs(props, leafProps))
  {
    var items := Shape(items0, props, leafProps);
    var idx := |items0|;
    var added := Range(idx + 1, |leafProps|);
    assert items[idx] == NodeSet(None, props, added, []);
    forall j | idx < j < |items| ensures items[j] == NodeItem(Some(idx), leafProps[j - idx - 1]) {
      assert items[j] == LeafItems(idx, leafProps)[j - idx - 1];
    }
    var start := items0 + [NodeSet(None, props, [], [])];
    forall j | 0 <= j < idx ensures items[j] == items0[j] == start[j] {
    }
    assert items[..idx] == items0;
    forall j | idx <= j < |items|
      ensures Top(items, j) == idx
      ensures idx < j ==> ChainTo(items, j) == [props, leafProps[j - idx - 1]]
    {
    }
    forall p | 0 <= p < |nodes0 + added| ensures (nodes0 + added)[p] < |items| {
      if p >= |nodes0| { assert (nodes0 + added)[p] == added[p - |nodes0|]; }
    }
  }

  /** The trees of the `<nodeset>` children, attached after the leaves of
      nodeset `idx`, complete the leaves of `e`. */
  lemma SubsetsAdded(e: Element, mid: seq<Item>, items: seq<Item>, idx: nat, added: seq<nat>, rest: seq<nat>)
    requires LeavesSoFar(mid, idx, NodeAttributes(e), added, NodeLeaves(e, |e.children|))
    requires SubsetsAttached(mid, items, idx, rest, SubsetLeaves(e, |e.children|))
    ensures items[..idx] == mid[..idx]
    ensures Group(items, idx, added + rest, Leaves(e))
    ensures items[idx].props == NodeAttributes(e) && items[idx].nodes == added
  {
    assert SameShapeBelow(mid, items, |mid|);
    ChainsAreKept(mid, items, |mid|, added, idx, |mid|, NodeLeaves(e, |e.children|));
    SameShape(mid, items, |mid|, idx);
    assert ChainTo(items, idx) == [NodeAttributes(e)];
    ChainsAreJoin(items, added, rest, idx, |mid|, |items|,
                  NodeLeaves(e, |e.children|), Prefix([NodeAttributes(e)], SubsetLeaves(e, |e.children|)));
    forall j | idx <= j < |mid| ensures Top(items, j) == idx {
      SameShape(mid, items, |mid|, j);
    }
  }

  /** Leaves whose chains are known have exactly those chains. */
  lemma ChainsAreChains(items: seq<Item>, leaves: seq<nat>, lo: nat, hi: nat, chains: seq<seq<Props>>)
    requires ChainsAre(items, leaves, lo, hi, chains)
    ensures forall p :: 0 <= p < |leaves| ==> leaves[p] < |items|
    ensures Chains(items, leaves) == chains
  {
  }

  /** After `loadNodes` has parsed the root `e` and then its sub-nodesets
      once more, the leaves of `allnodes` have the chains `AllNodes(e)`. */
  lemma LoadedChains(e: Element, mid: seq<Item>, items: seq<Item>, first: seq<nat>, second: seq<nat>)
    requires Group(mid, 0, first, Leaves(e)) && mid[0].props == NodeAttributes(e)
    requires SubsetsAttached(mid, items, 0, second, SubsetLeaves(e, |e.children|))
    ensures forall p :: 0 <= p < |first + second| ==> (first + second)[p] < |items|
    ensures Chains(items, first + second) == AllNodes(e)
  {
    assert SameShapeBelow(mid, items, |mid|);
    ChainsAreKept(mid, items, |mid|, first, 0, |mid|, Leaves(e));
    assert ChainTo(items, 0) == [NodeAttributes(e)];
    ChainsAreJoin(items, first, second, 0, |mid|, |items|,
                  Leaves(e), Prefix([NodeAttributes(e)], SubsetLeaves(e, |e.children|)));
    ChainsAreChains(items, first + second, 0, |items|, AllNodes(e));
  }

  /** `items` extends `before` without changing it. */
  ghost predicate Grown(before: seq<Item>, items: seq<Item>) {
    |items| >= |before| && items[..|before|] == before
  }

  /** The items from `idx` on form one tree under root nodeset `idx`, and its
      leaves have the given chains. */
  ghost predicate Group(items: seq<Item>, idx: nat, leaves: seq<nat>, chains: seq<seq<Props>>) {
    && idx < |items| && items[idx].NodeSet? && items[idx].parent.None?
    && ChainsAre(items, leaves, idx, |items|, chains)
    && (forall j :: idx <= j < |items| ==> Top(items, j) == idx)
  }

  /** The items from `lo` on form trees under the increasing root nodesets
      `roots`, and their leaves have the given chains. */
  ghost predicate Groups(items: seq<Item>, lo: nat, roots: seq<nat>, leaves: seq<nat>, chains: seq<seq<Props>>) {
    && lo <= |items|
    && (forall m :: 0 <= m < |roots| ==>
          lo <= roots[m] < |items| && items[roots[m]].NodeSet? && items[roots[m]].parent.None?)
    && (forall m, m' :: 0 <= m < m' < |roots| ==> roots[m] < roots[m'])
    && (forall j :: lo <= j < |items| ==> Top(items, j) in roots)
    && ChainsAre(items, leaves, lo, |items|, chains)
  }

  lemma GroupsStart(items: seq<Item>)
    ensures Groups(items, |items|, [], [], [])
  {
  }

  /** One more tree appended after the earlier ones. */
  lemma GroupsAppend(before: seq<Item>, items: seq<Item>, lo: nat, roots: seq<nat>, leaves: seq<nat>,
                     chains: seq<seq<Props>>, leaves': seq<nat>, chains': seq<seq<Props>>)
    requires Groups(before, lo, roots, leaves, chains) && Grown(before, items)
    requires Group(items, |before|, leaves', chains')
    ensures Groups(items, lo, roots + [|before|], leaves + leaves', chains + chains')
  {
    var k := |before|;
    assert SameShapeBelow(before, items, k);
    forall j | lo <= j < k ensures Top(items, j) == Top(before, j) {
      SameShape(before, items, k, j);
    }
    forall m | 0 <= m < |roots| ensures items[roots[m]] == before[roots[m]] {
      assert items[..k][roots[m]] == before[roots[m]];
    }
    ChainsAreKept(before, items, k, leaves, lo, k, chains);
    ChainsAreJoin(items, leaves, leaves', lo, k, |items|, chains, chains');
  }

  /** While the roots of a group are adopted one by one by nodeset `idx`: the
      items from `lo` on whose walk ended at an adopted root now walk on
      through `idx`; the others walk as before. */
  ghost predicate Adopted(items0: seq<Item>, items: seq<Item>, idx: nat, lo: nat, roots: seq<nat>) {
    && idx < lo <= |items0| == |items|
    && SameShapeBelow(items0, items, lo)
    && (forall j :: lo <= j < |items| && Top(items0, j) in roots ==>
          ChainTo(items, j) == ChainTo(items0, idx) + ChainTo(items0, j) && Top(items, j) == Top(items0, idx))
    && (forall j :: lo <= j < |items| && Top(items0, j) !in roots ==>
          ChainTo(items, j) == ChainTo(items0, j) && Top(items, j) == Top(items0, j))
  }

  lemma AdoptedStart(items0: seq<Item>, idx: nat, lo: nat)
    requires idx < lo <= |items0|
    ensures Adopted(items0, items0, idx, lo, [])
  {
  }

  /** Giving one more root `s` the parent `idx`. */
  lemma AdoptStep(items0: seq<Item>, items: seq<Item>, idx: nat, lo: nat, roots: seq<nat>, s: nat)
    requires Adopted(items0, items, idx, lo, roots)
    requires lo <= s < |items| && s !in roots && items[s].parent.None?
    ensures Adopted(items0, items[s := items[s].(parent := Some(idx))], idx, lo, roots + [s])
  {
    var b := items[s := items[s].(parent := Some(idx))];
    SameShape(items0, items, lo, idx);
    forall j | lo <= j < |items|
      ensures Top(items0, j) in roots + [s] ==>
                ChainTo(b, j) == ChainTo(items0, idx) + ChainTo(items0, j) && Top(b, j) == Top(items0, idx)
      ensures Top(items0, j) !in roots + [s] ==> ChainTo(b, j) == ChainTo(items0, j) && Top(b, j) == Top(items0, j)
    {
      if Top(items0, j) in roots {
        ReparentOutside(items, s, idx, j);
      } else if Top(items0, j) == s {
        ReparentInside(items, s, idx, j);
      } else {
        ReparentOutside(items, s, idx, j);
      }
    }
  }

  /** Changing what is neither a parent nor props keeps the adoption. */
  lemma AdoptedReshaped(items0: seq<Item>, items: seq<Item>, items': seq<Item>, idx: nat, lo: nat, roots: seq<nat>)
    requires Adopted(items0, items, idx, lo, roots) && SameShapeBelow(items, items', |items|) && |items'| == |items|
    ensures Adopted(items0, items', idx, lo, roots)
  {
    forall j | lo <= j < |items| ensures ChainTo(items', j) == ChainTo(items, j) && Top(items', j) == Top(items, j) {
      SameShape(items, items', |items|, j);
    }
  }

  /** The arena as the adoption loop leaves it: only the parents of the
      adopted `roots` and the subsets of `idx` differ from `items0`. */
  ghost predicate AdoptedItems(items0: seq<Item>, items: seq<Item>, idx: nat, lo: nat, roots: seq<nat>) {
    && |items| == |items0| && idx < lo <= |items0| && items0[idx].NodeSet?
    && (forall j :: 0 <= j < lo && j != idx ==> items[j] == items0[j])
    && items[idx] == items0[idx].(subsets := items0[idx].subsets + roots)
    && (forall j :: lo <= j < |items| ==> items[j] == if j in roots then items0[j].(parent := Some(idx)) else items0[j])
  }

  /** One step of the adoption loop of `parseSubNodeSets`. */
  lemma AdoptOne(items0: seq<Item>, items: seq<Item>, idx: nat, lo: nat, roots: seq<nat>, s: nat)
    requires AdoptedItems(items0, items, idx, lo, roots) && Adopted(items0, items, idx, lo, roots)
    requires ParentsPrecede(items) && lo <= s < |items| && s !in roots && items0[s].parent.None?
    ensures var b := items[s := items[s].(parent := Some(idx))];
            var c := b[idx := b[idx].(subsets := b[idx].subsets + [s])];
            && AdoptedItems(items0, c, idx, lo, roots + [s])
            && Adopted(items0, c, idx, lo, roots + [s])
            && ParentsPrecede(c)
  {
    var b := items[s := items[s].(parent := Some(idx))];
    var c := b[idx := b[idx].(subsets := b[idx].subsets + [s])];
    AdoptStep(items0, items, idx, lo, roots, s);
    assert SameShapeBelow(b, c, |b|);
    AdoptedReshaped(items0, b, c, idx, lo, roots + [s]);
    assert items0[idx].subsets + roots + [s] == items0[idx].subsets + (roots + [s]);
  }

  /** What `parseSubNodeSets` leaves behind: the arena `before` extended by the
      trees of the `<nodeset>` children, whose roots are now children of
      `idx`; only the subsets of `idx` change below `|before|`; the new
      leaves' chains start with the chain of `idx`. */
  ghost predicate SubsetsAttached(before: seq<Item>, items: seq<Item>, idx: nat, leaves: seq<nat>, chains: seq<seq<Props>>)
    requires idx < |before|
  {
    && |items| >= |before|
    && (forall j :: 0 <= j < |before| && j != idx ==> items[j] == before[j])
    && before[idx].NodeSet? && items[idx].NodeSet?
    && items[idx] == before[idx].(subsets := items[idx].subsets)
    && |items[idx].subsets| >= |before[idx].subsets|
    && items[idx].subsets[..|before[idx].subsets|] == before[idx].subsets
    && (forall m :: |before[idx].subsets| <= m < |items[idx].subsets| ==>
          |before| <= items[idx].subsets[m] < |items| && items[items[idx].subsets[m]].parent == Some(idx))
    && ChainsAre(items, leaves, |before|, |items|, Prefix(ChainTo(items, idx), chains))
    && (forall j :: |before| <= j < |items| ==> Top(items, j) == Top(items, idx))
  }

  /** Once every tree root has been adopted, the chains of the trees' leaves
      start with the chain of `idx`. */
  lemma AdoptedFinish(before: seq<Item>, items0: seq<Item>, items: seq<Item>, idx: nat, roots: seq<nat>,
                      leaves: seq<nat>, chains: seq<seq<Props>>)
    requires idx < |before| && Grown(before, items0) && Groups(items0, |before|, roots, leaves, chains)
    requires AdoptedItems(items0, items, idx, |before|, roots) && Adopted(items0, items, idx, |before|, roots)
    ensures SubsetsAttached(before, items, idx, leaves, chains)
    ensures |items[idx].subsets| == |before[idx].subsets| + |roots|
  {
    var lo := |before|;
    assert items0[idx] == before[idx];
    forall j | 0 <= j < lo && j != idx ensures items[j] == before[j] {
      assert items0[..lo][j] == items0[j];
    }
    assert (items0[idx].subsets + roots)[..|before[idx].subsets|] == before[idx].subsets;
    forall m | |before[idx].subsets| <= m < |items[idx].subsets|
      ensures lo <= items[idx].subsets[m] < |items| && items[items[idx].subsets[m]].parent == Some(idx)
    {
      var r := roots[m - |before[idx].subsets|];
      assert items[idx].subsets[m] == r && r in roots;
    }
    SameShape(items0, items, lo, idx);
  }

  /** One step up from item `p`, whose parent precedes it: `p` moves from
      the walk still to do to the front of the ancestors already found. */
  lemma ClimbStep(items: seq<Item>, p: nat, parents: seq<nat>, leaf: Props)
    requires ParentsPrecede(items) && p < |items|
    ensures Up(items, Some(p)) + (PropsOf(items, parents) + [leaf])
         == Up(items, items[p].parent) + (PropsOf(items, [p] + parents) + [leaf])
  {
    var x, rest := items[p].props, PropsOf(items, parents) + [leaf];
    assert ([p] + parents)[1..] == parents;
    assert PropsOf(items, [p] + parents) == [x] + PropsOf(items, parents);
    AppendAssoc([x], PropsOf(items, parents), [leaf]);
    assert ChainTo(items, p) == Up(items, items[p].parent) + [x];
    AppendAssoc(Up(items, items[p].parent), [x], rest);
  }

  /** The chains of the first `n + 1` leaves are those of the first `n` and one more. */
  lemma ChainsSnoc(items: seq<Item>, leaves: seq<nat>, n: nat)
    requires n < |leaves| && forall p :: 0 <= p < |leaves| ==> leaves[p] < |items|
    ensures Chains(items, leaves[..n + 1]) == Chains(items, leaves[..n]) + [ChainTo(items, leaves[n])]
  {
    assert leaves[..n + 1][..n] == leaves[..n];
  }

  /** The node set the parser fills: `NodeSetImpl`, keyed by node name. */
  class NodeSink {
    var nodes: Sink

    constructor()
      ensures nodes == map[]
    {
      nodes := map[];
    }

    /** `putNode`: store the entry under its name, replacing any earlier one. */
    method PutNode(entry: NodeEntry)
      modifies this
      ensures nodes == Resolution.PutNode(old(nodes), entry)
    {
      nodes := nodes[entry.nodename := entry];
    }
  }

  /** The per-parse state: the arena of `NodeItem`/`NodeSet` objects and the
      shared `allnodes` list. */
  class Builder {
    var items: seq<Item>
    var allnodes: seq<nat>

    ghost predicate Valid()
      reads this
    {
      ValidArena(items, allnodes)
    }

    constructor()
      ensures Valid() && items == [] && allnodes == []
    {
      items := [];
      allnodes := [];
    }

    /** `parseNodeSetElement`: a new root nodeset with the element's props,
        then a leaf for every `<node>` child, which is also appended to
        `allnodes`, then the `<nodeset>` children. */
    method ParseNodeSetElement(e: Element) returns (idx: nat)
      requires Valid()
      modifies this
      decreases e, 2
      ensures Valid() && Grown(old(items), items) && idx == old(|items|)
      ensures |allnodes| >= old(|allnodes|) && allnodes[..old(|allnodes|)] == old(allnodes)
      ensures Group(items, idx, allnodes[old(|allnodes|)..], Leaves(e))
      ensures items[idx].props == NodeAttributes(e)
      ensures |items[idx].nodes| == |NodeLeaves(e, |e.children|)| <= |allnodes| - old(|allnodes|)
      ensures items[idx].nodes == allnodes[old(|allnodes|)..old(|allnodes|) + |items[idx].nodes|]
      ensures |items[idx].subsets| == NodesetCount(e, |e.children|)
    {
      idx := |items|;
      items := items + [NodeSet(None, NoProps, [], [])];
      ParseElementNodeAttributes(e, idx);
      ParseNodeItems(e, idx);
      ghost var mid, midNodes := items, allnodes;
      ghost var added := allnodes[old(|allnodes|)..];
      ParseSubNodeSets(e, idx);
      SubsetsAdded(e, mid, items, idx, added, allnodes[|midNodes|..]);
      assert allnodes[old(|allnodes|)..] == added + allnodes[|midNodes|..];
    }

    /** The `<node>` loop of `parseNodeSetElement`: a leaf for every `<node>`
        child of `e`, under the new root nodeset `idx`, the last item. */
    method ParseNodeItems(e: Element, idx: nat)
      requires Valid() && idx == |items| - 1 && items[idx] == NodeSet(None, NodeAttributes(e), [], [])
      modifies this
      ensures |allnodes| >= old(|allnodes|)
      ensures NodeLoop(old(items)[..idx], old(allnodes), items, allnodes, NodeAttributes(e),
                       allnodes[old(|allnodes|)..], NodeLeaves(e, |e.children|))
    {
      ghost var props := NodeAttributes(e);
      ghost var items0 := items[..idx];
      ghost var leafProps: seq<Props> := [];
      assert items == items0 + [NodeSet(None, props, [], [])] == Shape(items0, props, leafProps);
      assert allnodes == old(allnodes) + Range(idx + 1, 0);
      for i := 0 to |e.children|
        invariant NodeLeaves(e, i) == Pairs(props, leafProps)
        invariant items == Shape(items0, props, leafProps)
        invariant allnodes == old(allnodes) + Range(idx + 1, |leafProps|)
      {
        var nodeElem := e.children[i];
        if nodeElem.name == NodeName {
          var k := AddNodeItem(nodeElem, idx);
          ShapeStep(items0, props, leafProps, NodeAttributes(nodeElem));
          PairsSnoc(props, leafProps, NodeAttributes(nodeElem));
          assert Range(idx + 1, |leafProps|) + [k] == Range(idx + 1, |leafProps| + 1);
          leafProps := leafProps + [NodeAttributes(nodeElem)];
        }
      }
      ShapeIsLoop(items0, old(allnodes), props, leafProps);
      assert Range(idx + 1, |leafProps|) == allnodes[old(|allnodes|)..];
    }

    /** The body of the `<node>` loop of `parseNodeSetElement`: a new leaf
        with the element's props, whose parent is nodeset `idx`, appended to
        the nodes of `idx` and to `allnodes`. */
    method AddNodeItem(nodeElem: Element, idx: nat) returns (k: nat)
      requires idx < |items| && items[idx].NodeSet?
      modifies this
      ensures k == old(|items|) && allnodes == old(allnodes) + [k]
      ensures items == (old(items) + [NodeItem(Some(idx), NodeAttributes(nodeElem))])
                         [idx := old(items)[idx].(nodes := old(items)[idx].nodes + [k])]
    {
      k := |items|;
      items := items + [NodeItem(None, NoProps)];
      ParseElementNodeAttributes(nodeElem, k);
      items := items[k := NodeItem(Some(idx), items[k].props)];
      items := items[idx := items[idx].(nodes := items[idx].nodes + [k])];
      allnodes := allnodes + [k];
    }

    /** `parseSubNodeSets`: the `<nodeset>` children become groups of their
        own; then each group root gets nodeset `idx` as its parent and is
        added to its subsets. */
    method ParseSubNodeSets(e: Element, idx: nat)
      requires Valid() && idx < |items| && items[idx].NodeSet?
      modifies this
      decreases e, 1
      ensures Valid()
      ensures |allnodes| >= old(|allnodes|) && allnodes[..old(|allnodes|)] == old(allnodes)
      ensures SubsetsAttached(old(items), items, idx, allnodes[old(|allnodes|)..], SubsetLeaves(e, |e.children|))
      ensures |items[idx].subsets| == |old(items)[idx].subsets| + NodesetCount(e, |e.children|)
    {
      ghost var lo := |items|;
      var nodeSets := ParseNodeSets(e);
      ghost var items0 := items;
      ghost var nodes0 := allnodes;
      AdoptedStart(items0, idx, lo);
      for m := 0 to |nodeSets|
        invariant Valid()
        invariant allnodes == nodes0
        invariant AdoptedItems(items0, items, idx, lo, nodeSets[..m])
        invariant Adopted(items0, items, idx, lo, nodeSets[..m])
      {
        var nodeSet := nodeSets[m];
        AdoptOne(items0, items, idx, lo, nodeSets[..m], nodeSet);
        items := items[nodeSet := items[nodeSet].(parent := Some(idx))];
        items := items[idx := items[idx].(subsets := items[idx].subsets + [nodeSet])];
        assert nodeSets[..m + 1] == nodeSets[..m] + [nodeSet];
      }
      assert nodeSets[..|nodeSets|] == nodeSets;
      AdoptedFinish(old(items), items0, items, idx, nodeSets, allnodes[|old(allnodes)|..], SubsetLeaves(e, |e.children|));
    }

    /** `parseNodeSets`: every `<nodeset>` child of `e`, in document order,
        parsed into a tree of its own; the tree roots are returned. */
    method ParseNodeSets(e: Element) returns (result: seq<nat>)
      requires Valid()
      modifies this
      decreases e, 0
      ensures Valid() && Grown(old(items), items)
      ensures |result| == NodesetCount(e, |e.children|)
      ensures |allnodes| >= old(|allnodes|) && allnodes[..old(|allnodes|)] == old(allnodes)
      ensures Groups(items, old(|items|), result, allnodes[old(|allnodes|)..], SubsetLeaves(e, |e.children|))
    {
      result := [];
      ghost var added: seq<nat> := [];
      GroupsStart(items);
      for i := 0 to |e.children|
        invariant Valid() && Grown(old(items), items)
        invariant |result| == NodesetCount(e, i)
        invariant allnodes == old(allnodes) + added
        invariant Groups(items, old(|items|), result, added, SubsetLeaves(e, i))
      {
        var nodesetElem := e.children[i];
        if nodesetElem.name == RootName {
          ghost var before := items;
          ghost var beforeNodes := allnodes;
          var nodeSet := ParseNodeSetElement(nodesetElem);
          GroupsAppend(before, items, old(|items|), result, added, SubsetLeaves(e, i),
                       allnodes[|beforeNodes|..], Leaves(nodesetElem));
          assert allnodes == old(allnodes) + (added + allnodes[|beforeNodes|..]);
          added := added + allnodes[|beforeNodes|..];
          result := result + [nodeSet];
          assert items[..old(|items|)] == before[..old(|items|)];
        } else {
          assert SubsetLeaves(e, i + 1) == SubsetLeaves(e, i) + [];
        }
      }
    }

    /** `parseElementNodeAttributes`: the element's plain attributes, then its
        `attributes/attribute` children, applied to item `idx`. */
    method ParseElementNodeAttributes(e: Element, idx: nat)
      requires idx < |items|
      modifies this
      ensures allnodes == old(allnodes)
      ensures items == old(items)[idx := old(items)[idx].(props := ApplyAll(old(items)[idx].props, Declarations(e)))]
    {
      // the props of the item being filled in, stored back at the end
      var props := items[idx].props;
      ghost var p0 := props;
      ghost var done: seq<Attr> := [];
      for i := 0 to |e.attributes|
        invariant done == e.attributes[..i]
        invariant items == old(items) && allnodes == old(allnodes)
        invariant props == ApplyAll(p0, done)
      {
        var attr := e.attributes[i];
        if attr.name != TagsName {
          props := props.(attributes := props.attributes[attr.name := attr.value]);
        } else {
          props := props.(tags := props.tags + TagString(attr.value));
        }
        ApplyAllSnoc(p0, done, attr);
        done := done + [attr];
        assert e.attributes[..i + 1] == e.attributes[..i] + [attr];
      }
      assert done == e.attributes;
      var selected := Select(e.children, "attributes", "attribute");
      for j := 0 to |selected|
        invariant items == old(items) && allnodes == old(allnodes)
        invariant props == ApplyAll(ApplyAll(p0, done), DeclaredIn(selected[..j]))
      {
        var attr := selected[j];
        DeclareNext(ApplyAll(p0, done), selected[..j], attr);
        assert selected[..j + 1] == selected[..j] + [attr];
        var name := AttributeValue(attr, "name");
        var value := AttributeValue(attr, "value");
        if name.Some? && value.Some? {
          if name.value != TagsName {
            props := props.(attributes := props.attributes[name.value := value.value]);
          } else {
            props := props.(tags := props.tags + TagString(value.value));
          }
        }
      }
      assert selected[..|selected|] == selected;
      AttributeElementsSelected(e.children);
      ApplyAllAppend(p0, done, DeclaredIn(selected));
      items := items[idx := items[idx].(props := props)];
    }

    /** `fillNodes`: each leaf of `allnodes`, in order, is resolved and put
        into the sink. */
    method FillNodes(sink: NodeSink)
      requires Valid()
      modifies sink
      ensures sink.nodes == Fill(old(sink.nodes), Chains(items, allnodes))
    {
      for n := 0 to |allnodes|
        invariant sink.nodes == Fill(old(sink.nodes), Chains(items, allnodes[..n]))
      {
        var node := ResolveItem(allnodes[n]);
        ChainsSnoc(items, allnodes, n);
        FillSnoc(old(sink.nodes), Chains(items, allnodes[..n]), ChainTo(items, allnodes[n]));
        sink.PutNode(node);
      }
      assert allnodes[..|allnodes|] == allnodes;
    }

    /** The body of the loop of `fillNodes` for one leaf: the node is named by
        the leaf's own `name` attribute; the props of its ancestors are merged
        into it root first, then its own. */
    method ResolveItem(leaf: nat) returns (node: NodeEntry)
      requires Valid() && leaf < |items|
      ensures node == ResolveNode(ChainTo(items, leaf))
    {
      var own := items[leaf].props.attributes;
      var name := if "name" in own then Some(own["name"]) else None;
      var parents := Ancestors(leaf);
      ghost var chain := PropsOf(items, parents) + [items[leaf].props];
      var entry := NoProps;
      for m := 0 to |parents|
        invariant entry == Resolve(chain[..m])
      {
        TakeSnoc(chain, m);
        PropsOfIndex(items, parents, m);
        assert chain[m] == items[parents[m]].props;
        entry := UpdateNodeEntry(items[parents[m]].props, entry);
      }
      entry := UpdateNodeEntry(items[leaf].props, entry);
      node := NodeEntry(name, entry);
      ResolveLast(chain);
    }

    /** The `parents` list of `fillNodes`: the ancestors of item `leaf`,
        found by walking up and unshifting each, so the root comes first. */
    method Ancestors(leaf: nat) returns (parents: seq<nat>)
      requires Valid() && leaf < |items|
      ensures forall m :: 0 <= m < |parents| ==> parents[m] < |items|
      ensures ChainTo(items, leaf) == PropsOf(items, parents) + [items[leaf].props]
    {
      parents := [];
      var parent: Option<nat> := items[leaf].parent;
      assert PropsOf(items, parents) + [items[leaf].props] == [items[leaf].props];
      while parent.Some?
        invariant parent.Some? ==> parent.value < |items|
        invariant forall m :: 0 <= m < |parents| ==> parents[m] < |items|
        invariant ChainTo(items, leaf) == Up(items, parent) + (PropsOf(items, parents) + [items[leaf].props])
        decreases if parent.Some? then parent.value + 1 else 0
      {
        ClimbStep(items, parent.value, parents, items[leaf].props);
        parents := [parent.value] + parents;
        parent := items[parent.value].parent;
      }
    }
  }
}
