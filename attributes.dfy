/** What one element declares for itself: its plain XML attributes first, then
    the `<attribute name= value=>` children of its `<attributes>` children, in
    document order. A declaration called `tags` is split into tags; any other
    is put into the attribute map, a later one replacing an earlier one. */
module Attributes {
  import opened Wrappers
  import opened Xml
  import opened Tags
  import opened Seqs

  /** The locally declared attributes and tags of a node or a nodeset. */
  datatype Props = Props(attributes: map<string, string>, tags: set<string>)

  const NoProps := Props(map[], {})

  /** The reserved declaration name that holds a tag list. */
  const TagsName := "tags"

  /** One `name = value` declaration applied to the props. */
  function Declare(p: Props, d: Attr): Props {
    if d.name != TagsName then p.(attributes := p.attributes[d.name := d.value])
    else p.(tags := p.tags + TagString(d.value))
  }

  /** The declarations applied one after the other, first to last. */
  function ApplyAll(p: Props, ds: seq<Attr>): Props
    decreases |ds|
  {
    if ds == [] then p else Declare(ApplyAll(p, ds[..|ds| - 1]), ds[|ds| - 1])
  }

  /** The declaration an `<attribute>` element makes: none unless it has both a
      `name` and a `value` attribute. */
  function AttributeDeclaration(a: Element): (r: Option<Attr>)
    ensures r.Some? <==> AttributeValue(a, "name").Some? && AttributeValue(a, "value").Some?
  {
    match (AttributeValue(a, "name"), AttributeValue(a, "value"))
    case (Some(n), Some(v)) => Some(Attr(n, v))
    case _ => None
  }

  /** The declarations of the `attribute` elements among `gs`, the children of
      one `<attributes>` element. */
  function DeclaredIn(gs: seq<Element>): seq<Attr>
    decreases |gs|
  {
    if gs == [] then []
    else
      var g := gs[|gs| - 1];
      if g.name == "attribute" && AttributeDeclaration(g).Some? then DeclaredIn(gs[..|gs| - 1]) + [AttributeDeclaration(g).value]
      else DeclaredIn(gs[..|gs| - 1])
  }

  /** The declarations of the path `attributes/attribute` below the children `cs`. */
  function AttributeElements(cs: seq<Element>): seq<Attr>
    decreases |cs|
  {
    if cs == [] then []
    else
      var c := cs[|cs| - 1];
      if c.name == "attributes" then AttributeElements(cs[..|cs| - 1]) + DeclaredIn(c.children)
      else AttributeElements(cs[..|cs| - 1])
  }

  /** Every declaration an element makes, in the order they are applied. */
  function Declarations(e: Element): seq<Attr> {
    e.attributes + AttributeElements(e.children)
  }

  /** The props `parseElementNodeAttributes` gives a fresh item. */
  function NodeAttributes(e: Element): Props {
    ApplyAll(NoProps, Declarations(e))
  }

  /** The last declaration of a name other than `tags` is the value stored. */
  lemma {:induction false} LastDeclarationWins(p: Props, ds: seq<Attr>, i: nat)
    requires i < |ds| && ds[i].name != TagsName
    requires forall j :: i < j < |ds| ==> ds[j].name != ds[i].name
    ensures ds[i].name in ApplyAll(p, ds).attributes
    ensures ApplyAll(p, ds).attributes[ds[i].name] == ds[i].value
    decreases |ds|
  {
    if i < |ds| - 1 {
      LastDeclarationWins(p, ds[..|ds| - 1], i);
    }
  }

  /** A name nobody declares keeps whatever it had. */
  lemma {:induction false} UndeclaredUnchanged(p: Props, ds: seq<Attr>, k: string)
    requires forall j :: 0 <= j < |ds| ==> ds[j].name != k
    ensures k in ApplyAll(p, ds).attributes <==> k in p.attributes
    ensures k in p.attributes ==> ApplyAll(p, ds).attributes[k] == p.attributes[k]
    decreases |ds|
  {
    if ds != [] {
      UndeclaredUnchanged(p, ds[..|ds| - 1], k);
    }
  }

  /** The attribute names afterwards are the earlier ones and every declared
      name except `tags`. */
  lemma {:induction false} DeclaredKeys(p: Props, ds: seq<Attr>, k: string)
    requires k != TagsName
    ensures k in ApplyAll(p, ds).attributes <==>
      k in p.attributes || exists j :: 0 <= j < |ds| && ds[j].name == k
    decreases |ds|
  {
    if ds != [] {
      var init := ds[..|ds| - 1];
      DeclaredKeys(p, init, k);
      if exists j :: 0 <= j < |init| && init[j].name == k {
        var j :| 0 <= j < |init| && init[j].name == k;
        assert ds[j].name == k;
      }
      if exists j :: 0 <= j < |ds| && ds[j].name == k {
        var j :| 0 <= j < |ds| && ds[j].name == k;
        if j < |init| { assert init[j].name == k; }
      }
    }
  }

  /** `tags` never becomes an attribute: whatever it declares goes to the tag set. */
  lemma {:induction false} TagsNeverStored(p: Props, ds: seq<Attr>)
    requires TagsName !in p.attributes
    ensures TagsName !in ApplyAll(p, ds).attributes
    decreases |ds|
  {
    if ds != [] {
      TagsNeverStored(p, ds[..|ds| - 1]);
    }
  }

  /** The tags afterwards are the earlier ones together with every piece of
      every `tags` declaration; none is ever removed. */
  lemma {:induction false} TagsCollected(p: Props, ds: seq<Attr>, t: string)
    ensures t in ApplyAll(p, ds).tags <==>
      t in p.tags || exists j :: 0 <= j < |ds| && ds[j].name == TagsName && t in TagString(ds[j].value)
    decreases |ds|
  {
    if ds != [] {
      var init := ds[..|ds| - 1];
      TagsCollected(p, init, t);
      if exists j :: 0 <= j < |init| && init[j].name == TagsName && t in TagString(init[j].value) {
        var j :| 0 <= j < |init| && init[j].name == TagsName && t in TagString(init[j].value);
        assert ds[j] == init[j];
      }
      if exists j :: 0 <= j < |ds| && ds[j].name == TagsName && t in TagString(ds[j].value) {
        var j :| 0 <= j < |ds| && ds[j].name == TagsName && t in TagString(ds[j].value);
        if j < |init| { assert init[j] == ds[j]; }
      }
    }
  }

  /** An element never stores `tags` as an attribute, whether it appears as a
      plain attribute or as an `<attribute name="tags">`. */
  lemma NodeAttributesReserveTags(e: Element)
    ensures TagsName !in NodeAttributes(e).attributes
  {
    TagsNeverStored(NoProps, Declarations(e));
  }

  /** An element's tags are exactly the pieces of its `tags` declarations. */
  lemma NodeAttributesTags(e: Element, t: string)
    ensures t in NodeAttributes(e).tags <==>
      exists j :: 0 <= j < |Declarations(e)| && Declarations(e)[j].name == TagsName
        && t in TagString(Declarations(e)[j].value)
  {
    TagsCollected(NoProps, Declarations(e), t);
  }

  /** On one element an `<attribute>` declaration is applied after the plain
      attributes, so for the same name the last `<attribute>` wins. */
  lemma AttributeElementWins(e: Element, i: nat)
    requires i < |AttributeElements(e.children)|
    requires AttributeElements(e.children)[i].name != TagsName
    requires forall j :: i < j < |AttributeElements(e.children)| ==>
      AttributeElements(e.children)[j].name != AttributeElements(e.children)[i].name
    ensures AttributeElements(e.children)[i].name in NodeAttributes(e).attributes
    ensures NodeAttributes(e).attributes[AttributeElements(e.children)[i].name]
      == AttributeElements(e.children)[i].value
  {
    var ds := Declarations(e);
    var n := |e.attributes|;
    assert ds[n + i] == AttributeElements(e.children)[i];
    LastDeclarationWins(NoProps, ds, n + i);
  }

  /** A plain XML attribute other than `tags` is stored verbatim unless a later
      declaration of the same name replaces it. */
  lemma PlainAttributeStored(e: Element, i: nat)
    requires i < |e.attributes| && e.attributes[i].name != TagsName
    requires forall j :: i < j < |Declarations(e)| ==> Declarations(e)[j].name != e.attributes[i].name
    ensures e.attributes[i].name in NodeAttributes(e).attributes
    ensures NodeAttributes(e).attributes[e.attributes[i].name] == e.attributes[i].value
  {
    LastDeclarationWins(NoProps, Declarations(e), i);
  }

  lemma {:induction false} DeclaredInAppend(xs: seq<Element>, ys: seq<Element>)
    ensures DeclaredIn(xs + ys) == DeclaredIn(xs) + DeclaredIn(ys)
    decreases |ys|
  {
    if ys == [] {
      assert xs + ys == xs;
    } else {
      AppendInit(xs, ys);
      DeclaredInAppend(xs, ys[..|ys| - 1]);
    }
  }

  lemma {:induction false} AttributeElementsAppend(xs: seq<Element>, ys: seq<Element>)
    ensures AttributeElements(xs + ys) == AttributeElements(xs) + AttributeElements(ys)
    decreases |ys|
  {
    if ys == [] {
      assert xs + ys == xs;
    } else {
      var init, c := ys[..|ys| - 1], ys[|ys| - 1];
      var tail := if c.name == "attributes" then DeclaredIn(c.children) else [];
      AppendInit(xs, ys);
      assert AttributeElements(xs + ys) == AttributeElements(xs + init) + tail;
      assert AttributeElements(ys) == AttributeElements(init) + tail;
      AttributeElementsAppend(xs, init);
      AppendAssoc(AttributeElements(xs), AttributeElements(init), tail);
    }
  }

  lemma DeclaredInSkips(g: Element)
    requires AttributeDeclaration(g).None?
    ensures DeclaredIn([g]) == []
  {
    assert [g][..0] == [];
  }

  lemma DeclaredInSplice(pre: seq<Element>, g: Element, post: seq<Element>)
    ensures DeclaredIn((pre + [g]) + post) == (DeclaredIn(pre) + DeclaredIn([g])) + DeclaredIn(post)
  {
    DeclaredInAppend(pre + [g], post);
    DeclaredInAppend(pre, [g]);
  }

  lemma DeclaredInWithout(gs: seq<Element>, j: nat)
    requires j < |gs| && AttributeDeclaration(gs[j]).None?
    ensures DeclaredIn(gs[..j] + gs[j + 1..]) == DeclaredIn(gs)
  {
    var pre, g, post := gs[..j], gs[j], gs[j + 1..];
    SpliceAt(gs, j);
    DeclaredInSplice(pre, g, post);
    DeclaredInSkips(g);
    DeclaredInAppend(pre, post);
    calc {
      DeclaredIn(gs);
      (DeclaredIn(pre) + []) + DeclaredIn(post);
      { assert DeclaredIn(pre) + [] == DeclaredIn(pre); }
      DeclaredIn(pre + post);
    }
  }

  lemma AttributeElementsSplice(pre: seq<Element>, c: Element, post: seq<Element>)
    ensures AttributeElements((pre + [c]) + post)
      == (AttributeElements(pre) + AttributeElements([c])) + AttributeElements(post)
  {
    AttributeElementsAppend(pre + [c], post);
    AttributeElementsAppend(pre, [c]);
  }

  lemma AttributeElementsReplace(cs: seq<Element>, i: nat, c': Element)
    requires i < |cs| && cs[i].name == c'.name
    requires DeclaredIn(c'.children) == DeclaredIn(cs[i].children)
    ensures AttributeElements(cs[i := c']) == AttributeElements(cs)
  {
    var pre, c, post := cs[..i], cs[i], cs[i + 1..];
    assert AttributeElements([c]) == AttributeElements([c']) by {
      assert [c][..0] == [] && [c'][..0] == [];
    }
    SpliceAt(cs, i);
    SpliceAt(cs[i := c'], i);
    assert cs[i := c'][..i] == pre && cs[i := c'][i + 1..] == post;
    AttributeElementsSplice(pre, c, post);
    AttributeElementsSplice(pre, c', post);
  }

  /** An `<attribute>` element without a `name` or without a `value` is skipped
      without an error: removing it from its `<attributes>` parent changes
      nothing the element declares. */
  lemma MalformedAttributeSkipped(e: Element, i: nat, j: nat)
    requires i < |e.children| && e.children[i].name == "attributes"
    requires j < |e.children[i].children|
    requires AttributeValue(e.children[i].children[j], "name").None?
          || AttributeValue(e.children[i].children[j], "value").None?
    ensures var c := e.children[i];
            var c' := c.(children := c.children[..j] + c.children[j + 1..]);
            var e' := e.(children := e.children[i := c']);
            Declarations(e') == Declarations(e) && NodeAttributes(e') == NodeAttributes(e)
  {
    var c := e.children[i];
    var c' := c.(children := c.children[..j] + c.children[j + 1..]);
    DeclaredInWithout(c.children, j);
    AttributeElementsReplace(e.children, i, c');
  }

  lemma {:induction false} DeclaredInNamed(gs: seq<Element>)
    ensures DeclaredIn(Named(gs, "attribute")) == DeclaredIn(gs)
    decreases |gs|
  {
    if gs != [] {
      var init, g := gs[..|gs| - 1], gs[|gs| - 1];
      DeclaredInNamed(init);
      var step := if g.name == "attribute" then [g] else [];
      DeclaredInAppend(Named(init, "attribute"), step);
      if g.name == "attribute" {
        assert [g][..0] == [];
      }
    }
  }

  /** The declarations below the children are those of the path
      `attributes/attribute`, taken as one flat list. */
  lemma {:induction false} AttributeElementsSelected(cs: seq<Element>)
    ensures AttributeElements(cs) == DeclaredIn(Select(cs, "attributes", "attribute"))
    decreases |cs|
  {
    if cs != [] {
      var init, c := cs[..|cs| - 1], cs[|cs| - 1];
      AttributeElementsSelected(init);
      var step := if c.name == "attributes" then Named(c.children, "attribute") else [];
      DeclaredInAppend(Select(init, "attributes", "attribute"), step);
      if c.name == "attributes" {
        DeclaredInNamed(c.children);
      }
    }
  }
}
