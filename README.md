# Nodeset XML resource parser, modelled in Dafny

This project models the Rundeck resource-format parser `NodesetResourceFormatParser`. It reads a `nodesetxml`
document, in which `<nodeset>` groups nest and hold `<node>` leaves, and produces a node set keyed by node name.
Every node inherits the attributes and tags of the groups above it.

The input is an already-parsed element tree (`Xml.Element`): a name, ordered attribute pairs and ordered children.
The parser works in three parts, and the model keeps each in the imperative form the Java code has:

- **Tree builder.** `loadNodes`, `parseNodeSetElement`, `parseSubNodeSets` and `parseNodeSets` become methods of
  the class `NodeTree.Builder`.
  - Its field `items` is an arena of `NodeItem`/`NodeSet` objects. A parent link is an index, and it always
    points to an earlier item.
  - Its field `allnodes` is the shared leaf list.
  - Each method is proved against the pure leaf order `Tree.Leaves`: for every nodeset, first its own `<node>`
    children, then the leaves of its `<nodeset>` children, recursively.
  - `loadNodes` parses the root's sub-nodesets a second time. `Tree.AllNodes` is the doubled leaf list that
    results, and `Tree.SinglePassSameSink` proves the resulting node set is the same as after a single pass.
- **Attribute reader.** `parseElementNodeAttributes` applies an element's plain XML attributes, then its
  `attributes/attribute` children, as a sequence of declarations (`Attributes.Declarations`).
  - The name `tags` is reserved. Its value is split by `tagString` (module `Tags`, Java's `split(",\\s*")`)
    and added to the tag set.
  - An `<attribute>` that lacks a `name` or a `value` is skipped.
- **Resolver.** `fillNodes` walks each leaf's parents up to the root and merges their props root first with
  `updateNodeEntry` (`Resolution.Resolve`). The result goes into the node set under the leaf's own `name`
  attribute, which may be absent; a later node with the same key replaces an earlier one.

`Parser.LoadNodes` runs the whole pipeline. It is proved equal to the specification `Tree.LoadSpec`, and equal to
filling an empty node set from the single-pass leaf list.

## Model

| member | source | states |
|---|---|---|
| Parser.LoadNodes | src/main/java/org/rundeck/plugins/resourceparser/NodesetResourceFormatParser.java:73-86 | fails exactly when the root is not named `nodeset`, and then with the format error; otherwise yields `LoadSpec`, which is the sink filled from the single-pass leaf list |
| Tree.RootChecked | src/main/java/org/rundeck/plugins/resourceparser/NodesetResourceFormatParser.java:77-80 | the load fails if and only if the root name is not exactly `nodeset`, and the error carries the message "nodesetxml format error: root element should be 'nodeset'" |
| Tree.SinglePassSameSink | src/main/java/org/rundeck/plugins/resourceparser/NodesetResourceFormatParser.java:82-84 | parsing the root's sub-nodesets twice stores duplicate leaves, but the final node set equals the single-pass one |
| Tree.SinkEntries | src/main/java/org/rundeck/plugins/resourceparser/NodesetResourceFormatParser.java:93-113 | every key in the loaded node set is the name of some leaf; the entry stored under it carries that name, and a named node keeps its `name` attribute |
| Tree.EmptyDocument | src/main/java/org/rundeck/plugins/resourceparser/NodesetResourceFormatParser.java:73-86 | an empty `<nodeset/>` document loads to an empty node set without error |
| Tree.NodeLeaves | src/main/java/org/rundeck/plugins/resourceparser/NodesetResourceFormatParser.java:152-160 | each `<node>` leaf chain has exactly two props, and the first is the nodeset's |
| Tree.NodeLeavesNamed | src/main/java/org/rundeck/plugins/resourceparser/NodesetResourceFormatParser.java:152-160 | the node leaves are the `<node>` children in document order, each with the chain [nodeset props, that node's props] |
| Tree.NodesetCountNamed | src/main/java/org/rundeck/plugins/resourceparser/NodesetResourceFormatParser.java:131-136 | the subsets counted are exactly the `<nodeset>` children, in document order |
| Tree.Leaves | src/main/java/org/rundeck/plugins/resourceparser/NodesetResourceFormatParser.java:147-165 | every leaf chain of a nodeset starts with that nodeset's props and holds at least the leaf below it |
| Tree.SubsetLeaves | src/main/java/org/rundeck/plugins/resourceparser/NodesetResourceFormatParser.java:163-173 | every leaf chain below the `<nodeset>` children holds at least a subset root and a leaf; the chains come child by child, in document order |
| Tree.AllNodes | src/main/java/org/rundeck/plugins/resourceparser/NodesetResourceFormatParser.java:82-83 | the leaf list `loadNodes` builds: a full pass over the root, then the root's sub-nodesets once more |
| Tree.LoadSpec | src/main/java/org/rundeck/plugins/resourceparser/NodesetResourceFormatParser.java:73-86 | a root not named `nodeset` is the format error; otherwise the sink filled, in order, from the doubled leaf list |
| Tree.NoTagsAttribute | src/main/java/org/rundeck/plugins/resourceparser/NodesetResourceFormatParser.java:186-203 | no node of a loaded document has a `tags` attribute, whichever level of the tree declared it |
| Tree.LeavesTagsFree | src/main/java/org/rundeck/plugins/resourceparser/NodesetResourceFormatParser.java:184-205 | no props along any leaf chain holds a `tags` attribute, because each is the props of some element |
| NodeTree.Builder.ParseNodeSetElement | src/main/java/org/rundeck/plugins/resourceparser/NodesetResourceFormatParser.java:147-165 | appends one new group whose root has the element's props and one `nodes` entry per `<node>` child, whose leaves are appended to `allnodes` in the order `Tree.Leaves` gives, and whose subsets are as many as its `<nodeset>` children; earlier items and leaves are kept |
| NodeTree.Builder.ParseNodeItems | src/main/java/org/rundeck/plugins/resourceparser/NodesetResourceFormatParser.java:151-160 | the `<node>` loop: one leaf per `<node>` child, in document order, parented to the new nodeset, listed in its `nodes` and appended to `allnodes` |
| NodeTree.Builder.AddNodeItem | src/main/java/org/rundeck/plugins/resourceparser/NodesetResourceFormatParser.java:154-159 | one leaf with the element's props and the nodeset as parent is added to the arena, to the nodeset's `nodes` and to `allnodes` |
| NodeTree.Builder.ParseSubNodeSets | src/main/java/org/rundeck/plugins/resourceparser/NodesetResourceFormatParser.java:167-173 | the `<nodeset>` children become groups whose roots get the nodeset as parent and are appended to its `subsets`; the leaves appended resolve to the chains of `SubsetLeaves` under that nodeset |
| NodeTree.Builder.ParseNodeSets | src/main/java/org/rundeck/plugins/resourceparser/NodesetResourceFormatParser.java:129-138 | returns one new group root per `<nodeset>` child, in document order, each parsed as a full nodeset, with their leaves appended to `allnodes` in that order |
| NodeTree.Builder.ParseElementNodeAttributes | src/main/java/org/rundeck/plugins/resourceparser/NodesetResourceFormatParser.java:182-206 | the item's props become its old props with the element's plain attributes and then its `attributes/attribute` declarations applied in order; nothing else changes |
| NodeTree.Builder.FillNodes | src/main/java/org/rundeck/plugins/resourceparser/NodesetResourceFormatParser.java:93-115 | the node set becomes the old one filled, in `allnodes` order, with the resolution of each leaf's chain |
| NodeTree.Builder.ResolveItem | src/main/java/org/rundeck/plugins/resourceparser/NodesetResourceFormatParser.java:95-109 | the node is named by the leaf's own `name` attribute and carries the ancestors' props merged root first, then the leaf's |
| NodeTree.Builder.Ancestors | src/main/java/org/rundeck/plugins/resourceparser/NodesetResourceFormatParser.java:99-104 | the unshifted parent list holds, root first, exactly the ancestors whose props precede the leaf's in its chain |
| NodeTree.NodeSink.PutNode | src/main/java/org/rundeck/plugins/resourceparser/NodesetResourceFormatParser.java:113 | `putNode` stores the entry under its name, replacing an earlier entry |
| NodeTree.LoadedChains | src/main/java/org/rundeck/plugins/resourceparser/NodesetResourceFormatParser.java:82-83 | after the two passes of `loadNodes`, the arena's leaf chains in `allnodes` order are exactly `Tree.AllNodes` |
| NodeTree.ReparentInside | src/main/java/org/rundeck/plugins/resourceparser/NodesetResourceFormatParser.java:169-171 | giving a subset root its parent puts the parent's chain in front of the chain of every item below that root |
| NodeTree.ReparentOutside | src/main/java/org/rundeck/plugins/resourceparser/NodesetResourceFormatParser.java:169-171 | giving a subset root its parent leaves the chains of all items in other trees unchanged |
| NodeTree.ChainTo | src/main/java/org/rundeck/plugins/resourceparser/NodesetResourceFormatParser.java:99-104 | the chain of an item ends with the item's own props |
| Xml.AttributeValue | src/main/java/org/rundeck/plugins/resourceparser/NodesetResourceFormatParser.java:196-197 | `attribute(name)` is absent exactly when no attribute has that name, and otherwise returns a value declared under it |
| Xml.Select | src/main/java/org/rundeck/plugins/resourceparser/NodesetResourceFormatParser.java:193 | `selectNodes("attributes/attribute")` yields only `attribute` elements |
| Attributes.Declare | src/main/java/org/rundeck/plugins/resourceparser/NodesetResourceFormatParser.java:186-189 | one declaration: `tags` adds the pieces of its value to the tags, any other name is put into the attributes |
| Attributes.ApplyAll | src/main/java/org/rundeck/plugins/resourceparser/NodesetResourceFormatParser.java:184-205 | declarations applied in order; its meaning is given by `LastDeclarationWins`, `UndeclaredUnchanged`, `DeclaredKeys` and `TagsCollected` |
| Attributes.Declarations | src/main/java/org/rundeck/plugins/resourceparser/NodesetResourceFormatParser.java:184-205 | an element's plain attributes in document order, then its `attributes/attribute` declarations |
| Attributes.AttributeElements | src/main/java/org/rundeck/plugins/resourceparser/NodesetResourceFormatParser.java:193-205 | the declarations of the `<attribute>` children of the `<attributes>` children, in document order |
| Attributes.DeclaredIn | src/main/java/org/rundeck/plugins/resourceparser/NodesetResourceFormatParser.java:194-205 | the declarations of well-formed `<attribute>` elements, in order, skipping those that lack a `name` or a `value` |
| Attributes.NodeAttributes | src/main/java/org/rundeck/plugins/resourceparser/NodesetResourceFormatParser.java:182-206 | the props of one element: its declarations applied to empty props |
| Attributes.AttributeDeclaration | src/main/java/org/rundeck/plugins/resourceparser/NodesetResourceFormatParser.java:196-198 | an `<attribute>` declares something if and only if it has both a `name` and a `value` |
| Attributes.AttributeElementsSelected | src/main/java/org/rundeck/plugins/resourceparser/NodesetResourceFormatParser.java:193-205 | the declarations taken from `<attributes>` children are exactly those of the selected `attributes/attribute` elements, in document order |
| Attributes.MalformedAttributeSkipped | src/main/java/org/rundeck/plugins/resourceparser/NodesetResourceFormatParser.java:196-198 | an `<attribute>` that lacks a `name` or a `value` contributes nothing: removing it leaves the element's declarations and props unchanged |
| Attributes.LastDeclarationWins | src/main/java/org/rundeck/plugins/resourceparser/NodesetResourceFormatParser.java:184-205 | for a name other than `tags`, the last declaration of that name gives the stored value |
| Attributes.UndeclaredUnchanged | src/main/java/org/rundeck/plugins/resourceparser/NodesetResourceFormatParser.java:184-205 | a name never declared keeps its previous presence and value |
| Attributes.DeclaredKeys | src/main/java/org/rundeck/plugins/resourceparser/NodesetResourceFormatParser.java:184-205 | a name other than `tags` is an attribute afterwards if and only if it was before or some declaration names it |
| Attributes.TagsNeverStored | src/main/java/org/rundeck/plugins/resourceparser/NodesetResourceFormatParser.java:186-189 | `tags` never becomes an attribute key |
| Attributes.TagsCollected | src/main/java/org/rundeck/plugins/resourceparser/NodesetResourceFormatParser.java:186-189 | a tag is present afterwards if and only if it was before or it is in the `tagString` of some `tags` declaration |
| Attributes.NodeAttributesReserveTags | src/main/java/org/rundeck/plugins/resourceparser/NodesetResourceFormatParser.java:186-203 | an element's props never hold a `tags` attribute, whether `tags` came as a plain attribute or an `<attribute>` |
| Attributes.NodeAttributesTags | src/main/java/org/rundeck/plugins/resourceparser/NodesetResourceFormatParser.java:186-189 | an element's tags are exactly the pieces of its `tags` declarations, plain or `<attribute>` |
| Attributes.AttributeElementWins | src/main/java/org/rundeck/plugins/resourceparser/NodesetResourceFormatParser.java:184-205 | an `<attribute>` declaration overrides a plain XML attribute of the same name, because it is applied later |
| Attributes.PlainAttributeStored | src/main/java/org/rundeck/plugins/resourceparser/NodesetResourceFormatParser.java:184-191 | a plain attribute not named `tags` and not redeclared later is stored verbatim |
| Tags.Split | src/main/java/org/rundeck/plugins/resourceparser/NodesetResourceFormatParser.java:209 | with no comma the value is one piece; otherwise the pieces up to, and without, the trailing empty ones; no piece holds a comma, no piece after the first starts with whitespace |
| Tags.TagString | src/main/java/org/rundeck/plugins/resourceparser/NodesetResourceFormatParser.java:208-211 | a tag is in the set exactly when it is one of the split pieces, and no tag contains a comma |
| Tags.PiecesAreSeparable | src/main/java/org/rundeck/plugins/resourceparser/NodesetResourceFormatParser.java:209 | the pieces before trailing empty ones are dropped hold no comma, none after the first starts with whitespace, and the first is a prefix of the value |
| Tags.RunThenRest | src/main/java/org/rundeck/plugins/resourceparser/NodesetResourceFormatParser.java:209 | the `\s*` after a comma takes the whole run of whitespace there and nothing more: the run and the rest make up the text again, and the rest does not start with whitespace |
| Tags.JoinOfPieces | src/main/java/org/rundeck/plugins/resourceparser/NodesetResourceFormatParser.java:209 | every value is its pieces joined again with its own separators, each a comma followed by a run of whitespace, possibly empty |
| Tags.PiecesOfJoinWith | src/main/java/org/rundeck/plugins/resourceparser/NodesetResourceFormatParser.java:209 | pieces joined with any comma-and-whitespace separators split back into exactly those pieces and separators, when no piece holds a comma and none after the first starts with whitespace |
| Tags.SplitOfJoinWith | src/main/java/org/rundeck/plugins/resourceparser/NodesetResourceFormatParser.java:209 | splitting ready-made pieces joined with any comma-and-whitespace separators gives the pieces back |
| Tags.SplitIsStable | src/main/java/org/rundeck/plugins/resourceparser/NodesetResourceFormatParser.java:209 | what the split returns, joined with any separators and split again, is unchanged |
| Tags.TagsOfJoinWith | src/main/java/org/rundeck/plugins/resourceparser/NodesetResourceFormatParser.java:208-211 | the tag set of ready-made pieces joined with any separators is the set of those pieces |
| Tags.TagsOfTwo | src/main/java/org/rundeck/plugins/resourceparser/NodesetResourceFormatParser.java:208-211 | two comma-free tags around one comma and any whitespace run give exactly those two tags |
| Tags.ExampleCommaSpace | src/main/java/org/rundeck/plugins/resourceparser/NodesetResourceFormatParser.java:208-211 | `"a, b"` gives `{"a", "b"}` |
| Tags.ExampleNoSpace | src/main/java/org/rundeck/plugins/resourceparser/NodesetResourceFormatParser.java:208-211 | `"a,b"` gives `{"a", "b"}`: the whitespace after a comma may be absent |
| Tags.ExampleTabs | src/main/java/org/rundeck/plugins/resourceparser/NodesetResourceFormatParser.java:208-211 | `"a,\t\tb"` gives `{"a", "b"}`: the whole run of whitespace after a comma belongs to the separator |
| Tags.ExampleLeadingComma | src/main/java/org/rundeck/plugins/resourceparser/NodesetResourceFormatParser.java:208-211 | `",a"` gives `{"", "a"}`: a leading empty piece is kept |
| Tags.ExampleTrailingCommas | src/main/java/org/rundeck/plugins/resourceparser/NodesetResourceFormatParser.java:208-211 | `"a,,"` gives `{"a"}`: trailing empty pieces are dropped |
| Tags.ExampleOnlyComma | src/main/java/org/rundeck/plugins/resourceparser/NodesetResourceFormatParser.java:208-211 | `","` gives no tag at all |
| Tags.ExampleUntrimmed | src/main/java/org/rundeck/plugins/resourceparser/NodesetResourceFormatParser.java:208-211 | `"a , b"` gives `{"a ", "b"}`: whitespace before a comma is kept |
| Tags.ExampleRepeated | src/main/java/org/rundeck/plugins/resourceparser/NodesetResourceFormatParser.java:208-211 | `"x, x"` gives `{"x"}`: duplicates collapse |
| Tags.ExampleEmpty | src/main/java/org/rundeck/plugins/resourceparser/NodesetResourceFormatParser.java:208-211 | `""` gives `{""}`, the empty tag |
| Resolution.UpdateNodeEntry | src/main/java/org/rundeck/plugins/resourceparser/NodesetResourceFormatParser.java:117-120 | the item's attributes override the entry's, the entry's other attributes stay, and the tags are the union of both |
| Resolution.Resolve | src/main/java/org/rundeck/plugins/resourceparser/NodesetResourceFormatParser.java:99-109 | the props of a chain merged into an empty entry with `updateNodeEntry`, root first; its meaning is given by `ResolvedKeys`, `NearestDeclarationWins` and `ResolvedTags` |
| Resolution.NameOf | src/main/java/org/rundeck/plugins/resourceparser/NodesetResourceFormatParser.java:95 | the key of a leaf is its own local `name` attribute, or none |
| Resolution.Fill | src/main/java/org/rundeck/plugins/resourceparser/NodesetResourceFormatParser.java:93-115 | each leaf chain in turn resolved and put into the sink; its meaning is given by `FillKeys`, `LastLeafWins` and `FillKeepsOthers` |
| Resolution.PutNode | src/main/java/org/rundeck/plugins/resourceparser/NodesetResourceFormatParser.java:113 | the node set gains the entry under its name, replacing only that key |
| Resolution.ResolvedKeys | src/main/java/org/rundeck/plugins/resourceparser/NodesetResourceFormatParser.java:106-109 | a resolved node has an attribute exactly when some props of its chain declare it |
| Resolution.NearestDeclarationWins | src/main/java/org/rundeck/plugins/resourceparser/NodesetResourceFormatParser.java:99-109 | the declaration nearest the leaf gives the value: the leaf over intermediate groups over the root group |
| Resolution.ResolvedTags | src/main/java/org/rundeck/plugins/resourceparser/NodesetResourceFormatParser.java:106-109 | a resolved node's tags are exactly the union of the tags along its chain |
| Resolution.NameKept | src/main/java/org/rundeck/plugins/resourceparser/NodesetResourceFormatParser.java:95-109 | a leaf's own `name` is the resolved node's `name` attribute, whatever its ancestors declare |
| Resolution.FillAppend | src/main/java/org/rundeck/plugins/resourceparser/NodesetResourceFormatParser.java:93-94 | filling from two leaf lists in turn equals filling from their concatenation |
| Resolution.FillOverrides | src/main/java/org/rundeck/plugins/resourceparser/NodesetResourceFormatParser.java:93-115 | filling a non-empty node set overrides it with what filling an empty one gives |
| Resolution.FillTwice | src/main/java/org/rundeck/plugins/resourceparser/NodesetResourceFormatParser.java:93-115 | filling the same leaf list a second time changes nothing |
| Resolution.FillKeys | src/main/java/org/rundeck/plugins/resourceparser/NodesetResourceFormatParser.java:95-113 | a key is in the filled node set exactly when it was before or some leaf is named so |
| Resolution.LastLeafWins | src/main/java/org/rundeck/plugins/resourceparser/NodesetResourceFormatParser.java:113 | a node is stored as the resolution of the last leaf that carries its name |
| Resolution.FillKeepsOthers | src/main/java/org/rundeck/plugins/resourceparser/NodesetResourceFormatParser.java:113 | keys no leaf names keep their earlier entries |
| Resolution.LastWithName | src/main/java/org/rundeck/plugins/resourceparser/NodesetResourceFormatParser.java:113 | the last index of a leaf with a given name, or -1 if there is none |

## Left out

- Reading the XML text: `parseDocument(InputStream)` with `SAXReader` and the wrapping of `DocumentException`
  (:234-243) belong to a foreign library. The model starts from the element tree.
- `parseDocument(File)` and `closeQuietly` (:44-64) only manage the stream's lifecycle.
- `getFileExtensions`, `getMIMETypes` and the plugin annotations (:26-42) are constant metadata.
- `NodeEntryImpl` and `NodeSetImpl` are host types with hidden internals. A node is its name with a map of attributes
  and a tag set, and the node set is a map from an optional name to a node with overwrite on insert. The
  `getTags`/`setTags` round trip (:111-112) is treated as having no effect.
- dom4j XPath: `selectNodes("node")` and `selectNodes("nodeset")` are modelled as filtering the direct children by name.
  `selectNodes("attributes/attribute")` takes the `attribute` children of each `attributes` child, in document
  order. Namespaces, text content and the other node kinds are not modelled.
- The Java regex engine: `split(",\\s*")` is written out as a string function over Java's six `\s` characters.
- HashMap and HashSet iteration order is not modelled; maps and sets are unordered.
- Object identity: items live in an arena (`NodeTree.Builder.items`) whose parent links are indices. Aliasing between
  `NodeItem` objects is not modelled beyond that.
- NodeTree.ChainTo: the chain is defined for arenas where every parent index precedes its child (`Builder.Valid`).
  The builder only produces such arenas; the fallback for other arenas is not part of the source.
- Parser.LoadNodes: its contract states the resulting node set. The doubled `rootSet.subsets` that the second pass
  leaves behind is stated by the subset counts in the contracts of `ParseNodeSetElement` and `ParseSubNodeSets`.
