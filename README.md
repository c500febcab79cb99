# VIPS output projection, modelled in Dafny

This project models the output stage of VIPS (Visual Internet Page
Segmentation), the class `VipsOutput` in
`src/main/java/org/fit/vips/VipsOutput.java`. VIPS has already built a tree of
visual blocks and given every node a degree of coherence (DoC). `VipsOutput`
walks that tree once and does four things:

- It decides at every node whether to keep segmenting. It continues when the
  permitted degree of coherence `pDoC` is at least the node's DoC, and stops
  otherwise.
- It emits one `LayoutNode` element per visited node. Each element is numbered
  from a counter that is shared by the whole walk and never reset.
- It fills `SRC` and `Content` from the node's nested blocks.
- For every stopped branch it records the set of DOM ids of the branch's
  blocks. These groups later drive an HTML preview.

The object's configuration setters are modelled too: granularity, file name,
escaping mode and the DOM tree. So are the un-escape pass of the raw output
mode and the preview builder.

Files and modules:

- `vips_tree.dfy` (`VisualTree`): the input tree. A node has a DoC, copied
  descriptive attributes, children and nested blocks. Each nested block has a
  parent box and an optional element box, which is either a synthetic
  `Xdiv`/`Xspan` or a real element. The module also defines `Visitable`, which
  says what the walk needs of its input.
- `content_extractor.dfy` (`ContentExtractor`): `getSource`, the `SRC`,
  `Content` and id aggregates as functions, and the two block loops as methods.
- `projection.dfy` (`Projection`): the output element type and the walk as a
  specification. `Project` gives the element tree, `Emitted` the number of
  elements and `Groups` the id groups. The module holds the lemmas about the
  walk.
- `unescape.dfy` (`Unescape`): `replaceAll` and the three-entity un-escape pass,
  with the serialiser's attribute escaping as its partner.
- `preview.dfy` (`Preview`): attribute stripping and the per-group containers.
- `vips_output.dfy` (`Output`): the class `VipsOutput`, with its fields, setters,
  the recursive walk `WriteVisualBlocks`, `WriteToHtmlDoc` and `WriteXml`.
- `scenarios.dfy` (`Scenarios`): two small pages worked through in full.

Points where the code as written may surprise a reader:

- `getSource` returns `""` for every element. The line that would keep the
  serialised markup (line 69) is commented out. So `SRC` holds only the texts of
  synthetic blocks.
- `DOMIds` is the `toString` of the whole id set (`Stream.of(set)` is a
  one-element stream). It is not a join of the ids in a stable order. The model
  keeps the set itself as the attribute's value.
- The preview visits a group's ids in `HashSet` order, not in insertion order.
  The model lets that order be any enumeration of the set and returns the one
  it took.
- The counter `_order` starts at 1 when the object is created and is never
  reset. A second `writeXML` on the same object goes on numbering where the
  first stopped. The list of groups likewise keeps growing.
- The id of a synthetic block is taken from the parent box of the node's FIRST
  nested block (lines 95 and 153), whichever block is being looked at.

## Model

| member | source | states |
|---|---|---|
| `VisualTree.VisitableAntitone` | src/main/java/org/fit/vips/VipsOutput.java:95-138 | if a page can be walked at one `pDoC` (every visited node has a first nested block), it can be walked at every lower `pDoC`, which visits fewer nodes |
| `ContentExtractor.GetSource` | src/main/java/org/fit/vips/VipsOutput.java:61-75 | the markup of a real element is never kept: the line that would store it is commented out, so the result is always the empty string |
| `ContentExtractor.SrcOf` | src/main/java/org/fit/vips/VipsOutput.java:113-131 | `SRC` (the synthetic blocks' texts and the real blocks' empty sources, in block order) is never longer than `Content` |
| `ContentExtractor.ContentOf` | src/main/java/org/fit/vips/VipsOutput.java:113-131 | `Content` (every present block's text followed by a space, in block order) ends with a space whenever it is non-empty |
| `ContentExtractor.CollectLeafContent` | src/main/java/org/fit/vips/VipsOutput.java:111-132 | the loop of the continue branch produces exactly `SrcOf`/`ContentOf` of the node's blocks |
| `ContentExtractor.CollectStoppedBranch` | src/main/java/org/fit/vips/VipsOutput.java:141-171 | the loop of the stop branch produces exactly the branch's id set, `SRC` and `Content` |
| `ContentExtractor.AggregatesAppend` | src/main/java/org/fit/vips/VipsOutput.java:115-129 | `SRC`, `Content` and the id set follow block order: the aggregate of a concatenation is the concatenation (union) of the parts' aggregates |
| `ContentExtractor.BranchIdsMembers` | src/main/java/org/fit/vips/VipsOutput.java:145-155 | an id is in a branch's group iff some block with an element box yields it: its own id for a real element, the parent box's id for `Xdiv`/`Xspan` |
| `ContentExtractor.EmptyAggregates` | src/main/java/org/fit/vips/VipsOutput.java:141-175 | the group is empty iff no block has an element box, and `Content` is empty in exactly that case |
| `ContentExtractor.SrcWithoutSynthetic` | src/main/java/org/fit/vips/VipsOutput.java:61-75 | because `getSource` always returns `""`, a node without synthetic blocks gets an empty `SRC` |
| `Projection.Emitted` | src/main/java/org/fit/vips/VipsOutput.java:105-107 | the counter advances by at least one per visited node, the node's own element |
| `Projection.Groups` | src/main/java/org/fit/vips/VipsOutput.java:172-175 | the groups the walk appends for a node; a stopped branch appends at most one |
| `Projection.Project` | src/main/java/org/fit/vips/VipsOutput.java:83-178 | the emitted element copies the node's attributes, takes `DOMCldNum` from the first block's parent box and carries the counter value; where `pDoC >= DoC` it has one child per input child and no `DOMIds`; otherwise it has no children but has `DOMIds`, `SRC` and `Content` |
| `Projection.ProjectForest` | src/main/java/org/fit/vips/VipsOutput.java:137-138 | one output child per input child |
| `Projection.ProjectForestPrefix` | src/main/java/org/fit/vips/VipsOutput.java:137-138 | walking the first `k` siblings emits exactly the first `k` elements of the whole list: later siblings never change what was emitted before them |
| `Projection.ProjectForestAt` | src/main/java/org/fit/vips/VipsOutput.java:137-138 | the `i`-th output child is the `i`-th input child walked with the counter left by the siblings before it, so children stay in list order |
| `Projection.ForestStep` | src/main/java/org/fit/vips/VipsOutput.java:137-138 | walking one more sibling extends the elements, the counter and the groups of the siblings before it by that sibling's own |
| `Projection.ForestLast` | src/main/java/org/fit/vips/VipsOutput.java:137-138 | the elements, the counter and the groups of a list of siblings are those of all but the last, followed by the last's own |
| `Projection.WalkStep` | src/main/java/org/fit/vips/VipsOutput.java:137-138 | the walk's accumulated elements, counter and groups, extended by the next sibling's own, agree with the siblings walked so far |
| `Projection.GroupsNonEmpty` | src/main/java/org/fit/vips/VipsOutput.java:166-175 | every recorded group is non-empty |
| `Projection.GroupsForestNonEmpty` | src/main/java/org/fit/vips/VipsOutput.java:137-138 | groups recorded under a list of siblings are all non-empty |
| `Projection.ProjectOrders` | src/main/java/org/fit/vips/VipsOutput.java:105-107 | the orders of the emitted elements, read in pre-order, are exactly `start`, `start+1`, ..., one per emitted element: unique, consecutive, a node before its descendants |
| `Projection.ProjectForestOrders` | src/main/java/org/fit/vips/VipsOutput.java:137-138 | siblings are numbered one after the other, each continuing where the previous subtree stopped |
| `Projection.RangeSplit` | src/main/java/org/fit/vips/VipsOutput.java:105-107 | consecutive runs of counter values join into one run |
| `Projection.ForestSnoc` | src/main/java/org/fit/vips/VipsOutput.java:137-138 | the orders, the recorded groups and the leaves read back from a list of siblings are those of all but the last, followed by the last's own |
| `Projection.ProjectCut` | src/main/java/org/fit/vips/VipsOutput.java:109-177 | throughout the output tree, an element with `DoC > pDoC` is a leaf with `DOMIds`, `SRC` and `Content`; any other element has no `DOMIds`, and has `SRC`/`Content` iff it is a leaf |
| `Projection.ProjectForestCut` | src/main/java/org/fit/vips/VipsOutput.java:137-138 | the cut rule holds in every sibling's subtree |
| `Projection.GroupsAreRecordedIds` | src/main/java/org/fit/vips/VipsOutput.java:166-175 | the groups appended to the list are exactly the non-empty `DOMIds` sets of the emitted elements, in document order |
| `Projection.GroupsForestAreRecordedIds` | src/main/java/org/fit/vips/VipsOutput.java:137-138 | the same agreement over a list of siblings |
| `Projection.EmittedMonotone` | src/main/java/org/fit/vips/VipsOutput.java:109 | raising `pDoC` never reduces the number of emitted elements |
| `Projection.EmittedForestMonotone` | src/main/java/org/fit/vips/VipsOutput.java:137-138 | the same over a list of siblings |
| `Projection.LeavesMonotone` | src/main/java/org/fit/vips/VipsOutput.java:109-177 | raising `pDoC` never reduces the number of leaves of the output tree, whatever the counter starts at |
| `Projection.LeavesForestMonotone` | src/main/java/org/fit/vips/VipsOutput.java:137-138 | the same over a list of siblings |
| `Unescape.ReplaceAll` | src/main/java/org/fit/vips/VipsOutput.java:227-229 | replacing an entity by one character never lengthens the text |
| `Unescape.FrontCopied` | src/main/java/org/fit/vips/VipsOutput.java:227-229 | where the text does not start with the pattern, a match at the front of the result, free of the replacement character, was already at the front of the text |
| `Unescape.ReplaceAllLeavesNoOccurrence` | src/main/java/org/fit/vips/VipsOutput.java:227-229 | after one `replaceAll`, the pattern no longer occurs, and no pattern free of the replacement character is created |
| `Unescape.UnescapeEntities` | src/main/java/org/fit/vips/VipsOutput.java:227-229 | the raw-mode pass never lengthens the document |
| `Unescape.NoEntitiesLeft` | src/main/java/org/fit/vips/VipsOutput.java:227-229 | after the pass the document contains no `&gt;`, `&lt;` or `&quot;` |
| `Unescape.UnescapeWithoutAmpersand` | src/main/java/org/fit/vips/VipsOutput.java:227-229 | a document without `&` is left unchanged |
| `Unescape.UnescapeInvertsEscape` | src/main/java/org/fit/vips/VipsOutput.java:219-229 | for attribute text without `&`, raw mode gives back exactly the text the serialiser escaped, literal `<`, `>` and `"` included |
| `Unescape.EscapeRemovesSpecials` | src/main/java/org/fit/vips/VipsOutput.java:219-221 | with escaping on, attribute text carries no literal `<`, `>` or `"` |
| `Preview.RemoveAttr` | src/main/java/org/fit/vips/VipsOutput.java:253-255 | removing the attribute deletes that key only, keeps the other attributes, the tag and the children, and returns a text node unchanged |
| `Preview.StripShallow` | src/main/java/org/fit/vips/VipsOutput.java:252-256 | the id attribute is gone from the found node, which keeps its tag and other attributes, and each direct child is that child with the attribute removed (so other attributes, tags and text children are kept); the children's own children are unchanged, so deeper descendants keep it; a text node is returned unchanged |
| `Preview.NeedsLookupIffGroups` | src/main/java/org/fit/vips/VipsOutput.java:244-250 | when every group is non-empty, as the walk guarantees, some id must be looked up exactly when a group was recorded |
| `Preview.StripIdAttribute` | src/main/java/org/fit/vips/VipsOutput.java:253-256 | the loop over the children strips exactly as `StripShallow` says |
| `Preview.BuildContainer` | src/main/java/org/fit/vips/VipsOutput.java:245-259 | the inner loop visits every id of the group exactly once and the container holds, in visiting order, the stripped node of each id the tree has |
| `Preview.FoundMembers` | src/main/java/org/fit/vips/VipsOutput.java:246-258 | a node is in a container iff it is the stripped node of some visited id that the tree has; missing ids are skipped |
| `Preview.FoundBounded` | src/main/java/org/fit/vips/VipsOutput.java:246-258 | a container never holds more nodes than ids visited, and exactly as many when every id is found |
| `Output.StoredText` | src/main/java/org/fit/vips/VipsOutput.java:219-234 | with escaping on, the serialised text is stored as is; in raw mode it is un-escaped, never longer, and unchanged when it has no `&` |
| `Output.VipsOutput.constructor` | src/main/java/org/fit/vips/VipsOutput.java:39-48 | escaping on, `pDoC` 0, counter 1, file name `VIPSResult`, no DOM tree, no groups |
| `Output.VipsOutput.WithPDoC` | src/main/java/org/fit/vips/VipsOutput.java:50-53 | the defaults, then `pDoC` is the argument if it lies in [1, 11] and stays 0 otherwise; the DOM tree is set |
| `Output.VipsOutput.SetEscapeOutput` | src/main/java/org/fit/vips/VipsOutput.java:272-274 | the escaping mode becomes the argument |
| `Output.VipsOutput.SetPDoC` | src/main/java/org/fit/vips/VipsOutput.java:281-288 | `pDoC` takes the argument exactly when 1 <= p <= 11 and is unchanged otherwise |
| `Output.VipsOutput.SetOutputFileName` | src/main/java/org/fit/vips/VipsOutput.java:295-300 | a non-empty name replaces the file name; `""` leaves it unchanged |
| `Output.VipsOutput.SetDomTree` | src/main/java/org/fit/vips/VipsOutput.java:302-304 | the DOM tree becomes the argument |
| `Output.VipsOutput.WriteVisualBlocks` | src/main/java/org/fit/vips/VipsOutput.java:83-178 | appends to the parent exactly `Project(v, pDoC, old counter)`, advances the counter by the number of emitted elements, and appends `Groups(v, pDoC)` to the group list |
| `Output.VipsOutput.WriteChildVisualBlocks` | src/main/java/org/fit/vips/VipsOutput.java:137-138 | walks the children in list order: returns `ProjectForest` of the children from the old counter, advances the counter by their emitted elements and appends their groups |
| `Output.VipsOutput.WriteToHtmlDoc` | src/main/java/org/fit/vips/VipsOutput.java:241-265 | one container per recorded group, in list order, each built from an enumeration of its group; no preview exactly when no DOM tree was set and some group holds an id to look up; empty groups give empty containers |
| `Output.VipsOutput.WriteXml` | src/main/java/org/fit/vips/VipsOutput.java:186-239 | the root holds the metadata, `neworder` 0 and the walked tree; counter and groups advance as in the walk; the file `<name>.xml` gets the serialised page, un-escaped in raw mode, and is not written when the preview fails (no DOM tree and some group holds an id) |
| `Scenarios.SiblingGroupsInListOrder` | src/main/java/org/fit/vips/VipsOutput.java:137-175 | two stopped sibling branches with ids `a` and `b` record `[{a}, {b}]`, in sibling order, and three elements are emitted |
| `Scenarios.CoherenceScenario` | src/main/java/org/fit/vips/VipsOutput.java:105-177 | DoC 2 at the root and 5 and 9 at its children, with `pDoC` 5: the nodes are numbered 1, 2, 3; the DoC-5 child continues as a leaf with `Content` but no `DOMIds`; the DoC-9 child stops with `DOMIds` `{y}`, the only group recorded |

## Left out

- Building the XML DOM and serialising it with a `Transformer` (lines 64-68, 188-224). The walk produces a typed element tree (`LayoutNode`, `VipsPage`), not string attributes. `WriteXml` takes the serialiser as the function parameter `serialize`.
- Number formatting (`String.valueOf`) and the `Viewport`/box getters for the URL, title and geometry. These are copied values; `PageMetadata` and `Descriptor` carry them unchanged.
- File writing (`<name>.xml`, `out.html`) and the messages printed to the error stream. `WriteXml` returns the file it would write; the preview body is returned and not written.
- The HTML parser and `getElementById`. The DOM tree is a map from id to the parsed node. The serialise-and-reparse of each looked-up element, the `unwrap` of the body and the `<meta charset>` head are not modelled.
- The name of the bookkeeping id attribute. It is a constant of `Vips.java`, which is not part of this model, so it is the parameter `key`.
- Unescape.EscapeAttribute: models the serialiser's attribute escaping only for `&`, `<`, `>` and `"`. Character references the serialiser may emit for other characters are not modelled.
- Output.VipsOutput.WriteVisualBlocks: requires that every visited node has a nested block. In the source, `get(0)` on line 95 would throw, and `writeXML` would catch the exception half-way through the walk. A missing parent box (a null pointer) and a parent box that is not a block box (the cast on line 153) are excluded by the input types.
- Output.VipsOutput.WriteVisualBlocks: builds each element's children before appending the element to its parent. The source appends first and fills in the children through the shared reference. The final tree is the same, but the model does not capture the aliasing.
- Projection.Project: the source's guard `getNestedBlocks().size() > 0` (lines 112 and 142) always holds after line 95, so the model leaves it out.
- The counter `_order` is a 32-bit `int` in the source. The model uses unbounded integers and does not model wrap-around after 2^31 - 1 emitted elements.
- Exceptions inside `getSource` are caught and give `""`. That matches the constant result the model already gives.
- The title lookup (line 194) can fail on a page without a `title` element. The title is an input of `PageMetadata`, so this failure is not modelled.
