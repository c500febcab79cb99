/**
 * The VipsOutput object: its configuration (granularity `pDoC`, file name,
 * escaping mode, the original DOM tree), the counter that numbers emitted
 * elements, and the list of id groups the walk records for the preview.
 */
module Output {
  import opened VisualTree
  import opened ContentExtractor
  import opened Projection
  import opened Unescape
  import opened Preview

  /** The page-level values the root `VIPSPage` element carries. */
  datatype PageMetadata = PageMetadata(
    url: string,
    pageTitle: string,
    contentWidth: int,
    contentHeight: int,
    absoluteContentX: int,
    absoluteContentY: int,
    order: int)

  /**
   * The root element: the page metadata (window and page-rectangle size are both
   * the content size), the fixed `neworder` marker and the one `LayoutNode`
   * the walk appended.
   */
  datatype VipsPage = VipsPage(meta: PageMetadata, newOrder: int, children: seq<LayoutNode>)

  /** A file the object writes: its name and its text. */
  datatype OutputFile = OutputFile(path: string, text: string)

  const DefaultFileName: string := "VIPSResult"
  const MinPDoC: int := 1
  const MaxPDoC: int := 11

  /** The text stored for a serialised document: as it is, or with the entities undone. */
  function StoredText(serialized: string, escapeOutput: bool): (r: string)
    ensures escapeOutput ==> r == serialized
    ensures !escapeOutput ==> |r| <= |serialized| && ('&' !in serialized ==> r == serialized)
  {
    if escapeOutput then serialized
    else
      assert '&' !in serialized ==> UnescapeEntities(serialized) == serialized by {
        if '&' !in serialized {
          UnescapeWithoutAmpersand(serialized);
        }
      }
      UnescapeEntities(serialized)
  }

  class VipsOutput {
    var escapeOutput: bool
    var pDoC: int
    var order: int
    var fileName: string
    var domTree: Option<map<string, HtmlNode>>
    var domIds: seq<set<string>>

    /** The defaults: escaping on, `pDoC` 0 (stop at once), numbering from 1. */
    constructor ()
      ensures escapeOutput && pDoC == 0 && order == 1 && fileName == DefaultFileName
      ensures domTree.None? && domIds == []
    {
      escapeOutput := true;
      pDoC := 0;
      order := 1;
      fileName := DefaultFileName;
      domTree := None;
      domIds := [];
    }

    /** The defaults, then `SetPDoC(p)` and the DOM tree. */
    constructor WithPDoC(p: int, tree: map<string, HtmlNode>)
      ensures pDoC == (if MinPDoC <= p <= MaxPDoC then p else 0)
      ensures escapeOutput && order == 1 && fileName == DefaultFileName
      ensures domTree == Some(tree) && domIds == []
    {
      escapeOutput := true;
      pDoC := 0;
      order := 1;
      fileName := DefaultFileName;
      domTree := None;
      domIds := [];
      new;
      SetPDoC(p);
      SetDomTree(tree);
    }

    method SetEscapeOutput(value: bool)
      modifies this`escapeOutput
      ensures escapeOutput == value
    {
      escapeOutput := value;
    }

    /** Accepts a granularity in [1, 11]; any other value leaves `pDoC` as it was. */
    method SetPDoC(p: int)
      modifies this`pDoC
      ensures MinPDoC <= p <= MaxPDoC ==> pDoC == p
      ensures !(MinPDoC <= p <= MaxPDoC) ==> pDoC == old(pDoC)
    {
      if p <= 0 || p > 11 {
        return;
      } else {
        pDoC := p;
      }
    }

    /** Accepts any non-empty file name; the empty one is ignored. */
    method SetOutputFileName(name: string)
      modifies this`fileName
      ensures name != "" ==> fileName == name
      ensures name == "" ==> fileName == old(fileName)
    {
      if name != "" {
        fileName := name;
      }
    }

    method SetDomTree(tree: map<string, HtmlNode>)
      modifies this`domTree
      ensures domTree == Some(tree)
    {
      domTree := Some(tree);
    }

    /**
     * The recursive walk: appends to `parent` the element projected from `v`,
     * numbering from the counter, advances the counter by one per emitted
     * element, and appends the groups of the stopped branches to `domIds`.
     */
    method WriteVisualBlocks(parent: seq<LayoutNode>, v: VisualStructure) returns (appended: seq<LayoutNode>)
      requires Visitable(v, pDoC)
      modifies this`order, this`domIds
      ensures appended == parent + [Project(v, pDoC, old(order))]
      ensures order == old(order) + Emitted(v, pDoC)
      ensures domIds == old(domIds) + Groups(v, pDoC)
      decreases v, 1
    {
      var parentBox := v.nestedBlocks[0].parent;
      var layoutNode := LayoutNode(v.desc, v.doC, parentBox.domChildCount, order, None, None, []);
      order := order + 1;

      if pDoC >= v.doC {
        // continue segmenting
        if |v.children| == 0 {
          var src, content := CollectLeafContent(v.nestedBlocks);
          layoutNode := layoutNode.(aggregate := Some(Aggregate(src, content)));
        }
        var kids := WriteChildVisualBlocks(v);
        layoutNode := layoutNode.(children := kids);
      } else {
        // stop segmenting
        var branchIds, src, content := CollectStoppedBranch(v.nestedBlocks, parentBox.vipsId);
        layoutNode := layoutNode.(aggregate := Some(Aggregate(src, content)), domIds := Some(branchIds));
        if branchIds != {} {
          domIds := domIds + [branchIds];
        }
      }
      appended := parent + [layoutNode];
    }

    /**
     * The loop of the continue branch over `v`'s children, in list order: each
     * child is walked with the counter where the previous one left it.
     */
    method WriteChildVisualBlocks(v: VisualStructure) returns (kids: seq<LayoutNode>)
      requires Visitable(v, pDoC) && pDoC >= v.doC
      modifies this`order, this`domIds
      ensures kids == ProjectForest(v.children, pDoC, old(order))
      ensures order == old(order) + EmittedForest(v.children, pDoC)
      ensures domIds == old(domIds) + GroupsForest(v.children, pDoC)
      decreases v, 0
    {
      kids := [];
      var p := pDoC;
      ghost var start := order;
      for i := 0 to |v.children|
        invariant pDoC == p
        invariant AllVisitable(v.children[..i], p)
        invariant kids == ProjectForest(v.children[..i], p, start)
        invariant order == start + EmittedForest(v.children[..i], p)
        invariant domIds == old(domIds) + GroupsForest(v.children[..i], p)
      {
        var child := v.children[i];
        WalkStep(v.children, i, p, start, old(domIds), kids, order, domIds);
        kids := WriteVisualBlocks(kids, child);
      }
      assert v.children[..|v.children|] == v.children;
    }

    /**
     * The preview: one container per recorded group, in list order. Without a
     * DOM tree the first lookup fails, so no preview is produced when some group
     * holds an id; empty groups need no lookup and give empty containers.
     */
    method WriteToHtmlDoc(key: string) returns (body: Option<seq<HtmlNode>>, visits: seq<seq<string>>)
      ensures body.None? <==> domTree.None? && NeedsLookup(domIds)
      ensures body.Some? ==> IsPreview(body.value, visits, domIds, TreeOrEmpty(), key)
    {
      if domTree.None? && NeedsLookup(domIds) {
        return None, [];
      }
      var tree := TreeOrEmpty();
      var containers: seq<HtmlNode> := [];
      visits := [];
      for i := 0 to |domIds|
        invariant IsPreview(containers, visits, domIds[..i], tree, key)
      {
        var div, visit := BuildContainer(domIds[i], tree, key);
        containers := containers + [div];
        visits := visits + [visit];
      }
      assert domIds[..|domIds|] == domIds;
      body := Some(containers);
    }

    /** The DOM tree, or an empty one when none was set. */
    function TreeOrEmpty(): map<string, HtmlNode>
      reads this
    {
      if domTree.Some? then domTree.value else map[]
    }

    /**
     * One page: builds the root element from `meta`, runs the walk into it, builds
     * the preview and, if that succeeded, stores the serialised document (as
     * `serialize` renders it) under `fileName + ".xml"`, un-escaped when escaping
     * is off. A failing preview aborts the page after the walk has run.
     */
    method WriteXml(v: VisualStructure, meta: PageMetadata, key: string, serialize: VipsPage -> string)
      returns (page: VipsPage, preview: Option<seq<HtmlNode>>, visits: seq<seq<string>>, file: Option<OutputFile>)
      requires Visitable(v, pDoC)
      modifies this`order, this`domIds
      ensures page == VipsPage(meta, 0, [Project(v, pDoC, old(order))])
      ensures order == old(order) + Emitted(v, pDoC)
      ensures domIds == old(domIds) + Groups(v, pDoC)
      ensures preview.None? <==> domTree.None? && NeedsLookup(domIds)
      ensures preview.Some? ==> IsPreview(preview.value, visits, domIds, TreeOrEmpty(), key)
      ensures file == if preview.None? then None
                      else Some(OutputFile(fileName + ".xml", StoredText(serialize(page), escapeOutput)))
    {
      var root := WriteVisualBlocks([], v);
      page := VipsPage(meta, 0, root);
      preview, visits := WriteToHtmlDoc(key);
      if preview.None? {
        return page, preview, visits, None;
      }
      var serialized := serialize(page);
      var text := if escapeOutput then serialized else UnescapeEntities(serialized);
      file := Some(OutputFile(fileName + ".xml", text));
    }
  }
}
