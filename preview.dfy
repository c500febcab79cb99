/**
 * The grouped preview: one `div` container per recorded id group, holding the
 * markup of every id of the group as found in the original DOM tree, with the
 * bookkeeping id attribute removed from each found node and its direct
 * children only.
 */
module Preview {

  /** A node of the preview document as the HTML parser sees it. */
  datatype HtmlNode =
    | Element(tag: string, attrs: map<string, string>, children: seq<HtmlNode>)
    | Text(text: string)

  /** Removing an attribute from a node; a text node has none to remove. */
  function RemoveAttr(n: HtmlNode, key: string): (r: HtmlNode)
    ensures n.Text? ==> r == n
    ensures r.Element? <==> n.Element?
    ensures r.Element? ==> key !in r.attrs && r.tag == n.tag && r.children == n.children
    ensures r.Element? ==> forall k :: k in n.attrs && k != key ==> k in r.attrs && r.attrs[k] == n.attrs[k]
    ensures r.Element? ==> forall k :: k in r.attrs ==> k in n.attrs
  {
    match n
    case Element(tag, attrs, children) => Element(tag, attrs - {key}, children)
    case Text(_) => n
  }

  /**
   * The attribute stripping of the preview: `key` disappears from the node and
   * from each of its direct children, which otherwise keep their attributes;
   * the children's own children are left exactly as they were.
   */
  function StripShallow(n: HtmlNode, key: string): (r: HtmlNode)
    ensures n.Text? ==> r == n
    ensures r.Element? <==> n.Element?
    ensures r.Element? ==> key !in r.attrs && r.tag == n.tag && |r.children| == |n.children|
    ensures r.Element? ==> r.attrs == n.attrs - {key}
    ensures r.Element? ==> forall i :: 0 <= i < |r.children| ==> r.children[i] == RemoveAttr(n.children[i], key)
    ensures r.Element? ==> forall i :: 0 <= i < |r.children| ==>
      (r.children[i].Element? ==> key !in r.children[i].attrs) &&
      (r.children[i].Element? <==> n.children[i].Element?) &&
      (n.children[i].Element? ==> r.children[i].children == n.children[i].children)
  {
    match n
    case Element(tag, attrs, children) =>
      Element(tag, attrs - {key}, seq(|children|, i requires 0 <= i < |children| => RemoveAttr(children[i], key)))
    case Text(_) => n
  }

  /** The loop over a found node's children that strips the attribute from each. */
  method StripIdAttribute(n: HtmlNode, key: string) returns (r: HtmlNode)
    ensures r == StripShallow(n, key)
  {
    match n
    case Text(_) =>
      r := n;
    case Element(tag, attrs, children) =>
      var stripped: seq<HtmlNode> := [];
      for i := 0 to |children|
        invariant |stripped| == i
        invariant forall j :: 0 <= j < i ==> stripped[j] == RemoveAttr(children[j], key)
      {
        stripped := stripped + [RemoveAttr(children[i], key)];
      }
      r := Element(tag, attrs - {key}, stripped);
  }

  /**
   * Some group holds an id, so building the preview looks up at least one node
   * in the DOM tree; an empty group yields an empty container without a lookup.
   */
  predicate NeedsLookup(groups: seq<set<string>>)
  {
    exists g :: g in groups && g != {}
  }

  /**
   * When every group is non-empty, which is all the walk ever records, a lookup
   * is needed exactly when there is a group at all.
   */
  lemma {:induction false} NeedsLookupIffGroups(groups: seq<set<string>>)
    requires forall g :: g in groups ==> g != {}
    ensures NeedsLookup(groups) <==> groups != []
  {
    if groups != [] {
      assert groups[0] in groups;
    }
  }

  /** No id is listed twice. */
  predicate Distinct(ids: seq<string>)
  {
    forall i, j :: 0 <= i < j < |ids| ==> ids[i] != ids[j]
  }

  /** `ids` lists every member of `group` exactly once, in some order. */
  predicate IsEnumeration(ids: seq<string>, group: set<string>)
  {
    Distinct(ids) && (forall x :: x in ids ==> x in group) && (forall x :: x in group ==> x in ids)
  }

  /** The stripped nodes found for `ids`, in that order; ids not found are skipped. */
  function Found(ids: seq<string>, tree: map<string, HtmlNode>, key: string): seq<HtmlNode>
  {
    if ids == [] then []
    else
      var last := ids[|ids| - 1];
      Found(ids[..|ids| - 1], tree, key) + (if last in tree then [StripShallow(tree[last], key)] else [])
  }

  /** The container of a group visited in the order `ids`. */
  function Container(ids: seq<string>, tree: map<string, HtmlNode>, key: string): HtmlNode
  {
    Element("div", map[], Found(ids, tree, key))
  }

  /**
   * `body` holds one container per group, in group order, and each container
   * holds the found nodes of its group in the order the group was visited.
   */
  predicate IsPreview(body: seq<HtmlNode>, visits: seq<seq<string>>, groups: seq<set<string>>,
                      tree: map<string, HtmlNode>, key: string)
  {
    |body| == |groups| && |visits| == |groups| &&
    forall i :: 0 <= i < |groups| ==> IsEnumeration(visits[i], groups[i]) && body[i] == Container(visits[i], tree, key)
  }

  /**
   * The inner loop of the preview: visit the ids of a group once each, in the
   * set's own (unspecified) order, and collect the stripped node of every id
   * the tree has. `visit` is the order taken.
   */
  method BuildContainer(group: set<string>, tree: map<string, HtmlNode>, key: string)
    returns (div: HtmlNode, visit: seq<string>)
    ensures IsEnumeration(visit, group)
    ensures div == Container(visit, tree, key)
  {
    var found: seq<HtmlNode> := [];
    var remaining := group;
    visit := [];
    while remaining != {}
      invariant forall x :: x in group <==> x in remaining || x in visit
      invariant forall x :: x in visit ==> x !in remaining
      invariant Distinct(visit)
      invariant found == Found(visit, tree, key)
      decreases remaining
    {
      var id :| id in remaining;
      if id in tree {
        var node := StripIdAttribute(tree[id], key);
        found := found + [node];
      }
      assert (visit + [id])[..|visit|] == visit;
      visit := visit + [id];
      remaining := remaining - {id};
    }
    div := Element("div", map[], found);
  }

  /**
   * A container holds exactly the stripped nodes of the group's ids that the
   * tree has; an empty group gives an empty container.
   */
  lemma {:induction false} FoundMembers(ids: seq<string>, tree: map<string, HtmlNode>, key: string, n: HtmlNode)
    ensures n in Found(ids, tree, key) <==> exists id :: id in ids && id in tree && n == StripShallow(tree[id], key)
    decreases |ids|
  {
    if ids != [] {
      var init := ids[..|ids| - 1];
      var last := ids[|ids| - 1];
      FoundMembers(init, tree, key, n);
      assert forall id :: id in ids <==> id in init || id == last by {
        assert ids == init + [last];
      }
    }
  }

  /** No container holds more nodes than its group has ids. */
  lemma {:induction false} FoundBounded(ids: seq<string>, tree: map<string, HtmlNode>, key: string)
    ensures |Found(ids, tree, key)| <= |ids|
    ensures (forall id :: id in ids ==> id in tree) ==> |Found(ids, tree, key)| == |ids|
    decreases |ids|
  {
    if ids != [] {
      FoundBounded(ids[..|ids| - 1], tree, key);
    }
  }
}
