/**
 * How VipsOutput turns the nested blocks of one visual-structure node into the
 * `SRC` and `Content` attributes and, for a stopped branch, into the set of
 * originating DOM ids.
 */
module ContentExtractor {
  import opened VisualTree

  /**
   * The serialised markup of a real element. The serialisation runs, but the
   * line that would keep its result is commented out, so the string handed
   * back is always the empty one it started as.
   */
  function GetSource(e: ElementBox): (r: string)
    ensures r == ""
  {
    ""
  }

  /** A synthetic element contributes its text to `SRC`, a real one its markup. */
  function BlockSource(e: ElementBox): string
  {
    match e
    case Synthetic(_, text) => text
    case Real(_, _) => GetSource(e)
  }

  /**
   * The id a block contributes to its branch's group: its own bookkeeping id,
   * or, for a synthetic element, that of the node's parent box.
   */
  function BlockId(e: ElementBox, parentBoxId: string): string
  {
    match e
    case Synthetic(_, _) => parentBoxId
    case Real(vipsId, _) => vipsId
  }

  /**
   * `SRC`: the blocks' sources in block order, blocks without element box
   * skipped. It is never longer than `Content`, which has every block's text.
   */
  function SrcOf(bs: seq<NestedBlock>): (r: string)
    ensures |r| <= |ContentOf(bs)|
  {
    if bs == [] then ""
    else
      var last := bs[|bs| - 1];
      SrcOf(bs[..|bs| - 1]) + (if last.elementBox.Some? then BlockSource(last.elementBox.value) else "")
  }

  /**
   * `Content`: each block's text followed by one space, blocks without element
   * box skipped; so a non-empty `Content` ends with a space.
   */
  function ContentOf(bs: seq<NestedBlock>): (r: string)
    ensures r != "" ==> r[|r| - 1] == ' '
  {
    if bs == [] then ""
    else
      var last := bs[|bs| - 1];
      ContentOf(bs[..|bs| - 1]) + (if last.elementBox.Some? then last.elementBox.value.text + " " else "")
  }

  /** The ids a stopped branch collects from its blocks. */
  function BranchIds(bs: seq<NestedBlock>, parentBoxId: string): set<string>
  {
    if bs == [] then {}
    else
      var last := bs[|bs| - 1];
      BranchIds(bs[..|bs| - 1], parentBoxId) +
        (if last.elementBox.Some? then {BlockId(last.elementBox.value, parentBoxId)} else {})
  }

  /** True when the block has an element box, i.e. the loops do not skip it. */
  predicate Present(b: NestedBlock)
  {
    b.elementBox.Some?
  }

  /** The loop of the continue branch: collect `SRC` and `Content` of a leaf node. */
  method CollectLeafContent(bs: seq<NestedBlock>) returns (src: string, content: string)
    ensures src == SrcOf(bs) && content == ContentOf(bs)
  {
    src, content := "", "";
    for i := 0 to |bs|
      invariant src == SrcOf(bs[..i]) && content == ContentOf(bs[..i])
    {
      assert bs[..i + 1][..i] == bs[..i];
      var elementBox := bs[i].elementBox;
      if elementBox.None? {
        continue;
      }
      if elementBox.value.Synthetic? {
        src := src + elementBox.value.text;
      } else {
        src := src + GetSource(elementBox.value);
      }
      content := content + elementBox.value.text + " ";
    }
    assert bs[..|bs|] == bs;
  }

  /**
   * The loop of the stop branch: collect the ids of the blocks into a fresh set
   * together with `SRC` and `Content`.
   */
  method CollectStoppedBranch(bs: seq<NestedBlock>, parentBoxId: string)
    returns (ids: set<string>, src: string, content: string)
    ensures ids == BranchIds(bs, parentBoxId)
    ensures src == SrcOf(bs) && content == ContentOf(bs)
  {
    ids, src, content := {}, "", "";
    for i := 0 to |bs|
      invariant ids == BranchIds(bs[..i], parentBoxId)
      invariant src == SrcOf(bs[..i]) && content == ContentOf(bs[..i])
    {
      assert bs[..i + 1][..i] == bs[..i];
      var elementBox := bs[i].elementBox;
      if elementBox.None? {
        continue;
      }
      var id := match elementBox.value
        case Synthetic(_, _) => parentBoxId
        case Real(vipsId, _) => vipsId;
      ids := ids + {id};
      if elementBox.value.Synthetic? {
        src := src + elementBox.value.text;
      } else {
        src := src + GetSource(elementBox.value);
      }
      content := content + elementBox.value.text + " ";
    }
    assert bs[..|bs|] == bs;
  }

  /**
   * The three aggregates follow block order: those of a concatenation are the
   * concatenation (or union) of those of its parts.
   */
  lemma {:induction false} AggregatesAppend(a: seq<NestedBlock>, b: seq<NestedBlock>, parentBoxId: string)
    ensures SrcOf(a + b) == SrcOf(a) + SrcOf(b)
    ensures ContentOf(a + b) == ContentOf(a) + ContentOf(b)
    ensures BranchIds(a + b, parentBoxId) == BranchIds(a, parentBoxId) + BranchIds(b, parentBoxId)
    decreases |b|
  {
    if b != [] {
      var init := b[..|b| - 1];
      assert (a + b)[..|a + b| - 1] == a + init;
      assert (a + b)[|a + b| - 1] == b[|b| - 1];
      AggregatesAppend(a, init, parentBoxId);
    } else {
      assert a + b == a;
    }
  }

  /**
   * A group holds exactly the ids of the blocks that have an element box: the
   * block's own id for a real element, the parent box's id for a synthetic one.
   */
  lemma {:induction false} BranchIdsMembers(bs: seq<NestedBlock>, parentBoxId: string, id: string)
    ensures id in BranchIds(bs, parentBoxId) <==>
      exists i :: 0 <= i < |bs| && Present(bs[i]) && BlockId(bs[i].elementBox.value, parentBoxId) == id
    decreases |bs|
  {
    if bs != [] {
      var init := bs[..|bs| - 1];
      BranchIdsMembers(init, parentBoxId, id);
      if id in BranchIds(init, parentBoxId) {
        var i :| 0 <= i < |init| && Present(init[i]) && BlockId(init[i].elementBox.value, parentBoxId) == id;
        assert bs[i] == init[i];
      }
      if exists i :: 0 <= i < |bs| && Present(bs[i]) && BlockId(bs[i].elementBox.value, parentBoxId) == id {
        var i :| 0 <= i < |bs| && Present(bs[i]) && BlockId(bs[i].elementBox.value, parentBoxId) == id;
        if i < |init| {
          assert init[i] == bs[i];
        }
      }
    }
  }

  /**
   * A stopped branch records no group exactly when none of its blocks has an
   * element box; `Content` is empty in exactly the same case.
   */
  lemma {:induction false} EmptyAggregates(bs: seq<NestedBlock>, parentBoxId: string)
    ensures BranchIds(bs, parentBoxId) == {} <==> forall i :: 0 <= i < |bs| ==> !Present(bs[i])
    ensures ContentOf(bs) == "" <==> forall i :: 0 <= i < |bs| ==> !Present(bs[i])
    decreases |bs|
  {
    if bs != [] {
      var init := bs[..|bs| - 1];
      EmptyAggregates(init, parentBoxId);
      assert forall i :: 0 <= i < |init| ==> init[i] == bs[i];
      if !Present(bs[|bs| - 1]) {
        assert (forall i :: 0 <= i < |bs| ==> !Present(bs[i])) <==> (forall i :: 0 <= i < |init| ==> !Present(init[i]));
      }
    }
  }

  /**
   * Real elements contribute nothing to `SRC`, so a node without synthetic
   * blocks gets an empty `SRC`, whatever its markup.
   */
  lemma {:induction false} SrcWithoutSynthetic(bs: seq<NestedBlock>)
    requires forall i :: 0 <= i < |bs| ==> !(Present(bs[i]) && bs[i].elementBox.value.Synthetic?)
    ensures SrcOf(bs) == ""
    decreases |bs|
  {
    if bs != [] {
      SrcWithoutSynthetic(bs[..|bs| - 1]);
    }
  }
}
