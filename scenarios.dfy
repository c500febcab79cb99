/**
 * Two small pages run through the projection, stating the outcome in full.
 */
module Scenarios {
  import opened VisualTree
  import opened ContentExtractor
  import opened Projection

  /** Descriptive attributes that differ only in the node identifier. */
  function Desc(id: string): Descriptor
  {
    Descriptor(0, "", false, false, false, false, 0, 0, 0, 0, "", 0, 0, 0, 0, id)
  }

  /** A nested block holding a real element with bookkeeping id `id`. */
  function RealBlock(id: string, text: string): NestedBlock
  {
    NestedBlock(ParentBox("p", 1), Some(Real(id, text)))
  }

  /** A childless node with one real block. */
  function Leaf(doC: int, id: string, text: string): VisualStructure
  {
    VisualStructure(Desc(id), doC, [], [RealBlock(id, text)])
  }

  /**
   * Two sibling branches that both stop record their groups in sibling order,
   * `{"a"}` before `{"b"}`, and three elements are emitted.
   */
  lemma SiblingGroupsInListOrder()
    ensures var v := VisualStructure(Desc("r"), 2, [Leaf(9, "a", "A"), Leaf(9, "b", "B")], [RealBlock("r", "")]);
      Visitable(v, 5) && Groups(v, 5) == [{"a"}, {"b"}] && Emitted(v, 5) == 3
  {
    var a, b := Leaf(9, "a", "A"), Leaf(9, "b", "B");
    var v := VisualStructure(Desc("r"), 2, [a, b], [RealBlock("r", "")]);
    assert [a, b][..1] == [a];
    assert [a][..0] == [];
    assert BranchIds(a.nestedBlocks, "p") == {"a"} by {
      assert a.nestedBlocks[..0] == [];
    }
    assert BranchIds(b.nestedBlocks, "p") == {"b"} by {
      assert b.nestedBlocks[..0] == [];
    }
  }

  /**
   * DoC 2 at the root and 5 and 9 at its two children, with `pDoC` 5: the root
   * and the child of DoC 5 continue (equality continues), the child of DoC 9
   * stops. Orders 1, 2, 3 in pre-order; the continuing leaf has `Content` but no
   * `DOMIds`; the stopped leaf has `DOMIds` `{"y"}`, which is the one group recorded.
   */
  lemma CoherenceScenario()
    ensures var v := VisualStructure(Desc("r"), 2, [Leaf(5, "x", "one"), Leaf(9, "y", "two")], [RealBlock("r", "")]);
      Visitable(v, 5) &&
      Project(v, 5, 1) == LayoutNode(Desc("r"), 2, 1, 1, None, None, [
        LayoutNode(Desc("x"), 5, 1, 2, Some(Aggregate("", "one ")), None, []),
        LayoutNode(Desc("y"), 9, 1, 3, Some(Aggregate("", "two ")), Some({"y"}), [])]) &&
      Groups(v, 5) == [{"y"}]
  {
    var x, y := Leaf(5, "x", "one"), Leaf(9, "y", "two");
    var v := VisualStructure(Desc("r"), 2, [x, y], [RealBlock("r", "")]);
    assert [x, y][..1] == [x];
    assert [x][..0] == [];
    assert x.nestedBlocks[..0] == [] && y.nestedBlocks[..0] == [];
    assert SrcOf(x.nestedBlocks) == "" && ContentOf(x.nestedBlocks) == "one ";
    assert SrcOf(y.nestedBlocks) == "" && ContentOf(y.nestedBlocks) == "two ";
    assert BranchIds(y.nestedBlocks, "p") == {"y"};
    assert EmittedForest([x], 5) == 1;
    assert ProjectForest([x], 5, 2) == [Project(x, 5, 2)];
    assert ProjectForest([x, y], 5, 2) == [Project(x, 5, 2), Project(y, 5, 3)];
  }
}
