/**
 * The input of the projection: the visual-structure tree that the VIPS
 * segmentation stage hands to VipsOutput, reduced to what the projection
 * reads. Layout-engine objects (boxes, DOM elements) appear only through the
 * few values the projection takes from them.
 */
module VisualTree {

  datatype Option<T> = None | Some(value: T)

  /**
   * The descriptive attributes of a visual-structure node that the projection
   * copies unchanged onto its output node (frame source index, source index,
   * the content flags, text lengths, font, background colour, the rectangle
   * and the node's identifier).
   */
  datatype Descriptor = Descriptor(
    frameSourceIndex: int,
    sourceIndex: string,
    containImg: bool,
    isImg: bool,
    containTable: bool,
    containP: bool,
    textLen: int,
    linkTextLen: int,
    fontSize: int,
    fontWeight: int,
    bgColor: string,
    x: int,
    y: int,
    width: int,
    height: int,
    id: string)

  /** The two node names the layout engine gives to elements it synthesises. */
  datatype SyntheticKind = Xdiv | Xspan

  /**
   * The element box of a nested block: either an element the layout engine
   * synthesised (node name `Xdiv` or `Xspan`), which has a text but no
   * bookkeeping id of its own worth using, or a real markup element with its
   * bookkeeping id attribute and its text.
   */
  datatype ElementBox =
    | Synthetic(kind: SyntheticKind, text: string)
    | Real(vipsId: string, text: string)

  /**
   * The structural parent of a block's box: the value of its bookkeeping id
   * attribute and the number of child nodes of its DOM node.
   */
  datatype ParentBox = ParentBox(vipsId: string, domChildCount: nat)

  /**
   * One nested block of a visual-structure node: the parent of its box (which
   * always exists) and its element box, absent when the block's box is not an
   * element box.
   */
  datatype NestedBlock = NestedBlock(parent: ParentBox, elementBox: Option<ElementBox>)

  /** A node of the visual-structure tree, with its degree of coherence `doC`. */
  datatype VisualStructure = VisualStructure(
    desc: Descriptor,
    doC: int,
    children: seq<VisualStructure>,
    nestedBlocks: seq<NestedBlock>)

  /**
   * What the projection demands of its input under granularity `pDoC`: every
   * node it visits has at least one nested block (the parent box is taken from
   * the first one before anything else happens), and it visits the children of
   * exactly the nodes where segmentation continues.
   */
  predicate Visitable(v: VisualStructure, pDoC: int)
  {
    |v.nestedBlocks| > 0 &&
    (pDoC >= v.doC ==> forall i :: 0 <= i < |v.children| ==> Visitable(v.children[i], pDoC))
  }

  /** Visitable, lifted to a list of sibling nodes. */
  predicate AllVisitable(vs: seq<VisualStructure>, pDoC: int)
  {
    forall i :: 0 <= i < |vs| ==> Visitable(vs[i], pDoC)
  }

  /** The parent box of a node's first nested block, shared by the whole node. */
  function ParentBoxOf(v: VisualStructure): ParentBox
    requires |v.nestedBlocks| > 0
  {
    v.nestedBlocks[0].parent
  }

  /**
   * A coarser granularity visits a subset of the nodes a finer one visits, so
   * whatever can be projected at `hi` can be projected at every `lo <= hi`.
   */
  lemma {:induction false} VisitableAntitone(v: VisualStructure, lo: int, hi: int)
    requires lo <= hi && Visitable(v, hi)
    ensures Visitable(v, lo)
    decreases v
  {
    if lo >= v.doC {
      forall i | 0 <= i < |v.children|
        ensures Visitable(v.children[i], lo)
      {
        VisitableAntitone(v.children[i], lo, hi);
      }
    }
  }
}
