/**
 * The projection of the visual-structure tree onto `LayoutNode` elements, as a
 * specification: which nodes are emitted, with which order numbers and
 * attributes, and which id groups are recorded. The method that performs the
 * walk on the object's state is `Output.VipsOutput.WriteVisualBlocks`.
 */
module Projection {
  import opened VisualTree
  import opened ContentExtractor

  /** The `SRC` and `Content` attributes, which are always set together. */
  datatype Aggregate = Aggregate(src: string, content: string)

  /**
   * One `LayoutNode` element of the output document: the copied descriptive
   * attributes, `DoC`, `DOMCldNum`, `order`, the optional `SRC`/`Content` pair,
   * the optional `DOMIds` attribute (a rendering of the recorded id set) and
   * the child elements.
   */
  datatype LayoutNode = LayoutNode(
    desc: Descriptor,
    doC: int,
    domCldNum: nat,
    order: int,
    aggregate: Option<Aggregate>,
    domIds: Option<set<string>>,
    children: seq<LayoutNode>)

  /** True when the walk continues segmenting at a node of coherence `doC`. */
  predicate Continues(pDoC: int, doC: int)
  {
    pDoC >= doC
  }

  /**
   * The number of `LayoutNode` elements the walk emits for `v`, which is how far
   * it advances the counter: at least the one element for `v` itself.
   */
  function Emitted(v: VisualStructure, pDoC: int): (r: nat)
    ensures r >= 1
    decreases v, 1
  {
    if Continues(pDoC, v.doC) then 1 + EmittedForest(v.children, pDoC) else 1
  }

  /** Emitted, summed over siblings. */
  function EmittedForest(vs: seq<VisualStructure>, pDoC: int): nat
    decreases vs, 0
  {
    if vs == [] then 0 else EmittedForest(vs[..|vs| - 1], pDoC) + Emitted(vs[|vs| - 1], pDoC)
  }

  /**
   * The element emitted for `v` when the shared counter stands at `order`: it
   * copies `v`'s attributes and carries `order`; where segmentation continues its
   * children are those of `v`, numbered from `order + 1`, and it has `SRC` and
   * `Content` only when `v` has no children; where it stops it has no children,
   * always `SRC` and `Content`, and the `DOMIds` set of its blocks.
   */
  function Project(v: VisualStructure, pDoC: int, order: int): (r: LayoutNode)
    requires Visitable(v, pDoC)
    ensures r.desc == v.desc && r.doC == v.doC && r.order == order
    ensures r.domCldNum == ParentBoxOf(v).domChildCount
    ensures Continues(pDoC, v.doC) ==> |r.children| == |v.children| && r.domIds.None?
    ensures !Continues(pDoC, v.doC) ==> r.children == [] && r.domIds.Some? && r.aggregate.Some?
    decreases v, 1
  {
    var blocks := v.nestedBlocks;
    var node := LayoutNode(v.desc, v.doC, ParentBoxOf(v).domChildCount, order, None, None, []);
    if Continues(pDoC, v.doC) then
      node.(aggregate := if |v.children| == 0 then Some(Aggregate(SrcOf(blocks), ContentOf(blocks))) else None,
            children := ProjectForest(v.children, pDoC, order + 1))
    else
      node.(aggregate := Some(Aggregate(SrcOf(blocks), ContentOf(blocks))),
            domIds := Some(BranchIds(blocks, ParentBoxOf(v).vipsId)))
  }

  /**
   * The elements emitted for a list of siblings, one per sibling, each numbered
   * after everything emitted for the siblings before it.
   */
  function ProjectForest(vs: seq<VisualStructure>, pDoC: int, order: int): (r: seq<LayoutNode>)
    requires AllVisitable(vs, pDoC)
    ensures |r| == |vs|
    decreases vs, 0
  {
    if vs == [] then []
    else
      var init := vs[..|vs| - 1];
      assert AllVisitable(init, pDoC) by {
        forall i | 0 <= i < |init| ensures Visitable(init[i], pDoC) {
          assert init[i] == vs[i];
        }
      }
      ProjectForest(init, pDoC, order) + [Project(vs[|vs| - 1], pDoC, order + EmittedForest(init, pDoC))]
  }

  /**
   * The id groups the walk appends to the object's list, in the order the
   * stopped branches are reached; a branch whose blocks give no id records none.
   * A stopped branch records at most one group.
   */
  function Groups(v: VisualStructure, pDoC: int): (r: seq<set<string>>)
    requires Visitable(v, pDoC)
    ensures !Continues(pDoC, v.doC) ==> |r| <= 1
    decreases v, 1
  {
    if Continues(pDoC, v.doC) then GroupsForest(v.children, pDoC)
    else
      var ids := BranchIds(v.nestedBlocks, ParentBoxOf(v).vipsId);
      if ids != {} then [ids] else []
  }

  /** Groups, concatenated over siblings in list order. */
  function GroupsForest(vs: seq<VisualStructure>, pDoC: int): seq<set<string>>
    requires AllVisitable(vs, pDoC)
    decreases vs, 0
  {
    if vs == [] then []
    else
      var init := vs[..|vs| - 1];
      assert AllVisitable(init, pDoC) by {
        forall i | 0 <= i < |init| ensures Visitable(init[i], pDoC) {
          assert init[i] == vs[i];
        }
      }
      GroupsForest(init, pDoC) + Groups(vs[|vs| - 1], pDoC)
  }

  /**
   * One more sibling: the elements, the count and the groups of the first
   * `i + 1` siblings extend those of the first `i` by the next sibling's.
   */
  lemma {:induction false} ForestStep(vs: seq<VisualStructure>, i: nat, pDoC: int, order: int)
    requires AllVisitable(vs, pDoC) && i < |vs|
    ensures AllVisitable(vs[..i], pDoC) && AllVisitable(vs[..i + 1], pDoC)
    ensures ProjectForest(vs[..i + 1], pDoC, order) ==
      ProjectForest(vs[..i], pDoC, order) + [Project(vs[i], pDoC, order + EmittedForest(vs[..i], pDoC))]
    ensures EmittedForest(vs[..i + 1], pDoC) == EmittedForest(vs[..i], pDoC) + Emitted(vs[i], pDoC)
    ensures GroupsForest(vs[..i + 1], pDoC) == GroupsForest(vs[..i], pDoC) + Groups(vs[i], pDoC)
  {
    var w := vs[..i + 1];
    assert AllVisitable(w, pDoC) by {
      forall j | 0 <= j < |w| ensures Visitable(w[j], pDoC) {
        assert w[j] == vs[j];
      }
    }
    ForestLast(w, pDoC, order);
    assert w[..|w| - 1] == vs[..i];
    assert w[|w| - 1] == vs[i];
  }

  /**
   * The last sibling split off: the elements, the count and the groups of a
   * list of siblings are those of all but the last, followed by the last's own.
   */
  lemma {:induction false} ForestLast(vs: seq<VisualStructure>, pDoC: int, order: int)
    requires AllVisitable(vs, pDoC) && vs != []
    ensures AllVisitable(vs[..|vs| - 1], pDoC)
    ensures ProjectForest(vs, pDoC, order) ==
      ProjectForest(vs[..|vs| - 1], pDoC, order) +
      [Project(vs[|vs| - 1], pDoC, order + EmittedForest(vs[..|vs| - 1], pDoC))]
    ensures EmittedForest(vs, pDoC) == EmittedForest(vs[..|vs| - 1], pDoC) + Emitted(vs[|vs| - 1], pDoC)
    ensures GroupsForest(vs, pDoC) == GroupsForest(vs[..|vs| - 1], pDoC) + Groups(vs[|vs| - 1], pDoC)
  {
    var init := vs[..|vs| - 1];
    assert AllVisitable(init, pDoC) by {
      forall j | 0 <= j < |init| ensures Visitable(init[j], pDoC) {
        assert init[j] == vs[j];
      }
    }
  }

  /**
   * The walk's accumulated state after one more sibling: if the elements,
   * the counter and the groups agree with the first `i` siblings, then adding
   * the next sibling's own makes them agree with the first `i + 1`.
   */
  lemma {:induction false} WalkStep(vs: seq<VisualStructure>, i: nat, pDoC: int, start: int,
                                    recorded: seq<set<string>>, kids: seq<LayoutNode>,
                                    counter: int, groups: seq<set<string>>)
    requires AllVisitable(vs, pDoC) && i < |vs|
    requires AllVisitable(vs[..i], pDoC)
    requires kids == ProjectForest(vs[..i], pDoC, start)
    requires counter == start + EmittedForest(vs[..i], pDoC)
    requires groups == recorded + GroupsForest(vs[..i], pDoC)
    ensures AllVisitable(vs[..i + 1], pDoC)
    ensures kids + [Project(vs[i], pDoC, counter)] == ProjectForest(vs[..i + 1], pDoC, start)
    ensures counter + Emitted(vs[i], pDoC) == start + EmittedForest(vs[..i + 1], pDoC)
    ensures groups + Groups(vs[i], pDoC) == recorded + GroupsForest(vs[..i + 1], pDoC)
  {
    ForestStep(vs, i, pDoC, start);
    var g := GroupsForest(vs[..i], pDoC);
    assert recorded + g + Groups(vs[i], pDoC) == recorded + (g + Groups(vs[i], pDoC));
  }

  // ---------------------------------------------------------------------------
  // Reading the output tree back

  /** The `order` attributes of an output tree, listed in pre-order. */
  function Orders(n: LayoutNode): seq<int>
    decreases n, 1
  {
    [n.order] + OrdersForest(n.children)
  }

  /** Orders, over a list of sibling trees in list order. */
  function OrdersForest(ns: seq<LayoutNode>): seq<int>
    decreases ns, 0
  {
    if ns == [] then [] else OrdersForest(ns[..|ns| - 1]) + Orders(ns[|ns| - 1])
  }

  /** The consecutive integers `start`, `start + 1`, ..., `start + count - 1`. */
  function Range(start: int, count: nat): (r: seq<int>)
    ensures |r| == count && forall k :: 0 <= k < count ==> r[k] == start + k
  {
    seq(count, k => start + k)
  }

  /** Consecutive ranges join into one. */
  lemma {:induction false} RangeSplit(start: int, m: nat, k: nat)
    ensures Range(start, m) + Range(start + m, k) == Range(start, m + k)
  {
    var joined := Range(start, m) + Range(start + m, k);
    forall j | 0 <= j < m + k ensures joined[j] == Range(start, m + k)[j] {
      if j >= m {
        assert joined[j] == Range(start + m, k)[j - m];
      }
    }
  }

  /** The number of leaves of an output tree; every tree has at least one. */
  function Leaves(n: LayoutNode): (r: nat)
    ensures r >= 1
    decreases n, 1
  {
    if n.children == [] then 1 else LeavesForest(n.children)
  }

  /** Leaves, summed over siblings; at least one leaf per sibling. */
  function LeavesForest(ns: seq<LayoutNode>): (r: nat)
    ensures r >= |ns|
    decreases ns, 0
  {
    if ns == [] then 0 else LeavesForest(ns[..|ns| - 1]) + Leaves(ns[|ns| - 1])
  }

  /** The non-empty `DOMIds` sets of an output tree, in document order. */
  function RecordedIds(n: LayoutNode): seq<set<string>>
    decreases n, 1
  {
    (if n.domIds.Some? && n.domIds.value != {} then [n.domIds.value] else []) + RecordedIdsForest(n.children)
  }

  /** RecordedIds, over siblings in list order. */
  function RecordedIdsForest(ns: seq<LayoutNode>): seq<set<string>>
    decreases ns, 0
  {
    if ns == [] then [] else RecordedIdsForest(ns[..|ns| - 1]) + RecordedIds(ns[|ns| - 1])
  }

  /**
   * Every element of an output tree obeys the cut rule: an element whose
   * `DoC` exceeds `pDoC` is a leaf carrying `DOMIds`, `SRC` and `Content`; any
   * other element carries no `DOMIds`, and `SRC`/`Content` exactly when it is a leaf.
   */
  predicate CutAt(n: LayoutNode, pDoC: int)
    decreases n
  {
    (!Continues(pDoC, n.doC) ==> n.children == [] && n.domIds.Some? && n.aggregate.Some?) &&
    (Continues(pDoC, n.doC) ==> n.domIds.None? && (n.aggregate.Some? <==> n.children == [])) &&
    forall i :: 0 <= i < |n.children| ==> CutAt(n.children[i], pDoC)
  }

  // ---------------------------------------------------------------------------
  // Properties of the projection

  /**
   * Numbering: the orders of the emitted elements, read in pre-order, are
   * exactly `order`, `order + 1`, ..., one per emitted element. So they are
   * unique and consecutive, a node is numbered before its descendants, and the
   * counter ends `Emitted` higher than it started.
   */
  lemma {:induction false} ProjectOrders(v: VisualStructure, pDoC: int, order: int)
    requires Visitable(v, pDoC)
    ensures Orders(Project(v, pDoC, order)) == Range(order, Emitted(v, pDoC))
    decreases v, 1
  {
    if Continues(pDoC, v.doC) {
      ProjectForestOrders(v.children, pDoC, order + 1);
    }
  }

  /** ProjectOrders, for a list of siblings. */
  lemma {:induction false} ProjectForestOrders(vs: seq<VisualStructure>, pDoC: int, order: int)
    requires AllVisitable(vs, pDoC)
    ensures OrdersForest(ProjectForest(vs, pDoC, order)) == Range(order, EmittedForest(vs, pDoC))
    decreases vs, 0
  {
    if vs != [] {
      var init, last := vs[..|vs| - 1], vs[|vs| - 1];
      ForestLast(vs, pDoC, order);
      var count := EmittedForest(init, pDoC);
      ForestSnoc(ProjectForest(init, pDoC, order), Project(last, pDoC, order + count));
      ProjectForestOrders(init, pDoC, order);
      ProjectOrders(last, pDoC, order + count);
      RangeSplit(order, count, Emitted(last, pDoC));
    }
  }

  /**
   * Walking the first `k` siblings emits exactly the first `k` elements of the
   * whole list: later siblings never change what was emitted before them.
   */
  lemma {:induction false} ProjectForestPrefix(vs: seq<VisualStructure>, pDoC: int, order: int, k: nat)
    requires AllVisitable(vs, pDoC) && k <= |vs|
    ensures AllVisitable(vs[..k], pDoC)
    ensures ProjectForest(vs[..k], pDoC, order) == ProjectForest(vs, pDoC, order)[..k]
    decreases |vs| - k
  {
    if k == |vs| {
      assert vs[..k] == vs;
    } else {
      ProjectForestPrefix(vs, pDoC, order, k + 1);
      ForestStep(vs, k, pDoC, order);
      var longer := ProjectForest(vs[..k + 1], pDoC, order);
      assert ProjectForest(vs[..k], pDoC, order) == longer[..k];
      assert longer[..k] == ProjectForest(vs, pDoC, order)[..k + 1][..k];
    }
  }

  /**
   * The i-th element emitted for a list of siblings is the projection of the
   * i-th sibling, numbered right after everything emitted for the first i.
   */
  lemma {:induction false} ProjectForestAt(vs: seq<VisualStructure>, pDoC: int, order: int, i: nat)
    requires AllVisitable(vs, pDoC) && i < |vs|
    ensures AllVisitable(vs[..i], pDoC)
    ensures ProjectForest(vs, pDoC, order)[i] == Project(vs[i], pDoC, order + EmittedForest(vs[..i], pDoC))
  {
    ForestStep(vs, i, pDoC, order);
    ProjectForestPrefix(vs, pDoC, order, i + 1);
    var upTo := ProjectForest(vs[..i + 1], pDoC, order);
    assert upTo[i] == ProjectForest(vs, pDoC, order)[..i + 1][i];
  }

  /** Every group the walk records is non-empty. */
  lemma {:induction false} GroupsNonEmpty(v: VisualStructure, pDoC: int)
    requires Visitable(v, pDoC)
    ensures forall g :: g in Groups(v, pDoC) ==> g != {}
    decreases v, 1
  {
    if Continues(pDoC, v.doC) {
      GroupsForestNonEmpty(v.children, pDoC);
    }
  }

  /** GroupsNonEmpty, for a list of siblings. */
  lemma {:induction false} GroupsForestNonEmpty(vs: seq<VisualStructure>, pDoC: int)
    requires AllVisitable(vs, pDoC)
    ensures forall g :: g in GroupsForest(vs, pDoC) ==> g != {}
    decreases vs, 0
  {
    if vs != [] {
      var init := vs[..|vs| - 1];
      assert AllVisitable(init, pDoC) by {
        forall i | 0 <= i < |init| ensures Visitable(init[i], pDoC) {
          assert init[i] == vs[i];
        }
      }
      GroupsForestNonEmpty(init, pDoC);
      GroupsNonEmpty(vs[|vs| - 1], pDoC);
    }
  }

  /** The projection obeys the cut rule everywhere in the output tree. */
  lemma {:induction false} ProjectCut(v: VisualStructure, pDoC: int, order: int)
    requires Visitable(v, pDoC)
    ensures CutAt(Project(v, pDoC, order), pDoC)
    decreases v, 1
  {
    if Continues(pDoC, v.doC) {
      ProjectForestCut(v.children, pDoC, order + 1);
    }
  }

  /** ProjectCut, for a list of siblings. */
  lemma {:induction false} ProjectForestCut(vs: seq<VisualStructure>, pDoC: int, order: int)
    requires AllVisitable(vs, pDoC)
    ensures forall i :: 0 <= i < |vs| ==> CutAt(ProjectForest(vs, pDoC, order)[i], pDoC)
    decreases vs, 0
  {
    if vs != [] {
      var init := vs[..|vs| - 1];
      assert AllVisitable(init, pDoC) by {
        forall i | 0 <= i < |init| ensures Visitable(init[i], pDoC) {
          assert init[i] == vs[i];
        }
      }
      ProjectForestCut(init, pDoC, order);
      ProjectCut(vs[|vs| - 1], pDoC, order + EmittedForest(init, pDoC));
    }
  }

  /**
   * The two artifacts agree: the groups appended to the object's list are the
   * non-empty `DOMIds` sets of the emitted elements, in document order.
   */
  lemma {:induction false} GroupsAreRecordedIds(v: VisualStructure, pDoC: int, order: int)
    requires Visitable(v, pDoC)
    ensures Groups(v, pDoC) == RecordedIds(Project(v, pDoC, order))
    decreases v, 1
  {
    if Continues(pDoC, v.doC) {
      GroupsForestAreRecordedIds(v.children, pDoC, order + 1);
    }
  }

  /** GroupsAreRecordedIds, for a list of siblings. */
  lemma {:induction false} GroupsForestAreRecordedIds(vs: seq<VisualStructure>, pDoC: int, order: int)
    requires AllVisitable(vs, pDoC)
    ensures GroupsForest(vs, pDoC) == RecordedIdsForest(ProjectForest(vs, pDoC, order))
    decreases vs, 0
  {
    if vs != [] {
      var init, last := vs[..|vs| - 1], vs[|vs| - 1];
      ForestLast(vs, pDoC, order);
      var count := EmittedForest(init, pDoC);
      ForestSnoc(ProjectForest(init, pDoC, order), Project(last, pDoC, order + count));
      GroupsForestAreRecordedIds(init, pDoC, order);
      GroupsAreRecordedIds(last, pDoC, order + count);
    }
  }

  /** Raising `pDoC` never reduces the number of emitted elements. */
  lemma {:induction false} EmittedMonotone(v: VisualStructure, lo: int, hi: int)
    requires lo <= hi
    ensures Emitted(v, lo) <= Emitted(v, hi)
    decreases v, 1
  {
    if Continues(lo, v.doC) {
      EmittedForestMonotone(v.children, lo, hi);
    }
  }

  /** EmittedMonotone, for a list of siblings. */
  lemma {:induction false} EmittedForestMonotone(vs: seq<VisualStructure>, lo: int, hi: int)
    requires lo <= hi
    ensures EmittedForest(vs, lo) <= EmittedForest(vs, hi)
    decreases vs, 0
  {
    if vs != [] {
      EmittedForestMonotone(vs[..|vs| - 1], lo, hi);
      EmittedMonotone(vs[|vs| - 1], lo, hi);
    }
  }

  /**
   * Reading an output forest back is additive over a last sibling: its orders,
   * its recorded groups and its leaves are those of the others followed by the
   * last's own.
   */
  lemma {:induction false} ForestSnoc(ns: seq<LayoutNode>, n: LayoutNode)
    ensures OrdersForest(ns + [n]) == OrdersForest(ns) + Orders(n)
    ensures RecordedIdsForest(ns + [n]) == RecordedIdsForest(ns) + RecordedIds(n)
    ensures LeavesForest(ns + [n]) == LeavesForest(ns) + Leaves(n)
  {
    assert (ns + [n])[..|ns|] == ns;
  }

  /**
   * Raising `pDoC` never makes the output coarser: the projection at the higher
   * value has at least as many leaves, whatever the counters start at.
   */
  lemma {:induction false} LeavesMonotone(v: VisualStructure, lo: int, hi: int, orderLo: int, orderHi: int)
    requires lo <= hi && Visitable(v, hi)
    ensures Visitable(v, lo)
    ensures Leaves(Project(v, lo, orderLo)) <= Leaves(Project(v, hi, orderHi))
    decreases v, 1
  {
    VisitableAntitone(v, lo, hi);
    if Continues(lo, v.doC) && v.children != [] {
      LeavesForestMonotone(v.children, lo, hi, orderLo + 1, orderHi + 1);
    }
  }

  /** LeavesMonotone, for a list of siblings. */
  lemma {:induction false} LeavesForestMonotone(vs: seq<VisualStructure>, lo: int, hi: int, orderLo: int, orderHi: int)
    requires lo <= hi && AllVisitable(vs, hi) && AllVisitable(vs, lo)
    ensures LeavesForest(ProjectForest(vs, lo, orderLo)) <= LeavesForest(ProjectForest(vs, hi, orderHi))
    decreases vs, 0
  {
    if vs != [] {
      var init := vs[..|vs| - 1];
      var last := vs[|vs| - 1];
      assert AllVisitable(init, hi) && AllVisitable(init, lo) by {
        forall i | 0 <= i < |init| ensures Visitable(init[i], hi) && Visitable(init[i], lo) {
          assert init[i] == vs[i];
        }
      }
      var startLo := orderLo + EmittedForest(init, lo);
      var startHi := orderHi + EmittedForest(init, hi);
      var frontLo, lastLo := ProjectForest(init, lo, orderLo), Project(last, lo, startLo);
      var frontHi, lastHi := ProjectForest(init, hi, orderHi), Project(last, hi, startHi);
      assert ProjectForest(vs, lo, orderLo) == frontLo + [lastLo];
      assert ProjectForest(vs, hi, orderHi) == frontHi + [lastHi];
      LeavesForestMonotone(init, lo, hi, orderLo, orderHi);
      LeavesMonotone(last, lo, hi, startLo, startHi);
      ForestSnoc(frontLo, lastLo);
      ForestSnoc(frontHi, lastHi);
    }
  }
}
