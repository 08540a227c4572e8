/**
 * The react-dnd builder (html-builder2.tsx): a drop zone before every block and at the end of every
 * container, keyed by the parent's dotted path string and an index; `insertBlockAt` puts a block at
 * that index, `moveBlockTo` removes a block and reinserts it, and the trash zone removes one.
 */
module Builder2 {
  import opened Wrappers
  import opened Splice
  import opened Blocks
  import Paths

  /** `parentPath === null` or a parent block that exists: `insertBlockAt` reads `updated[idx].type`
      at the last index and `layout[idx].children` above it, which throw on a missing block. */
  predicate InsertDefined(layout: seq<Block>, parentPath: Option<Path>) {
    parentPath.Some? ==> parentPath.value != [] && NodeAt(layout, parentPath.value).Some?
  }

  /** insertBlockAt: at the root, `slice(0, index)`, the block, `slice(index)`; under a parent,
      nothing happens when its type is not a container, else the block is spliced into a copy of
      `parent.children ? [...] : []`; above the parent each block is rebuilt with the result as its
      children. */
  function InsertBlockAt(layout: seq<Block>, parentPath: Option<Path>, index: nat, newBlock: Block): (r: seq<Block>)
    requires InsertDefined(layout, parentPath)
    ensures |r| == |layout| + (if parentPath.None? then 1 else 0)
    decreases if parentPath.Some? then |parentPath.value| else 0
  {
    match parentPath
    case None => InsertAt(layout, index, newBlock)
    case Some(parts) =>
      var idx := parts[0];
      if |parts| == 1 then
        var parent := layout[idx];
        if !CanHaveChildren(parent.kind) then layout
        else layout[idx := parent.(children := Defined(InsertAt(Kids(parent), index, newBlock)))]
      else
        var children := InsertBlockAt(Kids(layout[idx]), Some(parts[1..]), index, newBlock);
        layout[..idx] + [layout[idx].(children := Defined(children))] + layout[idx + 1..]
  }

  /** The recursion amounts to one splice into the parent's children, or to nothing at a leaf. */
  lemma {:induction false} InsertBlockAtSplice(layout: seq<Block>, p: Path, index: nat, b: Block)
    requires p != [] && NodeAt(layout, p).Some?
    ensures ChildrenAt(layout, p) == Some(Kids(NodeAt(layout, p).value))
    ensures var node := NodeAt(layout, p).value;
            InsertBlockAt(layout, Some(p), index, b) ==
            if CanHaveChildren(node.kind) then SetChildrenAt(layout, p, InsertAt(Kids(node), index, b)) else layout
    decreases |p|
  {
    ChildrenAtNode(layout, p);
    if |p| > 1 {
      var k := p[0];
      var kids := Kids(layout[k]);
      var tail := p[1..];
      InsertBlockAtSplice(kids, tail, index, b);
      var node := NodeAt(kids, tail).value;
      assert NodeAt(layout, p) == Some(node);
      var inner := InsertBlockAt(kids, Some(tail), index, b);
      var x := layout[k].(children := Defined(inner));
      RebuildIsUpdate(layout, k, x);
      assert InsertBlockAt(layout, Some(p), index, b) == layout[k := x];
      if !CanHaveChildren(node.kind) {
        // the block above the parent has children, so rebuilding it with them gives it back
        assert kids != [];
        assert x == layout[k];
      }
    }
  }

  /** At the root the block lands at `index` (the end when `index` is past it), blocks before it stay
      and blocks from there on move one place right. */
  lemma InsertAtRoot(layout: seq<Block>, index: nat, b: Block)
    ensures var r := InsertBlockAt(layout, None, index, b);
            var c := Clamp(index, |layout|);
            && |r| == |layout| + 1
            && r[c] == b
            && r[..c] == layout[..c]
            && r[c + 1..] == layout[c..]
            && (index >= |layout| ==> r == layout + [b])
  {
  }

  /** A parent whose type cannot have children refuses the block: the layout comes back as it was. */
  lemma InsertIntoLeaf(layout: seq<Block>, p: Path, index: nat, b: Block)
    requires p != [] && NodeAt(layout, p).Some?
    requires !CanHaveChildren(NodeAt(layout, p).value.kind)
    ensures InsertBlockAt(layout, Some(p), index, b) == layout
  {
    InsertBlockAtSplice(layout, p, index, b);
  }

  /** Under a container the block lands at position `index` of the parent's children (the end when
      `index` is past it), the parent keeps its id and type, and nothing off the path changes. */
  lemma InsertIntoContainer(layout: seq<Block>, p: Path, index: nat, b: Block)
    requires p != [] && NodeAt(layout, p).Some?
    requires CanHaveChildren(NodeAt(layout, p).value.kind)
    ensures var node := NodeAt(layout, p).value;
            var r := InsertBlockAt(layout, Some(p), index, b);
            && Spliced(layout, r, p, InsertAt(Kids(node), index, b))
            && NodeAt(r, p + [Clamp(index, |Kids(node)|)]) == Some(b)
  {
    var node := NodeAt(layout, p).value;
    var s := InsertAt(Kids(node), index, b);
    InsertBlockAtSplice(layout, p, index, b);
    SetChildrenAtSpliced(layout, p, s);
    SetChildrenAtTwice(layout, p, s, s);
    NodeAtSnoc(SetChildrenAt(layout, p, s), p, Clamp(index, |Kids(node)|));
  }

  /** Whether the block goes in: always at the root, only under a container elsewhere. */
  predicate Accepts(layout: seq<Block>, parentPath: Option<Path>)
    requires InsertDefined(layout, parentPath)
  {
    parentPath.None? || CanHaveChildren(NodeAt(layout, parentPath.value).value.kind)
  }

  /** The inserted block's subtree is added when the block goes in, and nothing otherwise. */
  lemma InsertBlockOccurrences(layout: seq<Block>, parentPath: Option<Path>, index: nat, b: Block, x: string)
    requires InsertDefined(layout, parentPath)
    ensures Occurrences(InsertBlockAt(layout, parentPath, index, b), x)
            == Occurrences(layout, x) + (if Accepts(layout, parentPath) then Occurrences([b], x) else 0)
  {
    match parentPath
    case None =>
      OccurrencesInsertAt(layout, index, b, x);
    case Some(p) =>
      InsertBlockAtSplice(layout, p, index, b);
      var node := NodeAt(layout, p).value;
      if CanHaveChildren(node.kind) {
        OccurrencesSetChildrenAt(layout, p, InsertAt(Kids(node), index, b), x);
        OccurrencesInsertAt(Kids(node), index, b, x);
      }
  }

  lemma InsertKeepsLeavesEmpty(layout: seq<Block>, parentPath: Option<Path>, index: nat, b: Block)
    requires InsertDefined(layout, parentPath)
    requires LeavesEmpty(layout) && BlockOk(b)
    ensures LeavesEmpty(InsertBlockAt(layout, parentPath, index, b))
  {
    match parentPath
    case None =>
      LeavesEmptyInsertAt(layout, index, b);
    case Some(p) =>
      InsertBlockAtSplice(layout, p, index, b);
      var node := NodeAt(layout, p).value;
      if CanHaveChildren(node.kind) {
        LeavesEmptyKids(layout, p[0]);
        LeavesEmptyAt(layout, p);
        LeavesEmptyInsertAt(Kids(node), index, b);
        LeavesEmptySetChildrenAt(layout, p, InsertAt(Kids(node), index, b));
      }
  }

  // ------------------------------------------------------------------
  // moveBlockTo
  // ------------------------------------------------------------------

  /** moveBlockTo is defined: the source path's parent exists, and when a block is found the target
      parent exists in the layout left after the removal. */
  predicate MoveDefined(layout: seq<Block>, fromPath: Path, toParentPath: Option<Path>) {
    && ParentResolves(layout, fromPath)
    && (NodeAt(layout, fromPath).Some? ==> InsertDefined(RemoveBlockAtPath(layout, fromPath).newLayout, toParentPath))
  }

  /** moveBlockTo: remove the block at `fromPath`; when there is none keep the original layout (not the
      one the removal rebuilt), otherwise insert the block found, unchanged, into the layout left after
      the removal, at the target taken as is. A move never duplicates a block. */
  function MoveBlockTo(layout: seq<Block>, fromPath: Path, toParentPath: Option<Path>, toIndex: nat): (r: seq<Block>)
    requires MoveDefined(layout, fromPath, toParentPath)
    ensures NodeAt(layout, fromPath).None? ==> r == layout
    ensures NodeAt(layout, fromPath).Some? ==>
              r == InsertBlockAt(RemoveBlockAtPath(layout, fromPath).newLayout, toParentPath, toIndex, NodeAt(layout, fromPath).value)
    ensures forall x :: Occurrences(r, x) <= Occurrences(layout, x)
  {
    var removal := RemoveBlockAtPath(layout, fromPath);
    if removal.block.None? then layout
    else
      var result := InsertBlockAt(removal.newLayout, toParentPath, toIndex, removal.block.value);
      assert forall x :: Occurrences(result, x) <= Occurrences(layout, x) by {
        forall x
          ensures Occurrences(result, x) <= Occurrences(layout, x)
        {
          RemoveBlockOccurrences(layout, fromPath, x);
          InsertBlockOccurrences(removal.newLayout, toParentPath, toIndex, removal.block.value, x);
        }
      }
      result
  }

  /** The block found is reinserted as it was (same id, type and children) at the target of the
      post-removal layout when that target accepts it, so every id keeps its count. */
  lemma MoveFound(layout: seq<Block>, fromPath: Path, toParentPath: Option<Path>, toIndex: nat, x: string)
    requires MoveDefined(layout, fromPath, toParentPath)
    requires NodeAt(layout, fromPath).Some?
    ensures var mid := RemoveBlockAtPath(layout, fromPath).newLayout;
            var moved := NodeAt(layout, fromPath).value;
            && MoveBlockTo(layout, fromPath, toParentPath, toIndex) == InsertBlockAt(mid, toParentPath, toIndex, moved)
            && (Accepts(mid, toParentPath) ==> Occurrences(MoveBlockTo(layout, fromPath, toParentPath, toIndex), x) == Occurrences(layout, x))
  {
    NodeAtSnoc(layout, Parent(fromPath), Last(fromPath));
    assert Parent(fromPath) + [Last(fromPath)] == fromPath;
    RemoveBlockFound(layout, fromPath);
    RemoveBlockOccurrences(layout, fromPath, x);
    var mid := RemoveBlockAtPath(layout, fromPath).newLayout;
    InsertBlockOccurrences(mid, toParentPath, toIndex, NodeAt(layout, fromPath).value, x);
  }

  /** Moving to the root puts the block at `toIndex` of the post-removal root. */
  lemma MoveToRoot(layout: seq<Block>, fromPath: Path, toIndex: nat)
    requires MoveDefined(layout, fromPath, None)
    requires NodeAt(layout, fromPath).Some?
    ensures var mid := RemoveBlockAtPath(layout, fromPath).newLayout;
            var r := MoveBlockTo(layout, fromPath, None, toIndex);
            && |r| == |mid| + 1
            && r[Clamp(toIndex, |mid|)] == NodeAt(layout, fromPath).value
  {
    MoveFound(layout, fromPath, None, toIndex, []);
    InsertAtRoot(RemoveBlockAtPath(layout, fromPath).newLayout, toIndex, NodeAt(layout, fromPath).value);
  }

  /** A target parent that is a leaf in the post-removal layout refuses the block, which is then lost:
      the result is the post-removal layout, short of the moved subtree. */
  lemma MoveIntoLeaf(layout: seq<Block>, fromPath: Path, p: Path, toIndex: nat, x: string)
    requires MoveDefined(layout, fromPath, Some(p))
    requires NodeAt(layout, fromPath).Some?
    requires !CanHaveChildren(NodeAt(RemoveBlockAtPath(layout, fromPath).newLayout, p).value.kind)
    ensures var r := MoveBlockTo(layout, fromPath, Some(p), toIndex);
            && r == RemoveBlockAtPath(layout, fromPath).newLayout
            && Occurrences(r, x) + Occurrences([NodeAt(layout, fromPath).value], x) == Occurrences(layout, x)
  {
    MoveFound(layout, fromPath, Some(p), toIndex, x);
    InsertIntoLeaf(RemoveBlockAtPath(layout, fromPath).newLayout, p, toIndex, NodeAt(layout, fromPath).value);
    RemoveBlockOccurrences(layout, fromPath, x);
  }

  lemma MoveKeepsLeavesEmpty(layout: seq<Block>, fromPath: Path, toParentPath: Option<Path>, toIndex: nat)
    requires MoveDefined(layout, fromPath, toParentPath)
    requires LeavesEmpty(layout)
    ensures LeavesEmpty(MoveBlockTo(layout, fromPath, toParentPath, toIndex))
  {
    var r := RemoveBlockAtPath(layout, fromPath);
    if r.block.Some? {
      LeavesEmptyAt(layout, fromPath);
      OneLeavesEmpty(r.block.value);
      RemoveKeepsLeavesEmpty(layout, fromPath);
      InsertKeepsLeavesEmpty(r.newLayout, toParentPath, toIndex, r.block.value);
    }
  }

  /** In a layout with `[S0, S1, T2]`, dragging section 0 onto the drop zone inside section 1 removes
      it first; the target path "1" then names the text block, which refuses it, and the section is gone. */
  lemma MoveForwardIntoSiblingLoses(s0: string, s1: string, t2: string)
    ensures var layout := [Block(s0, Section, Defined([])), Block(s1, Section, Defined([])), Block(t2, Text, Undefined)];
            MoveBlockTo(layout, [0], Some([1]), 0) == layout[1..]
  {
    var layout := [Block(s0, Section, Defined([])), Block(s1, Section, Defined([])), Block(t2, Text, Undefined)];
    assert Parent([0]) == [];
    assert RemoveBlockAtPath(layout, [0]).newLayout == layout[1..];
  }

  /** In a layout `[S0, S1]`, the drop zone inside section 1 names parent "1" in the layout the user
      sees, but after section 0 is removed there is no block at "1": `insertBlockAt` reads the type
      of `updated[1]`, which is undefined, and throws. */
  lemma MoveIntoLastSiblingCrashes(s0: string, s1: string)
    ensures var layout := [Block(s0, Section, Defined([])), Block(s1, Section, Defined([]))];
            && NodeAt(layout, [1]).Some? && CanHaveChildren(NodeAt(layout, [1]).value.kind)
            && ParentResolves(layout, [0]) && NodeAt(layout, [0]).Some?
            && !MoveDefined(layout, [0], Some([1]))
  {
    var layout := [Block(s0, Section, Defined([])), Block(s1, Section, Defined([]))];
    assert Parent([0]) == [];
    assert RemoveBlockAtPath(layout, [0]).newLayout == layout[1..];
  }

  /** The move the drop zones evidently intend: the target parent is the block the user dropped onto,
      named by its path in the layout before the removal, so the path is adjusted for the removed
      block before the insertion; a drop into the moved block's own subtree is ignored. Defined
      whenever the source and target exist in the layout the user sees. */
  function MoveBlockToIntended(layout: seq<Block>, fromPath: Path, toParentPath: Option<Path>, toIndex: nat): (r: seq<Block>)
    requires ParentResolves(layout, fromPath)
    requires InsertDefined(layout, toParentPath)
    ensures NodeAt(layout, fromPath).None? ==> r == layout
    ensures toParentPath.Some? && fromPath <= toParentPath.value ==> r == layout
    ensures forall x :: Occurrences(r, x) <= Occurrences(layout, x)
  {
    var removal := RemoveBlockAtPath(layout, fromPath);
    if removal.block.None? then layout
    else if toParentPath.Some? && fromPath <= toParentPath.value then layout
    else
      var target := if toParentPath.None? then None else Some(AdjustPath(fromPath, toParentPath.value));
      assert InsertDefined(removal.newLayout, target) by {
        if toParentPath.Some? {
          RemoveKeepsOtherBlocks(layout, fromPath, toParentPath.value);
        }
      }
      var result := InsertBlockAt(removal.newLayout, target, toIndex, removal.block.value);
      assert forall x :: Occurrences(result, x) <= Occurrences(layout, x) by {
        forall x
          ensures Occurrences(result, x) <= Occurrences(layout, x)
        {
          RemoveBlockOccurrences(layout, fromPath, x);
          InsertBlockOccurrences(removal.newLayout, target, toIndex, removal.block.value, x);
        }
      }
      result
  }

  /** Dropped into a container outside its own subtree, the block lands at position `toIndex` of that
      container's children (read after the removal), and the container keeps its id and type. */
  lemma IntendedMoveLandsInTarget(layout: seq<Block>, fromPath: Path, q: Path, toIndex: nat)
    requires ParentResolves(layout, fromPath) && NodeAt(layout, fromPath).Some?
    requires q != [] && NodeAt(layout, q).Some? && !(fromPath <= q)
    requires CanHaveChildren(NodeAt(layout, q).value.kind)
    ensures var mid := RemoveBlockAtPath(layout, fromPath).newLayout;
            var target := AdjustPath(fromPath, q);
            var r := MoveBlockToIntended(layout, fromPath, Some(q), toIndex);
            && NodeAt(mid, target).Some?
            && SameLabel(NodeAt(layout, q), NodeAt(r, target))
            && NodeAt(r, target + [Clamp(toIndex, |Kids(NodeAt(mid, target).value)|)]) == Some(NodeAt(layout, fromPath).value)
  {
    var mid := RemoveBlockAtPath(layout, fromPath).newLayout;
    var target := AdjustPath(fromPath, q);
    RemoveKeepsOtherBlocks(layout, fromPath, q);
    InsertIntoContainer(mid, target, toIndex, NodeAt(layout, fromPath).value);
  }

  /** On the layout of the crash above, the intended move puts section 0 inside section 1. */
  lemma MoveIntoLastSiblingIntended(s0: string, s1: string)
    ensures var layout := [Block(s0, Section, Defined([])), Block(s1, Section, Defined([]))];
            MoveBlockToIntended(layout, [0], Some([1]), 0) == [Block(s1, Section, Defined([layout[0]]))]
  {
    var layout := [Block(s0, Section, Defined([])), Block(s1, Section, Defined([]))];
    assert Parent([0]) == [];
    assert RemoveBlockAtPath(layout, [0]).newLayout == layout[1..];
    assert RemoveBlockAtPath(layout, [0]).block == Some(layout[0]);
    assert AdjustPath([0], [1]) == [0];
    assert InsertAt([], 0, layout[0]) == [layout[0]];
    assert InsertBlockAt(layout[1..], Some([0]), 0, layout[0]) == [Block(s1, Section, Defined([layout[0]]))];
  }

  // ------------------------------------------------------------------
  // The drop and remove handlers
  // ------------------------------------------------------------------

  datatype DragType = SidebarDrag | BlockDrag

  /** `DragItem`: sidebar items carry a block type, editor blocks their dotted path string. */
  datatype DragItem = DragItem(dragType: DragType, blockType: Option<Kind>, path: Option<string>)

  /** `item.path` is a non-empty string. */
  predicate HasPath(item: DragItem) {
    item.path.Some? && item.path.value != []
  }

  /** `item.type === "sidebar" && item.blockType`. */
  predicate IsNewBlock(item: DragItem) {
    item.dragType == SidebarDrag && item.blockType.Some?
  }

  /** `item.type === "block" && item.path`. */
  predicate IsBlockMove(item: DragItem) {
    item.dragType == BlockDrag && HasPath(item)
  }

  /** What a drop does not crash on: a sidebar drop onto an existing parent, or a dragged block whose
      path parses and whose move is defined. */
  predicate DropDefined(layout: seq<Block>, item: DragItem, parentPath: Option<string>) {
    && ParentParses(parentPath)
    && (IsNewBlock(item) ==> InsertDefined(layout, ParentOf(parentPath)))
    && (!IsNewBlock(item) && IsBlockMove(item) ==>
          DotPath(item.path.value).Some? && MoveDefined(layout, DotPath(item.path.value).value, ParentOf(parentPath)))
  }

  /** The drop handlers of the editor (root, `parentPath` null) and of every drop zone. A sidebar item
      becomes a new block with the given id: at the root it lands at `index` and the other root blocks
      keep their order, under a container it lands at position `index` of its children and nothing
      off the path changes, and a parent that cannot have children refuses it. A dragged
      block moves; anything else is ignored. */
  function Drop(layout: seq<Block>, item: DragItem, parentPath: Option<string>, index: nat, freshId: string): (r: seq<Block>)
    requires DropDefined(layout, item, parentPath)
    ensures IsNewBlock(item) ==> r == InsertBlockAt(layout, ParentOf(parentPath), index, NewBlock(freshId, item.blockType.value))
    ensures IsNewBlock(item) && parentPath.None? ==>
              var c := Clamp(index, |layout|);
              && |r| == |layout| + 1 && r[c] == NewBlock(freshId, item.blockType.value)
              && r[..c] == layout[..c] && r[c + 1..] == layout[c..]
    ensures IsNewBlock(item) && parentPath.Some? ==>
              var p := ParentOf(parentPath).value;
              var parent := NodeAt(layout, p).value;
              if CanHaveChildren(parent.kind) then
                && Spliced(layout, r, p, InsertAt(Kids(parent), index, NewBlock(freshId, item.blockType.value)))
                && NodeAt(r, p + [Clamp(index, |Kids(parent)|)]) == Some(NewBlock(freshId, item.blockType.value))
              else r == layout
    ensures !IsNewBlock(item) && IsBlockMove(item) ==>
              r == MoveBlockTo(layout, DotPath(item.path.value).value, ParentOf(parentPath), index)
    ensures !IsNewBlock(item) && !IsBlockMove(item) ==> r == layout
  {
    if IsNewBlock(item) then
      var b := NewBlock(freshId, item.blockType.value);
      match ParentOf(parentPath)
      case None =>
        InsertAtRoot(layout, index, b);
        InsertBlockAt(layout, None, index, b)
      case Some(p) =>
        if CanHaveChildren(NodeAt(layout, p).value.kind) then
          InsertIntoContainer(layout, p, index, b);
          InsertBlockAt(layout, Some(p), index, b)
        else
          InsertIntoLeaf(layout, p, index, b);
          InsertBlockAt(layout, Some(p), index, b)
    else if IsBlockMove(item) then
      MoveBlockTo(layout, DotPath(item.path.value).value, ParentOf(parentPath), index)
    else layout
  }

  /** Every drop keeps leaf blocks childless. */
  lemma DropKeepsLeavesEmpty(layout: seq<Block>, item: DragItem, parentPath: Option<string>, index: nat, freshId: string)
    requires DropDefined(layout, item, parentPath)
    requires LeavesEmpty(layout)
    ensures LeavesEmpty(Drop(layout, item, parentPath, index, freshId))
  {
    if IsNewBlock(item) {
      var b := NewBlock(freshId, item.blockType.value);
      OneLeavesEmpty(b);
      InsertKeepsLeavesEmpty(layout, ParentOf(parentPath), index, b);
    } else if IsBlockMove(item) {
      MoveKeepsLeavesEmpty(layout, DotPath(item.path.value).value, ParentOf(parentPath), index);
    }
  }

  /** Every drop keeps ids unique when the new block's id is not in use yet. */
  lemma DropKeepsUniqueIds(layout: seq<Block>, item: DragItem, parentPath: Option<string>, index: nat, freshId: string)
    requires DropDefined(layout, item, parentPath)
    requires UniqueIds(layout) && Occurrences(layout, freshId) == 0
    ensures UniqueIds(Drop(layout, item, parentPath, index, freshId))
  {
    var r := Drop(layout, item, parentPath, index, freshId);
    forall x
      ensures Occurrences(r, x) <= 1
    {
      if IsNewBlock(item) {
        var b := NewBlock(freshId, item.blockType.value);
        assert [b][1..] == [];
        InsertBlockOccurrences(layout, ParentOf(parentPath), index, b, x);
      }
    }
  }

  /** handleRemove: the layout without the block at the given path string. Exactly that block's
      subtree leaves the layout (nothing when there is no block there), and leaf blocks stay childless. */
  function HandleRemove(layout: seq<Block>, path: string): (r: seq<Block>)
    requires DotPath(path).Some? && ParentResolves(layout, DotPath(path).value)
    ensures var removed := NodeAt(layout, DotPath(path).value);
            forall x :: Occurrences(r, x) + (if removed.Some? then Occurrences([removed.value], x) else 0) == Occurrences(layout, x)
    ensures LeavesEmpty(layout) ==> LeavesEmpty(r)
  {
    var p := DotPath(path).value;
    var removal := RemoveBlockAtPath(layout, p);
    assert forall x :: Occurrences(removal.newLayout, x) + (if removal.block.Some? then Occurrences([removal.block.value], x) else 0)
                       == Occurrences(layout, x) by {
      forall x
        ensures Occurrences(removal.newLayout, x) + (if removal.block.Some? then Occurrences([removal.block.value], x) else 0)
                == Occurrences(layout, x)
      {
        RemoveBlockOccurrences(layout, p, x);
      }
    }
    assert LeavesEmpty(layout) ==> LeavesEmpty(removal.newLayout) by {
      if LeavesEmpty(layout) {
        RemoveKeepsLeavesEmpty(layout, p);
      }
    }
    removal.newLayout
  }

  /** Removing the block at a formatted path takes out that block's subtree and leaves every block
      outside it where it was. */
  lemma HandleRemoveFound(layout: seq<Block>, p: Path, x: string)
    requires |p| > 0 && NodeAt(layout, p).Some?
    ensures DotPath(Paths.FormatPath(p, '.')) == Some(p)
    ensures ParentResolves(layout, p)
    ensures var r := HandleRemove(layout, Paths.FormatPath(p, '.'));
            && Occurrences(r, x) + Occurrences([NodeAt(layout, p).value], x) == Occurrences(layout, x)
            && (forall s: Path :: !(s <= Parent(p)) && !(Parent(p) <= s) ==> NodeAt(r, s) == NodeAt(layout, s))
  {
    Paths.ParseFormat(p, '.');
    NodeAtSnoc(layout, Parent(p), Last(p));
    assert Parent(p) + [Last(p)] == p;
    RemoveBlockFound(layout, p);
    RemoveBlockOccurrences(layout, p, x);
  }

  /** The trash zone: a dragged item with a path is removed, any other item is ignored. It never adds
      a block and keeps leaf blocks childless. */
  function TrashDrop(layout: seq<Block>, item: DragItem): (r: seq<Block>)
    requires HasPath(item) ==> DotPath(item.path.value).Some? && ParentResolves(layout, DotPath(item.path.value).value)
    ensures !HasPath(item) ==> r == layout
    ensures forall x :: Occurrences(r, x) <= Occurrences(layout, x)
    ensures LeavesEmpty(layout) ==> LeavesEmpty(r)
  {
    if HasPath(item) then HandleRemove(layout, item.path.value) else layout
  }
}
