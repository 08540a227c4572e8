/**
 * The HTML5 drag-and-drop builder (html-builder.tsx): dropping onto a block adds the dragged item
 * as that block's last child, dropping onto the editor background adds it at the end of the root;
 * the sidebar marks its drags with `block-type` and `from-sidebar`, an editor block records its own
 * path in the editor state when its drag starts.
 */
module Builder {
  import opened Wrappers
  import opened Splice
  import opened Blocks
  import Builder2

  /** `blocks[idx]` exists at every level: addBlockAtPath reads `blocks[idx].type` at the last index
      and `blocks[idx].children` above it. */
  predicate AddDefined(blocks: seq<Block>, path: Path) {
    path != [] && NodeAt(blocks, path).Some?
  }

  /** addBlockAtPath: at the last index, nothing happens unless the block's type is a container, in
      which case the new block is appended to `children || []`; above it each block is rebuilt with
      the result as its children. */
  function AddBlockAtPath(blocks: seq<Block>, path: Path, newBlock: Block): (r: seq<Block>)
    requires AddDefined(blocks, path)
    ensures |r| == |blocks|
    decreases |path|
  {
    var idx := path[0];
    if |path| == 1 then
      if !CanHaveChildren(blocks[idx].kind) then blocks
      else blocks[idx := blocks[idx].(children := Defined(Kids(blocks[idx]) + [newBlock]))]
    else
      var children := AddBlockAtPath(Kids(blocks[idx]), path[1..], newBlock);
      blocks[..idx] + [blocks[idx].(children := Defined(children))] + blocks[idx + 1..]
  }

  /** The recursion amounts to one append to the target's children, or to nothing at a leaf. */
  lemma {:induction false} AddBlockAtPathSplice(blocks: seq<Block>, path: Path, b: Block)
    requires AddDefined(blocks, path)
    ensures ChildrenAt(blocks, path) == Some(Kids(NodeAt(blocks, path).value))
    ensures var node := NodeAt(blocks, path).value;
            AddBlockAtPath(blocks, path, b) ==
            if CanHaveChildren(node.kind) then SetChildrenAt(blocks, path, Kids(node) + [b]) else blocks
    decreases |path|
  {
    ChildrenAtNode(blocks, path);
    if |path| > 1 {
      var k := path[0];
      AddBlockAtPathSplice(Kids(blocks[k]), path[1..], b);
      var x := blocks[k].(children := Defined(AddBlockAtPath(Kids(blocks[k]), path[1..], b)));
      RebuildIsUpdate(blocks, k, x);
      // the block above the target has children, so rebuilding it with them gives it back
      assert Kids(blocks[k]) != [];
    }
  }

  /** A target whose type cannot have children leaves the blocks as they were. */
  lemma AddIntoLeaf(blocks: seq<Block>, path: Path, b: Block)
    requires AddDefined(blocks, path)
    requires !CanHaveChildren(NodeAt(blocks, path).value.kind)
    ensures AddBlockAtPath(blocks, path, b) == blocks
  {
    AddBlockAtPathSplice(blocks, path, b);
  }

  /** A container target gets the new block as its last child after its existing children in their
      order; it keeps its id and type, and nothing off the path changes. */
  lemma AddIntoContainer(blocks: seq<Block>, path: Path, b: Block)
    requires AddDefined(blocks, path)
    requires CanHaveChildren(NodeAt(blocks, path).value.kind)
    ensures var node := NodeAt(blocks, path).value;
            var r := AddBlockAtPath(blocks, path, b);
            && Spliced(blocks, r, path, Kids(node) + [b])
            && NodeAt(r, path + [|Kids(node)|]) == Some(b)
  {
    var node := NodeAt(blocks, path).value;
    AddBlockAtPathSplice(blocks, path, b);
    SetChildrenAtSpliced(blocks, path, Kids(node) + [b]);
    SetChildrenAtTwice(blocks, path, Kids(node) + [b], Kids(node) + [b]);
    NodeAtSnoc(SetChildrenAt(blocks, path, Kids(node) + [b]), path, |Kids(node)|);
  }

  /** Below the first index only the block at that index is rebuilt (keeping its id and type); its
      siblings before and after are the same blocks. */
  lemma AddRebuildsOneRootBlock(blocks: seq<Block>, path: Path, b: Block)
    requires AddDefined(blocks, path) && |path| > 1
    ensures var r := AddBlockAtPath(blocks, path, b);
            var k := path[0];
            && r[..k] == blocks[..k]
            && r[k + 1..] == blocks[k + 1..]
            && r[k].id == blocks[k].id && r[k].kind == blocks[k].kind
  {
  }

  /** Appending as the last child is the other builder's insertion at index `children.length`. */
  lemma AddIsInsertAtEnd(blocks: seq<Block>, path: Path, b: Block)
    requires AddDefined(blocks, path)
    ensures AddBlockAtPath(blocks, path, b) ==
            Builder2.InsertBlockAt(blocks, Some(path), |Kids(NodeAt(blocks, path).value)|, b)
  {
    var node := NodeAt(blocks, path).value;
    AddBlockAtPathSplice(blocks, path, b);
    Builder2.InsertBlockAtSplice(blocks, path, |Kids(node)|, b);
    assert InsertAt(Kids(node), |Kids(node)|, b) == Kids(node) + [b];
  }

  lemma AddKeepsLeavesEmpty(blocks: seq<Block>, path: Path, b: Block)
    requires AddDefined(blocks, path)
    requires LeavesEmpty(blocks) && BlockOk(b)
    ensures LeavesEmpty(AddBlockAtPath(blocks, path, b))
  {
    AddIsInsertAtEnd(blocks, path, b);
    Builder2.InsertKeepsLeavesEmpty(blocks, Some(path), |Kids(NodeAt(blocks, path).value)|, b);
  }

  /** The new block's subtree is added when the target is a container, and nothing otherwise. */
  lemma AddOccurrences(blocks: seq<Block>, path: Path, b: Block, x: string)
    requires AddDefined(blocks, path)
    ensures Occurrences(AddBlockAtPath(blocks, path, b), x)
            == Occurrences(blocks, x) + (if CanHaveChildren(NodeAt(blocks, path).value.kind) then Occurrences([b], x) else 0)
  {
    AddIsInsertAtEnd(blocks, path, b);
    Builder2.InsertBlockOccurrences(blocks, Some(path), |Kids(NodeAt(blocks, path).value)|, b, x);
  }

  // ------------------------------------------------------------------
  // moveBlock
  // ------------------------------------------------------------------

  /** moveBlock is defined: the source path's parent exists, and when a block is found and a target
      is given, the target exists in the blocks left after the removal. */
  predicate MoveDefined(blocks: seq<Block>, fromPath: Path, toPath: Option<Path>) {
    && ParentResolves(blocks, fromPath)
    && (NodeAt(blocks, fromPath).Some? && toPath.Some? ==> AddDefined(RemoveBlockAtPath(blocks, fromPath).newLayout, toPath.value))
  }

  /** moveBlock: remove the block at `fromPath`; when there is none keep the original blocks,
      otherwise append it to the root (no target) or add it under the target, taken as is in the
      blocks left after the removal. A move never duplicates a block. */
  function MoveBlock(blocks: seq<Block>, fromPath: Path, toPath: Option<Path>): (r: seq<Block>)
    requires MoveDefined(blocks, fromPath, toPath)
    ensures NodeAt(blocks, fromPath).None? ==> r == blocks
    ensures forall x :: Occurrences(r, x) <= Occurrences(blocks, x)
  {
    var removal := RemoveBlockAtPath(blocks, fromPath);
    if removal.block.None? then blocks
    else
      var moved := removal.block.value;
      var result := if toPath.None? then removal.newLayout + [moved] else AddBlockAtPath(removal.newLayout, toPath.value, moved);
      assert forall x :: Occurrences(result, x) <= Occurrences(blocks, x) by {
        forall x
          ensures Occurrences(result, x) <= Occurrences(blocks, x)
        {
          RemoveBlockOccurrences(blocks, fromPath, x);
          if toPath.None? {
            OccurrencesConcat(removal.newLayout, [moved], x);
          } else {
            AddOccurrences(removal.newLayout, toPath.value, moved, x);
          }
        }
      }
      result
  }

  /** With no target the block found, unchanged, becomes the last root block after the blocks left by
      the removal, and every id keeps its count. */
  lemma MoveToRoot(blocks: seq<Block>, fromPath: Path, x: string)
    requires MoveDefined(blocks, fromPath, None)
    requires NodeAt(blocks, fromPath).Some?
    ensures var mid := RemoveBlockAtPath(blocks, fromPath).newLayout;
            var r := MoveBlock(blocks, fromPath, None);
            && r[..|r| - 1] == mid
            && r[|r| - 1] == NodeAt(blocks, fromPath).value
            && Occurrences(r, x) == Occurrences(blocks, x)
  {
    var mid := RemoveBlockAtPath(blocks, fromPath).newLayout;
    RemoveBlockOccurrences(blocks, fromPath, x);
    OccurrencesConcat(mid, [NodeAt(blocks, fromPath).value], x);
  }

  /** With a container target the block found, unchanged, becomes its last child after the target's
      children in their order, the target keeps its id and type, nothing off the target's path
      changes, and every id keeps its count. */
  lemma MoveIntoContainer(blocks: seq<Block>, fromPath: Path, p: Path, x: string)
    requires MoveDefined(blocks, fromPath, Some(p))
    requires NodeAt(blocks, fromPath).Some?
    requires CanHaveChildren(NodeAt(RemoveBlockAtPath(blocks, fromPath).newLayout, p).value.kind)
    ensures var mid := RemoveBlockAtPath(blocks, fromPath).newLayout;
            var r := MoveBlock(blocks, fromPath, Some(p));
            var moved := NodeAt(blocks, fromPath).value;
            && r == AddBlockAtPath(mid, p, moved)
            && Spliced(mid, r, p, Kids(NodeAt(mid, p).value) + [moved])
            && NodeAt(r, p + [|Kids(NodeAt(mid, p).value)|]) == NodeAt(blocks, fromPath)
            && Occurrences(r, x) == Occurrences(blocks, x)
  {
    var mid := RemoveBlockAtPath(blocks, fromPath).newLayout;
    var moved := NodeAt(blocks, fromPath).value;
    AddIntoContainer(mid, p, moved);
    AddOccurrences(mid, p, moved, x);
    RemoveBlockOccurrences(blocks, fromPath, x);
  }

  /** With a target that cannot have children the block is dropped: the result is what the removal
      left, short of the moved subtree. */
  lemma MoveIntoLeaf(blocks: seq<Block>, fromPath: Path, p: Path, x: string)
    requires MoveDefined(blocks, fromPath, Some(p))
    requires NodeAt(blocks, fromPath).Some?
    requires !CanHaveChildren(NodeAt(RemoveBlockAtPath(blocks, fromPath).newLayout, p).value.kind)
    ensures var r := MoveBlock(blocks, fromPath, Some(p));
            && r == RemoveBlockAtPath(blocks, fromPath).newLayout
            && Occurrences(r, x) + Occurrences([NodeAt(blocks, fromPath).value], x) == Occurrences(blocks, x)
  {
    var mid := RemoveBlockAtPath(blocks, fromPath).newLayout;
    AddIntoLeaf(mid, p, NodeAt(blocks, fromPath).value);
    RemoveBlockOccurrences(blocks, fromPath, x);
  }

  lemma MoveKeepsLeavesEmpty(blocks: seq<Block>, fromPath: Path, toPath: Option<Path>)
    requires MoveDefined(blocks, fromPath, toPath)
    requires LeavesEmpty(blocks)
    ensures LeavesEmpty(MoveBlock(blocks, fromPath, toPath))
  {
    var r := RemoveBlockAtPath(blocks, fromPath);
    if r.block.Some? {
      LeavesEmptyAt(blocks, fromPath);
      OneLeavesEmpty(r.block.value);
      RemoveKeepsLeavesEmpty(blocks, fromPath);
      if toPath.None? {
        LeavesEmptyInsertAt(r.newLayout, |r.newLayout|, r.block.value);
        assert InsertAt(r.newLayout, |r.newLayout|, r.block.value) == r.newLayout + [r.block.value];
      } else {
        AddKeepsLeavesEmpty(r.newLayout, toPath.value, r.block.value);
      }
    }
  }

  // ------------------------------------------------------------------
  // handleDropNewBlock
  // ------------------------------------------------------------------

  /** The name of a block type, as the `BLOCKS` keys spell it. */
  function TypeName(k: Kind): string {
    match k
    case Section => "section"
    case Text => "text"
    case TextArea => "textarea"
  }

  /** `type in BLOCKS` for the registry's own keys, and the type it names. */
  function ParseBlockType(s: string): (k: Option<Kind>)
    ensures k.Some? ==> TypeName(k.value) == s
    ensures k.None? ==> forall t :: TypeName(t) != s
  {
    if s == "section" then Some(Section)
    else if s == "text" then Some(Text)
    else if s == "textarea" then Some(TextArea)
    else None
  }

  lemma ParseTypeName(k: Kind)
    ensures ParseBlockType(TypeName(k)) == Some(k)
  {
  }

  /** What `e.dataTransfer.getData` returns for the two keys the sidebar sets; an absent key reads as
      the empty string. */
  datatype DropData = DropData(blockType: string, fromSidebar: string)

  /** The editor's state: the blocks and the path string of the editor block being dragged. */
  datatype EditorState = EditorState(blocks: seq<Block>, draggedBlockPath: Option<string>)

  /** A sidebar drag sets both keys. */
  function SidebarDragData(k: Kind): DropData {
    DropData(TypeName(k), "true")
  }

  /** An editor block's drag sets no data at all; it records its path in the editor state. */
  const BlockDragData := DropData("", "")

  function DragStart(st: EditorState, path: string): (st': EditorState)
    ensures st'.blocks == st.blocks && st'.draggedBlockPath == Some(path)
  {
    st.(draggedBlockPath := Some(path))
  }

  /** `draggedBlockPath` is a non-empty string. */
  predicate Dragging(st: EditorState) {
    st.draggedBlockPath.Some? && st.draggedBlockPath.value != []
  }

  predicate IsSidebarDrop(data: DropData) {
    data.fromSidebar == "true"
  }

  /** What a drop does not crash on, given that it gets past the type check: a sidebar drop onto
      an existing block, or a move whose source path parses and whose move is defined. */
  predicate DropDefined(st: EditorState, data: DropData, parentPath: Option<string>, typeChecked: bool) {
    && ParentParses(parentPath)
    && (IsSidebarDrop(data) && ParseBlockType(data.blockType).Some? && parentPath.Some? ==>
          AddDefined(st.blocks, ParentOf(parentPath).value))
    && ((!typeChecked || (data.blockType != [] && ParseBlockType(data.blockType).Some?)) && !IsSidebarDrop(data) && Dragging(st) ==>
          DotPath(st.draggedBlockPath.value).Some? && MoveDefined(st.blocks, DotPath(st.draggedBlockPath.value).value, ParentOf(parentPath)))
  }

  /** The sidebar branch of the handler: a new block of the given type becomes the last root block
      when there is no parent path, and the parent's last child when the parent is a container; a
      parent that cannot have children refuses it. The drag state is left alone. */
  function AddNewBlock(st: EditorState, k: Kind, parentPath: Option<string>, freshId: string): (r: EditorState)
    requires ParentParses(parentPath)
    requires parentPath.Some? ==> AddDefined(st.blocks, ParentOf(parentPath).value)
    ensures r.draggedBlockPath == st.draggedBlockPath
    ensures parentPath.None? ==> r.blocks == st.blocks + [NewBlock(freshId, k)]
    ensures parentPath.Some? ==>
              var p := ParentOf(parentPath).value;
              var parent := NodeAt(st.blocks, p).value;
              if CanHaveChildren(parent.kind) then
                && Spliced(st.blocks, r.blocks, p, Kids(parent) + [NewBlock(freshId, k)])
                && NodeAt(r.blocks, p + [|Kids(parent)|]) == Some(NewBlock(freshId, k))
              else r.blocks == st.blocks
  {
    var b := NewBlock(freshId, k);
    if parentPath.None? then st.(blocks := st.blocks + [b])
    else
      var p := ParentOf(parentPath).value;
      if CanHaveChildren(NodeAt(st.blocks, p).value.kind) then
        AddIntoContainer(st.blocks, p, b);
        st.(blocks := AddBlockAtPath(st.blocks, p, b))
      else
        AddIntoLeaf(st.blocks, p, b);
        st.(blocks := AddBlockAtPath(st.blocks, p, b))
  }

  /** handleDropNewBlock as written: every drop, a move included, must first carry a known block
      type. */
  function HandleDropNewBlock(st: EditorState, data: DropData, parentPath: Option<string>, freshId: string): (r: EditorState)
    requires DropDefined(st, data, parentPath, true)
    ensures ParseBlockType(data.blockType).None? ==> r == st
    ensures ParseBlockType(data.blockType).Some? && IsSidebarDrop(data) ==>
              r == AddNewBlock(st, ParseBlockType(data.blockType).value, parentPath, freshId)
    ensures ParseBlockType(data.blockType).Some? && !IsSidebarDrop(data) && Dragging(st) ==>
              r == EditorState(MoveBlock(st.blocks, DotPath(st.draggedBlockPath.value).value, ParentOf(parentPath)), None)
    ensures !IsSidebarDrop(data) && !Dragging(st) ==> r == st
  {
    var k := ParseBlockType(data.blockType);
    if data.blockType == [] || k.None? then st
    else if IsSidebarDrop(data) then AddNewBlock(st, k.value, parentPath, freshId)
    else if Dragging(st) then
      EditorState(MoveBlock(st.blocks, DotPath(st.draggedBlockPath.value).value, ParentOf(parentPath)), None)
    else st
  }

  /** As written, a drop that follows an editor block's drag is always ignored: the block-type key is
      empty, so the handler returns before it reaches the move. */
  lemma BlockDragIsIgnored(st: EditorState, path: string, parentPath: Option<string>, freshId: string)
    requires DropDefined(DragStart(st, path), BlockDragData, parentPath, true)
    ensures HandleDropNewBlock(DragStart(st, path), BlockDragData, parentPath, freshId) == DragStart(st, path)
  {
  }

  /** handleDropNewBlock as evidently intended: the type check guards only the sidebar branch, and
      a drop after an editor block's drag moves that block. */
  function HandleDrop(st: EditorState, data: DropData, parentPath: Option<string>, freshId: string): (r: EditorState)
    requires DropDefined(st, data, parentPath, false)
    ensures IsSidebarDrop(data) && ParseBlockType(data.blockType).None? ==> r == st
    ensures IsSidebarDrop(data) && ParseBlockType(data.blockType).Some? ==>
              r == AddNewBlock(st, ParseBlockType(data.blockType).value, parentPath, freshId)
    ensures !IsSidebarDrop(data) && Dragging(st) ==>
              r == EditorState(MoveBlock(st.blocks, DotPath(st.draggedBlockPath.value).value, ParentOf(parentPath)), None)
    ensures !IsSidebarDrop(data) && !Dragging(st) ==> r == st
  {
    if IsSidebarDrop(data) then
      var k := ParseBlockType(data.blockType);
      if data.blockType == [] || k.None? then st else AddNewBlock(st, k.value, parentPath, freshId)
    else if Dragging(st) then
      EditorState(MoveBlock(st.blocks, DotPath(st.draggedBlockPath.value).value, ParentOf(parentPath)), None)
    else st
  }

  /** The corrected handler moves the dragged block and clears the drag state. */
  lemma BlockDragMoves(st: EditorState, path: string, parentPath: Option<string>, freshId: string)
    requires path != []
    requires DropDefined(DragStart(st, path), BlockDragData, parentPath, false)
    ensures HandleDrop(DragStart(st, path), BlockDragData, parentPath, freshId)
            == EditorState(MoveBlock(st.blocks, DotPath(path).value, ParentOf(parentPath)), None)
  {
  }

  /** On every sidebar drop, and on every drop with a known block type, the two handlers agree. */
  lemma HandlersAgree(st: EditorState, data: DropData, parentPath: Option<string>, freshId: string)
    requires DropDefined(st, data, parentPath, true) && DropDefined(st, data, parentPath, false)
    requires IsSidebarDrop(data) || ParseBlockType(data.blockType).Some?
    ensures HandleDropNewBlock(st, data, parentPath, freshId) == HandleDrop(st, data, parentPath, freshId)
  {
  }

  /** A path string of one component names that one index. */
  lemma DotPathSingle(s: string, n: nat)
    requires Paths.ParseNat(s) == Some(n) && '.' !in s
    ensures DotPath(s) == Some([n])
  {
    Paths.SplitPlain(s, '.');
    var e: Path := [];
    assert [s][1..] == [];
    assert Paths.ParseAll([]) == Some(e);
    assert [n] + e == [n];
  }

  /** Two root sections; root block 1 is being dragged. */
  function TwoSections(a: string, b: string): EditorState {
    DragStart(EditorState([Block(a, Section, Defined([])), Block(b, Section, Defined([]))], None), "1")
  }

  /** Both handlers are defined on the drop of the dragged section onto section 0. */
  lemma TwoSectionsDefined(a: string, b: string)
    ensures DotPath("0") == Some([0]) && DotPath("1") == Some([1])
    ensures RemoveBlockAtPath(TwoSections(a, b).blocks, [1]).newLayout == [Block(a, Section, Defined([]))]
    ensures DropDefined(TwoSections(a, b), BlockDragData, Some("0"), true)
    ensures DropDefined(TwoSections(a, b), BlockDragData, Some("0"), false)
  {
    assert Paths.ParseNat("0") == Some(0) && Paths.ParseNat("1") == Some(1);
    DotPathSingle("0", 0);
    DotPathSingle("1", 1);
    assert Parent([1]) == [];
    assert RemoveAt(TwoSections(a, b).blocks, 1) == [Block(a, Section, Defined([]))];
  }

  /** Dropping the dragged section 1 onto section 0: as written, nothing changes. */
  lemma BlockDragIgnoredExample(a: string, b: string)
    ensures DropDefined(TwoSections(a, b), BlockDragData, Some("0"), true)
    ensures HandleDropNewBlock(TwoSections(a, b), BlockDragData, Some("0"), "n") == TwoSections(a, b)
  {
    TwoSectionsDefined(a, b);
  }

  /** The same drop with the corrected handler moves section 1 into section 0. */
  lemma BlockDragMovesExample(a: string, b: string)
    ensures DropDefined(TwoSections(a, b), BlockDragData, Some("0"), false)
    ensures HandleDrop(TwoSections(a, b), BlockDragData, Some("0"), "n")
            == EditorState([Block(a, Section, Defined([Block(b, Section, Defined([]))]))], None)
  {
    TwoSectionsDefined(a, b);
    var blocks := TwoSections(a, b).blocks;
    var mid := RemoveBlockAtPath(blocks, [1]).newLayout;
    assert Kids(mid[0]) + [blocks[1]] == [Block(b, Section, Defined([]))];
    assert MoveBlock(blocks, [1], Some([0])) == [Block(a, Section, Defined([Block(b, Section, Defined([]))]))];
    BlockDragMoves(EditorState(blocks, None), "1", Some("0"), "n");
  }

  /** Every drop of the corrected handler keeps leaf blocks childless. */
  lemma HandleDropKeepsLeavesEmpty(st: EditorState, data: DropData, parentPath: Option<string>, freshId: string)
    requires DropDefined(st, data, parentPath, false)
    requires LeavesEmpty(st.blocks)
    ensures LeavesEmpty(HandleDrop(st, data, parentPath, freshId).blocks)
  {
    if IsSidebarDrop(data) {
      var k := ParseBlockType(data.blockType);
      if data.blockType != [] && k.Some? {
        var b := NewBlock(freshId, k.value);
        OneLeavesEmpty(b);
        if parentPath.None? {
          LeavesEmptyInsertAt(st.blocks, |st.blocks|, b);
          assert InsertAt(st.blocks, |st.blocks|, b) == st.blocks + [b];
        } else {
          AddKeepsLeavesEmpty(st.blocks, ParentOf(parentPath).value, b);
        }
      }
    } else if Dragging(st) {
      MoveKeepsLeavesEmpty(st.blocks, DotPath(st.draggedBlockPath.value).value, ParentOf(parentPath));
    }
  }

  /** Every drop of the corrected handler keeps ids unique when the new block's id is not in use. */
  lemma HandleDropKeepsUniqueIds(st: EditorState, data: DropData, parentPath: Option<string>, freshId: string)
    requires DropDefined(st, data, parentPath, false)
    requires UniqueIds(st.blocks) && Occurrences(st.blocks, freshId) == 0
    ensures UniqueIds(HandleDrop(st, data, parentPath, freshId).blocks)
  {
    var r := HandleDrop(st, data, parentPath, freshId).blocks;
    forall x
      ensures Occurrences(r, x) <= 1
    {
      if IsSidebarDrop(data) {
        var k := ParseBlockType(data.blockType);
        if data.blockType != [] && k.Some? {
          var b := NewBlock(freshId, k.value);
          assert [b][1..] == [];
          if parentPath.None? {
            OccurrencesConcat(st.blocks, [b], x);
          } else {
            AddOccurrences(st.blocks, ParentOf(parentPath).value, b, x);
          }
        }
      }
    }
  }
}
