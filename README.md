# Layout-tree editing of the drag-and-drop page builders

This project models the tree logic of three versions of a no-code page builder from the
`shopify-polaris-dnd-practice` app, and proves properties of that model in Dafny. In each version
the page is a forest of blocks. Every block has an id, a type and children, and a block is
addressed by a path of child indices, written in the interface as a string like `"0-1-2"` or
`"0.1.2"`. Dragging an item from the sidebar adds a new block. Dragging a block moves it: the
builder removes it, then inserts it again.

- `archive.20250507.html-builder.tsx`, module `Archive`. Row, column and text nodes, all with a
  children array. `getNodeByPath` is a loop, so it is modelled as a `method` with a loop
  invariant. `removeAtPath`, `insertAtPath` and the `handleDrop` update are methods too. The model
  proves that each method equals a specification function (`NodeAt`, `Remove`, `Insert`, `Move`).
  The properties are then proved about those functions. The `-end` drop zone that rows and columns
  put after their last child is modelled too (see Findings). This version does not check the node type
  before inserting: a text node accepts children like any other node.
- `html-builder2.tsx`, module `Builder2`. The react-dnd builder. `insertBlockAt` inserts at an
  index; it is gated by the `canHaveChildren` flag and clamps the index the way JavaScript does.
  `moveBlockTo` removes, then reinserts. The drop handlers of the editor and of every drop zone,
  and the trash zone, are modelled as well.
- `html-builder.tsx`, module `Builder`. The HTML5 drag-and-drop builder. `addBlockAtPath`
  appends a block as the last child. `moveBlock` appends it at the root, or adds it under a target.
  `handleDropNewBlock` is modelled twice: once as written, and once corrected (see Findings).
- The two later versions share the block type table and the `BlockData` shape. Their
  `removeBlockAtPath` is the same code in both files. All of this is module `Blocks`, which also
  holds:
  - the navigation functions;
  - the `Spliced` frame predicate: the sequence at one path is replaced, the ancestors keep their
    id and type, and every block off the path is unchanged;
  - per-id block counts (`Occurrences`);
  - the invariant that blocks of a non-container type have no children (`LeavesEmpty`).
- `Paths` holds:
  - the path strings: `split` with JavaScript's semantics, `join`, and decimal parsing and
    printing;
  - the round trip `ParsePath(FormatPath(p)) == Some(p)`;
  - the archive's `-end` marker handling.

  `Splice` holds JavaScript's `splice` and `slice` on sequences, including the clamping of an
  index past the end. `Wrappers` holds `Option`.

The helpers build their results from copies, so the model works on values. `structuredClone` is
the identity on values. A splice into a clone is a sequence update along the path. JavaScript
TypeErrors are preconditions: reading `.type` or `.children` of a missing block throws, and the
helpers do not guard these cases, so the model keeps them as preconditions. In the archive a
dragged node that is not found is a precondition too (see `Archive.HandleDrop` under Left out).

The later helpers recurse on the path string: `parts.slice(1).join(".")` is split again at the
next level. The model reads the string once and recurses on the parsed path. `Paths.ParseFormat`
and `Paths.SplitJoin` prove that re-joining and re-splitting hands the tail of the path down
unchanged.

## Model

| member | source | states |
|---|---|---|
| Archive.GetNodeByPath | shopify-polaris-dnd-practice/app/routes/archive.20250507.html-builder.tsx:68-80 | The loop returns exactly `NodeAt`. That is null for the empty path, null as soon as an index has no node, and otherwise the node reached one index at a time. |
| Archive.NodeAt | shopify-polaris-dnd-practice/app/routes/archive.20250507.html-builder.tsx:68-80 | The node at a non-empty path is element `Last(path)` of the sequence its parent path opens, or null when that index is past the end or the parent path leads nowhere; the empty path names no node. |
| Archive.Container | shopify-polaris-dnd-practice/app/routes/archive.20250507.html-builder.tsx:88-91 | The sequence edited is the parent's children exactly when the path has one index or its parent path resolves; otherwise it is the root. |
| Archive.RemoveAtPath | shopify-polaris-dnd-practice/app/routes/archive.20250507.html-builder.tsx:82-95 | Empty path: null and the same forest. Final index out of range: null and an equal forest. Otherwise it returns the node at the final index of the containing sequence, that slot is spliced out with the other siblings in order, the ancestors keep id and type, and every node off the path is unchanged. |
| Archive.Remove | shopify-polaris-dnd-practice/app/routes/archive.20250507.html-builder.tsx:82-95 | A removal that finds nothing leaves the forest as it was. A node found is the node at the final index of the containing sequence, which is the parent's children or, when the parent path does not resolve, the root. |
| Archive.Insert | shopify-polaris-dnd-practice/app/routes/archive.20250507.html-builder.tsx:113-132 | Empty path: the item goes first. Otherwise the containing sequence becomes `InsertAt(siblings, idx, item)`, and the item is found at the containing path followed by the clamped index. |
| Archive.InsertAtPath | shopify-polaris-dnd-practice/app/routes/archive.20250507.html-builder.tsx:113-132 | Empty path: the item comes first in the root. Otherwise the containing sequence becomes `InsertAt(siblings, idx, item)` (it grows by one, and an index past the end appends) and nothing off the path changes. |
| Archive.RemoveInsertRoundTrip | shopify-polaris-dnd-practice/app/routes/archive.20250507.html-builder.tsx:82-132 | When the parent path resolves, putting the removed node back at the same path restores the forest. |
| Archive.FallbackBreaksRoundTrip | shopify-polaris-dnd-practice/app/routes/archive.20250507.html-builder.tsx:88-91 | With the root fallback, removing `[0,0,0]` from `[a, b([c])]` and inserting back gives `[b([c([a])])]`, not the input. |
| Archive.RemoveOccurrences | shopify-polaris-dnd-practice/app/routes/archive.20250507.html-builder.tsx:93 | A removal takes out exactly the removed subtree's nodes, id by id. |
| Archive.InsertOccurrences | shopify-polaris-dnd-practice/app/routes/archive.20250507.html-builder.tsx:129 | An insertion adds exactly the item's subtree, id by id. |
| Archive.Move | shopify-polaris-dnd-practice/app/routes/archive.20250507.html-builder.tsx:350-362 | A move that finds its node neither loses nor duplicates any node: every id keeps its count. |
| Archive.MoveKeepsUniqueIds | shopify-polaris-dnd-practice/app/routes/archive.20250507.html-builder.tsx:350-362 | A move keeps ids unique. |
| Archive.InsertFreshKeepsUniqueIds | shopify-polaris-dnd-practice/app/routes/archive.20250507.html-builder.tsx:342-349 | A sidebar node with an unused id keeps ids unique, whatever the drop path. |
| Archive.MoveAcrossSiblings | shopify-polaris-dnd-practice/app/routes/archive.20250507.html-builder.tsx:350-362 | `[A,B,C]` with source `[0]` and drop `[2]` gives `[B,C,A]`: the drop path is read against the forest after the removal. |
| Archive.HandleDrop | shopify-polaris-dnd-practice/app/routes/archive.20250507.html-builder.tsx:330-368 | A sidebar item inserts a new node with empty children at the parsed drop path. An existing node is moved to it. Anything else leaves the layout unchanged. |
| Archive.EndZoneInsertsBeforeLast | shopify-polaris-dnd-practice/app/routes/archive.20250507.html-builder.tsx:229-236 | The zone after the last child carries that child's path plus `-end`. Once the marker is stripped, the item takes the last child's place and the last child moves one place right, so it lands before the last child. |
| Archive.InsertAtChildSlot | shopify-polaris-dnd-practice/app/routes/archive.20250507.html-builder.tsx:113-132 | Inserting at the path of an existing child puts the item at that path and moves that child one index to the right. |
| Archive.EndDropPath | shopify-polaris-dnd-practice/app/routes/archive.20250507.html-builder.tsx:332-334 | The corrected reading of a drop-zone string never gives the empty path; what it means is proved by `Archive.EndZoneAppends`: a `-end` zone names the slot after the last child, and a plain zone reads as before. |
| Archive.EndZoneAppends | shopify-polaris-dnd-practice/app/routes/archive.20250507.html-builder.tsx:273-280 | With the corrected reading the `-end` zone names the slot after the last child, so the item becomes the last child: the parent's children become the old children followed by the item, and nothing off the path changes. A plain zone string reads as before. |
| Paths.ParsePath | shopify-polaris-dnd-practice/app/routes/archive.20250507.html-builder.tsx:49-50 | A parsed path has at least one index, since `split` always yields one part or more. |
| Paths.ParseAll | shopify-polaris-dnd-practice/app/routes/archive.20250507.html-builder.tsx:50 | A successful parse gives one index per part. |
| Paths.ParseFormat | shopify-polaris-dnd-practice/app/routes/archive.20250507.html-builder.tsx:49-50 | Every path string the interface writes parses back to its path, for either separator. |
| Paths.ParseNatToString | shopify-polaris-dnd-practice/app/routes/archive.20250507.html-builder.tsx:50 | `parseInt(String(n), 10)` is `n`. |
| Paths.SplitJoin | shopify-polaris-dnd-practice/app/routes/html-builder2.tsx:437 | Splitting a join of separator-free parts gives back the parts, so `parts.slice(1).join(".")` re-splits to the tail. |
| Paths.JoinSplit | shopify-polaris-dnd-practice/app/routes/html-builder2.tsx:418 | Joining the parts of `split` gives the string back, so `split` and `join` are inverses on separator-free parts. |
| Paths.FormatChild | shopify-polaris-dnd-practice/app/routes/html-builder2.tsx:357 | A child's path string is the parent's, the separator and the child's index. |
| Paths.Split | shopify-polaris-dnd-practice/app/routes/html-builder2.tsx:418 | `split` returns one part or more, none of which contains the separator; with `Paths.JoinSplit` and `Paths.SplitJoin` it is the inverse of `join`. |
| Paths.IndexOf | shopify-polaris-dnd-practice/app/routes/archive.20250507.html-builder.tsx:332 | The result is the first position where the needle occurs, or None; None means it occurs nowhere. |
| Paths.StripEndPlain | shopify-polaris-dnd-practice/app/routes/archive.20250507.html-builder.tsx:332-334 | A plain path string passes the `-end` handling unchanged. |
| Paths.StripEndMarker | shopify-polaris-dnd-practice/app/routes/archive.20250507.html-builder.tsx:332-334 | A path string followed by `-end` loses exactly the marker. |
| Paths.StripEnd | shopify-polaris-dnd-practice/app/routes/archive.20250507.html-builder.tsx:332-334 | A string that contains no `end`, or no `-end`, passes unchanged. Otherwise exactly the first `-end` (four characters) is cut out at the place where it first occurs. |
| Splice.InsertAt | shopify-polaris-dnd-practice/app/routes/html-builder2.tsx:426 | `splice(k, 0, x)`: one element longer, `x` at the clamped index, the elements before it kept and the elements from there shifted right. |
| Splice.InsertAtMultiset | shopify-polaris-dnd-practice/app/routes/html-builder2.tsx:426 | An insertion keeps every element and adds exactly `x`. |
| Splice.RemoveAtMultiset | shopify-polaris-dnd-practice/app/routes/archive.20250507.html-builder.tsx:93 | A removal in range takes out exactly the element at `k`. |
| Splice.InsertRemove | shopify-polaris-dnd-practice/app/routes/archive.20250507.html-builder.tsx:93 | Splicing an element back in where it was spliced out gives back the sequence. |
| Splice.RemoveAt | shopify-polaris-dnd-practice/app/routes/html-builder2.tsx:466 | `slice(0, k)` + `slice(k + 1)`: without element `k` and in order when `k` is in range, unchanged otherwise. |
| Blocks.NewBlock | shopify-polaris-dnd-practice/app/routes/html-builder2.tsx:121-130 | A new block gets `children = []` exactly when its type can have children, and `undefined` otherwise. |
| Blocks.CanHaveChildren | shopify-polaris-dnd-practice/app/routes/html-builder2.tsx:6-14 | Of the three block types, only the section can have children (the same flags as `BLOCKS` in html-builder.tsx lines 11-45). |
| Blocks.RemoveBlockAtPath | shopify-polaris-dnd-practice/app/routes/html-builder.tsx:286-312 | The block returned is the block at the path, or undefined when there is none. |
| Blocks.RemoveBlockAtPathSplice | shopify-polaris-dnd-practice/app/routes/html-builder2.tsx:456-482 | The recursion is one splice of the final index out of the sequence the parent path opens. |
| Blocks.RemoveBlockFound | shopify-polaris-dnd-practice/app/routes/html-builder2.tsx:461-481 | When found, the block at the path is returned, its slot is removed from its parent's children, and every other block stays. |
| Blocks.RemoveBlockOutOfRange | shopify-polaris-dnd-practice/app/routes/html-builder2.tsx:461-468 | A final index out of range gives undefined and an equal layout. The exception is a parent whose children were undefined: it gets `[]`. |
| Blocks.RemoveBlockOccurrences | shopify-polaris-dnd-practice/app/routes/html-builder.tsx:290-311 | The removal takes out exactly the returned subtree's blocks, id by id. |
| Blocks.SetChildrenAtSpliced | shopify-polaris-dnd-practice/app/routes/html-builder2.tsx:430-442 | Rebuilding along a path changes only the target's children. Ancestors keep their id and type, and blocks off the path are untouched. |
| Blocks.RemoveKeepsLeavesEmpty | shopify-polaris-dnd-practice/app/routes/html-builder2.tsx:456-482 | A removal never gives a non-container block a child. |
| Blocks.AdjustPath | shopify-polaris-dnd-practice/app/routes/html-builder2.tsx:456-482 | Re-reading a path after a removal keeps its length; what the adjusted path names is proved by `Blocks.RemoveKeepsOtherBlocks`: the same block, for every block outside the removed subtree. |
| Blocks.RemoveKeepsOtherBlocks | shopify-polaris-dnd-practice/app/routes/html-builder2.tsx:456-482 | Every block outside the removed subtree is still there after the removal, with its id and type, at its path shifted one place left where it goes through a later sibling of the removed block. |
| Blocks.RemoveKeepsUnshiftedBlocks | shopify-polaris-dnd-practice/app/routes/html-builder2.tsx:456-482 | Above the removed block's parent and beside it, every path reads a block with the same id and type as before. |
| Blocks.RemoveShiftsLaterBlocks | shopify-polaris-dnd-practice/app/routes/html-builder2.tsx:456-482 | Below the removed block's parent, a path through a later sibling reads the same block one index to the left, and a path through an earlier sibling reads it unchanged. |
| Builder2.InsertBlockAt | shopify-polaris-dnd-practice/app/routes/html-builder2.tsx:409-442 | The root grows by one for a root insertion and keeps its length otherwise. |
| Builder2.InsertBlockAtSplice | shopify-polaris-dnd-practice/app/routes/html-builder2.tsx:419-442 | Under a parent, the recursion is one splice into the parent's children, or no change at a leaf. |
| Builder2.InsertAtRoot | shopify-polaris-dnd-practice/app/routes/html-builder2.tsx:415-417 | At the root the block lands at `index` (the end when the index is past it). The blocks before it stay, the rest move right, and the length grows by one. |
| Builder2.InsertIntoLeaf | shopify-polaris-dnd-practice/app/routes/html-builder2.tsx:420-424 | A parent whose type has `canHaveChildren` false leaves the layout unchanged. |
| Builder2.InsertIntoContainer | shopify-polaris-dnd-practice/app/routes/html-builder2.tsx:425-442 | Under a container the block lands at position `index` of the parent's children, and every block off the path is unchanged. |
| Builder2.InsertBlockOccurrences | shopify-polaris-dnd-practice/app/routes/html-builder2.tsx:409-442 | The new block's subtree is added when the parent accepts it, and nothing otherwise. |
| Builder2.InsertKeepsLeavesEmpty | shopify-polaris-dnd-practice/app/routes/html-builder2.tsx:420-424 | An insertion never gives a non-container block a child. |
| Builder2.MoveBlockTo | shopify-polaris-dnd-practice/app/routes/html-builder2.tsx:445-454 | Nothing found: the original layout comes back. Otherwise the result is the found block inserted at the target of the post-removal layout. A move never duplicates a block. |
| Builder2.MoveFound | shopify-polaris-dnd-practice/app/routes/html-builder2.tsx:451-453 | The block found is inserted unchanged at the target of the post-removal layout. When the target accepts it, every id keeps its count. |
| Builder2.MoveToRoot | shopify-polaris-dnd-practice/app/routes/html-builder2.tsx:445-454 | Moving to the root puts the block at the clamped `toIndex` of the post-removal root. |
| Builder2.MoveIntoLeaf | shopify-polaris-dnd-practice/app/routes/html-builder2.tsx:445-454 | If the target parent is a leaf, the post-removal layout comes back and the moved subtree is gone. |
| Builder2.MoveKeepsLeavesEmpty | shopify-polaris-dnd-practice/app/routes/html-builder2.tsx:445-454 | A move never gives a non-container block a child. |
| Builder2.Drop | shopify-polaris-dnd-practice/app/routes/html-builder2.tsx:118-135 | A sidebar item is `insertBlockAt` of the new block. At the root, the new block sits at the clamped index, the blocks before it are kept and the rest follow it in order. Under a container, the new block is at the clamped index of its children, the children become `InsertAt(children, index, block)` and nothing off the path changes (`Spliced`); a leaf parent refuses it. A dragged block goes through `MoveBlockTo`, and any other item is ignored (the same code is at lines 254-274). |
| Builder2.MoveForwardIntoSiblingLoses | shopify-polaris-dnd-practice/app/routes/html-builder2.tsx:451-453 | `[S0, S1, T2]`: moving section 0 into section 1 loses it. The target path `"1"` names the text block once section 0 is removed. |
| Builder2.MoveIntoLastSiblingCrashes | shopify-polaris-dnd-practice/app/routes/html-builder2.tsx:445-454 | `[S0, S1]`: the zone inside section 1 names parent `"1"`, and after section 0 is removed there is no block there, so `insertBlockAt` reads a type of undefined at line 423. |
| Builder2.MoveBlockToIntended | shopify-polaris-dnd-practice/app/routes/html-builder2.tsx:445-454 | The corrected move reads the target parent's path in the layout the user sees and shifts it for the removal. It is defined whenever source and target exist, ignores a drop into the moved block's own subtree and a missing source, and never duplicates a block. |
| Builder2.IntendedMoveLandsInTarget | shopify-polaris-dnd-practice/app/routes/html-builder2.tsx:445-454 | With the corrected move, a block dropped into a container outside its own subtree lands at the clamped index of that container's children, and the container keeps its id and type. |
| Builder2.MoveIntoLastSiblingIntended | shopify-polaris-dnd-practice/app/routes/html-builder2.tsx:445-454 | On `[S0, S1]`, the corrected move puts section 0 inside section 1. |
| Builder2.DropKeepsLeavesEmpty | shopify-polaris-dnd-practice/app/routes/html-builder2.tsx:254-274 | Every drop (new block, move, or ignored) keeps non-container blocks childless. |
| Builder2.DropKeepsUniqueIds | shopify-polaris-dnd-practice/app/routes/html-builder2.tsx:118-138 | Every drop keeps ids unique, given an unused id for a new block. |
| Builder2.HandleRemove | shopify-polaris-dnd-practice/app/routes/html-builder2.tsx:110-115 | Exactly the subtree of the block at the path leaves the layout, id by id, or nothing when there is none; non-container blocks stay childless. |
| Builder2.TrashDrop | shopify-polaris-dnd-practice/app/routes/html-builder2.tsx:71-81 | An item without a path is ignored. The trash never adds a block and keeps non-container blocks childless. |
| Builder2.HandleRemoveFound | shopify-polaris-dnd-practice/app/routes/html-builder2.tsx:110-115 | Removing by a formatted path string takes out that block's subtree. Every block outside the parent's subtree stays where it was. |
| Builder2.ParentOf | shopify-polaris-dnd-practice/app/routes/html-builder2.tsx:418 | A drop zone's parent path is null exactly when no string is given, and otherwise has at least one index. |
| Builder.AddBlockAtPath | shopify-polaris-dnd-practice/app/routes/html-builder.tsx:240-269 | Adding under a path never changes the number of root blocks. |
| Builder.AddBlockAtPathSplice | shopify-polaris-dnd-practice/app/routes/html-builder.tsx:240-269 | The recursion is one append to the target's children, or no change when the target is a leaf. |
| Builder.AddIntoLeaf | shopify-polaris-dnd-practice/app/routes/html-builder.tsx:246-249 | A non-container target gives back the input blocks. |
| Builder.AddIntoContainer | shopify-polaris-dnd-practice/app/routes/html-builder.tsx:250-254 | A container gets the new block as its last child, after its existing children in order. Nothing off the path changes. |
| Builder.AddRebuildsOneRootBlock | shopify-polaris-dnd-practice/app/routes/html-builder.tsx:256-268 | On a longer path only the block at the first index is rebuilt, keeping id and type. Its siblings before and after are unchanged. |
| Builder.AddIsInsertAtEnd | shopify-polaris-dnd-practice/app/routes/html-builder.tsx:250-254 | Appending equals html-builder2's `insertBlockAt` at index `children.length`. |
| Builder.AddKeepsLeavesEmpty | shopify-polaris-dnd-practice/app/routes/html-builder.tsx:249 | Adding never gives a non-container block a child. |
| Builder.AddOccurrences | shopify-polaris-dnd-practice/app/routes/html-builder.tsx:240-269 | The new block's subtree is added under a container, and nothing otherwise. |
| Builder.MoveBlock | shopify-polaris-dnd-practice/app/routes/html-builder.tsx:271-284 | Nothing found: the original blocks come back. A move never duplicates a block. |
| Builder.MoveToRoot | shopify-polaris-dnd-practice/app/routes/html-builder.tsx:279-282 | A null `toPath` appends the moved block, unchanged, after the post-removal root. Every id keeps its count. |
| Builder.MoveIntoContainer | shopify-polaris-dnd-practice/app/routes/html-builder.tsx:283 | The result is `addBlockAtPath` of the found block on the post-removal forest. The container's children become its old children followed by the moved block, it keeps its id and type, nothing off its path changes, and every id keeps its count. |
| Builder.MoveIntoLeaf | shopify-polaris-dnd-practice/app/routes/html-builder.tsx:283 | A non-container target drops the block: the post-removal forest comes back without the moved subtree. |
| Builder.MoveKeepsLeavesEmpty | shopify-polaris-dnd-practice/app/routes/html-builder.tsx:271-284 | A move never gives a non-container block a child. |
| Builder.ParseBlockType | shopify-polaris-dnd-practice/app/routes/html-builder.tsx:133 | A string is accepted exactly when it is the name of one of the three block types, and it yields that type. |
| Builder.ParseTypeName | shopify-polaris-dnd-practice/app/routes/html-builder.tsx:57 | Every block type's name is accepted as that type. |
| Builder.DragStart | shopify-polaris-dnd-practice/app/routes/html-builder.tsx:206 | Starting a block drag records its path and leaves the blocks alone. |
| Builder.AddNewBlock | shopify-polaris-dnd-practice/app/routes/html-builder.tsx:134-146 | The new block is the last root block when there is no parent path. Under a container, the container's children become its old children followed by the new block, and nothing off its path changes. A leaf parent refuses it. The drag state is left alone. |
| Builder.HandleDropNewBlock | shopify-polaris-dnd-practice/app/routes/html-builder.tsx:127-152 | As written: an unknown or empty block type changes nothing. A known type from the sidebar adds a new block. A known type otherwise moves the dragged block and clears the drag state, or changes nothing when no block is dragged. |
| Builder.BlockDragIsIgnored | shopify-polaris-dnd-practice/app/routes/html-builder.tsx:131-133 | As written, every drop that follows an editor block's drag leaves the state unchanged. |
| Builder.BlockDragIgnoredExample | shopify-polaris-dnd-practice/app/routes/html-builder.tsx:131-151 | As written, dropping dragged section 1 onto section 0 changes nothing. |
| Builder.BlockDragMoves | shopify-polaris-dnd-practice/app/routes/html-builder.tsx:147-151 | The corrected handler moves the dragged block to the drop target and clears the drag state. |
| Builder.HandleDrop | shopify-polaris-dnd-practice/app/routes/html-builder.tsx:127-152 | Corrected: the type check guards only sidebar drops. Any other drop moves the dragged block and clears the drag state, or changes nothing when no block is dragged. |
| Builder.BlockDragMovesExample | shopify-polaris-dnd-practice/app/routes/html-builder.tsx:147-151 | The corrected handler moves section 1 into section 0. |
| Builder.HandlersAgree | shopify-polaris-dnd-practice/app/routes/html-builder.tsx:131-146 | On sidebar drops, and on any drop with a known block type, the corrected handler is the handler as written. |
| Builder.HandleDropKeepsLeavesEmpty | shopify-polaris-dnd-practice/app/routes/html-builder.tsx:134-151 | Every drop keeps non-container blocks childless. |
| Builder.HandleDropKeepsUniqueIds | shopify-polaris-dnd-practice/app/routes/html-builder.tsx:134-151 | Every drop keeps ids unique, given an unused id for a new block. |

## Left out

- **Rendering is not modelled.** This covers React and Polaris rendering, the react-dnd hooks, drop-zone hover state and `getDropPosition` (html-builder2.tsx:484-497, DOM geometry on floats). It is user interface, not tree logic.
- **`console.log` is not modelled.** It is output only.
- **Stale closures are not modelled.** The drop index and parent path come from the interface as parameters. Some react-dnd specs have no dependency list (the editor's `layout.length`, the drop zone's `calculatedIndex`), so their values can be stale; that is React behaviour.
- Archive.HandleDrop: requires the dragged node to be found, so it does not model a failed removal. `removeRes.removed!` (archive.20250507.html-builder.tsx:354) is a type assertion that is erased at compile time. When the removal finds no node, `insertAtPath` inserts `null` (line 362), and the crash comes only later, when the renderer reads `node.id` (line 395). This can happen: `ColumnNode` and `TextNode` call `useDrag` with no dependency list (lines 253-256 and 297-300), so the path in their drag item can be stale.
- **Event bubbling in html-builder.tsx is not modelled.** `onDragStart` bubbles through enclosing blocks, so `DragStart` takes the recorded path as given.
- **`generateId` is a parameter.** It relies on `Math.random`, so the new id is the `freshId` parameter (`DragItem.id` in the archive).
- **`structuredClone` is value semantics.** The archive methods do not mutate anything; they return the new forest.
- **Lenient number parsing is left out.** Only path strings the interface produces are modelled: digit runs joined by the separator. `parseInt` and `Number` also accept `""`, signs, blanks and exponents, and can yield `NaN`; the drops require path strings that parse.
- **Only the `-end` zone strings of the archive `RowNode`/`ColumnNode` components are modelled.** The rest of those components is rendering.
- **`props` is not modelled.** It is never read by the tree logic (html-builder.tsx:139).
- **`content` is not modelled** (archive.20250507.html-builder.tsx:23), for the same reason.
- **Inherited keys in `type in BLOCKS` are left out.** Keys such as `"toString"` pass the check only through the prototype chain, and the sidebar never sends them.
- **`traverse` is not modelled** (archive.20250507.html-builder.tsx:52-66). It is unused.
- **Crashes are preconditions, not outcomes.** `InsertDefined`, `MoveDefined`, `AddDefined`, `ParentResolves` and the drop predicates state what avoids a TypeError. They cover a missing parent or intermediate block and a target that no longer exists after a removal.
- Builder2.MoveToRoot: states the moved block's position, not the rest of the root. `Builder2.MoveFound` and `Builder2.MoveBlockTo` give the full result as an insertion into the post-removal layout.
- Builder2.MoveBlockToIntended: adjusts only the target parent's path for the removal, not the index within a container the block leaves. Dropping into the zone after a later sibling in the same parent still lands one place further right.

## Findings

| source | as written | input that shows it | evidently intended | confidence | as-written member | corrected member |
|---|---|---|---|---|---|---|
| shopify-polaris-dnd-practice/app/routes/html-builder.tsx:131-151 | `handleDropNewBlock` returns unless `block-type` names a block type. An editor block's drag (line 206) sets no drag data, so the move branch at lines 147-151 never runs. | Two root sections `a`, `b`. Drag block `"1"`, drop it on block `"0"`. | The type check guards only sidebar drops, and the drop moves `b` into `a`. | not executed | Builder.BlockDragIsIgnored | Builder.BlockDragMoves |
| shopify-polaris-dnd-practice/app/routes/archive.20250507.html-builder.tsx:229-236 | The zone after a row's or column's last child has the path of that child followed by `-end`. `handleDrop` strips the marker and inserts at the child's own index. | A row with children `[c0, c1]`. Drop an item on the zone after `c1`; its path is `"0-1-end"`. | The item becomes the last child: `[c0, c1, item]`. As written it lands before the last child: `[c0, item, c1]`. | not executed | Archive.EndZoneInsertsBeforeLast | Archive.EndZoneAppends |
| shopify-polaris-dnd-practice/app/routes/html-builder2.tsx:445-454 | `moveBlockTo` removes the block first, then reads the target parent path, which the drop zone computed, in the layout left by the removal. | Root `[S0, S1]`, both sections. Drag `S0` into the drop zone inside `S1`: `parentPath` is `"1"`, and after the removal there is no block at `"1"`, so line 423 reads `.type` of undefined and throws. | The parent path names the block the user dropped onto, so it is adjusted for the removal and `S0` moves into `S1`. | not executed | Builder2.MoveIntoLastSiblingCrashes | Builder2.MoveBlockToIntended |
