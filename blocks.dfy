/**
 * The block tree shared by the two later builders (html-builder.tsx and html-builder2.tsx): the
 * same three block types with the same `canHaveChildren` flags, the same `BlockData` shape, and
 * the same `removeBlockAtPath`, written identically in both files. A block's `children` array is
 * optional: containers are created with `[]`, leaves with `undefined`.
 */
module Blocks {
  import opened Wrappers
  import opened Splice
  import Paths

  /** `BlockType`. */
  datatype Kind = Section | Text | TextArea

  /** The `canHaveChildren` flag of the block registry (`BLOCK_TYPES` / `BLOCKS`), entry by entry:
      of the three types only the section is a container. */
  predicate CanHaveChildren(k: Kind)
    ensures CanHaveChildren(k) <==> k == Section
  {
    match k
    case Section => true
    case Text => false
    case TextArea => false
  }

  /** A block's optional `children` array. */
  datatype Children = Undefined | Defined(blocks: seq<Block>)

  /** `BlockData` (html-builder.tsx also carries a `props` object, which the tree logic never reads). */
  datatype Block = Block(id: string, kind: Kind, children: Children)

  type Path = seq<nat>

  /** `block.children || []`. */
  function Kids(b: Block): seq<Block> {
    if b.children.Defined? then b.children.blocks else []
  }

  /** A freshly dropped sidebar block: `children` is `[]` for a container type and `undefined`
      otherwise. */
  function NewBlock(id: string, kind: Kind): (b: Block)
    ensures b.id == id && b.kind == kind
    ensures b.children == Defined([]) <==> CanHaveChildren(kind)
    ensures b.children == Undefined <==> !CanHaveChildren(kind)
  {
    Block(id, kind, if CanHaveChildren(kind) then Defined([]) else Undefined)
  }

  /** The block a path addresses, descending through `children || []`. */
  function NodeAt(layout: seq<Block>, path: Path): Option<Block>
    decreases |path|
  {
    if path == [] || path[0] >= |layout| then None
    else if |path| == 1 then Some(layout[path[0]])
    else NodeAt(Kids(layout[path[0]]), path[1..])
  }

  /** The sequence a path opens: the layout for the empty path, else `children || []` of the block at it. */
  function ChildrenAt(layout: seq<Block>, path: Path): Option<seq<Block>>
    decreases |path|
  {
    if path == [] then Some(layout)
    else if path[0] >= |layout| then None
    else ChildrenAt(Kids(layout[path[0]]), path[1..])
  }

  /** The layout rebuilt along `path` with `{ ...block, children: s }` at its end. */
  function SetChildrenAt(layout: seq<Block>, path: Path, s: seq<Block>): seq<Block>
    requires ChildrenAt(layout, path).Some?
    decreases |path|
  {
    if path == [] then s
    else
      var k := path[0];
      layout[k := layout[k].(children := Defined(SetChildrenAt(Kids(layout[k]), path[1..], s)))]
  }

  lemma {:induction false} ChildrenAtNode(layout: seq<Block>, path: Path)
    requires path != []
    ensures ChildrenAt(layout, path) ==
            if NodeAt(layout, path).Some? then Some(Kids(NodeAt(layout, path).value)) else None
    decreases |path|
  {
    if path[0] < |layout| && |path| > 1 {
      ChildrenAtNode(Kids(layout[path[0]]), path[1..]);
    }
  }

  function Parent(path: Path): Path
    requires path != []
  {
    path[..|path| - 1]
  }

  function Last(path: Path): nat
    requires path != []
  {
    path[|path| - 1]
  }

  /** The parent of a non-empty path is a block, or the root: the helpers index `layout[idx].children`
      at every level above the last, which throws a TypeError on a missing block. */
  predicate ParentResolves(layout: seq<Block>, path: Path) {
    path != [] && ChildrenAt(layout, Parent(path)).Some?
  }

  /** A block's dotted path string (`String(idx)`, then `path + "." + idx` below it), read once. */
  function DotPath(s: string): Option<Path> {
    Paths.ParsePath(s, '.')
  }

  predicate ParentParses(parentPath: Option<string>) {
    parentPath.Some? ==> DotPath(parentPath.value).Some?
  }

  function ParentOf(parentPath: Option<string>): (r: Option<Path>)
    requires ParentParses(parentPath)
    ensures r.Some? <==> parentPath.Some?
    ensures r.Some? ==> r.value != []
  {
    if parentPath.None? then None else DotPath(parentPath.value)
  }

  // ------------------------------------------------------------------
  // What a rebuild along a path changes and what it keeps
  // ------------------------------------------------------------------

  predicate SameLabel(a: Option<Block>, b: Option<Block>) {
    a.Some? && b.Some? && a.value.id == b.value.id && a.value.kind == b.value.kind
  }

  /** `after` is `before` with the sequence at `q` replaced by `s`: the root itself when `q` is empty,
      else the block at `q` with only its children changed (to the array `s`); every block further up
      keeps its id and type, and every block neither above nor below `q` is untouched. */
  ghost predicate Spliced(before: seq<Block>, after: seq<Block>, q: Path, s: seq<Block>) {
    && (q == [] ==> after == s)
    && (q != [] ==> NodeAt(before, q).Some? && NodeAt(after, q) == Some(NodeAt(before, q).value.(children := Defined(s))))
    && (forall j :: 0 < j < |q| ==> SameLabel(NodeAt(before, q[..j]), NodeAt(after, q[..j])))
    && (forall r: Path :: !(r <= q) && !(q <= r) ==> NodeAt(after, r) == NodeAt(before, r))
  }

  lemma {:induction false} SetChildrenAtTarget(layout: seq<Block>, q: Path, s: seq<Block>)
    requires ChildrenAt(layout, q).Some?
    requires q != []
    ensures NodeAt(layout, q).Some?
    ensures NodeAt(SetChildrenAt(layout, q, s), q) == Some(NodeAt(layout, q).value.(children := Defined(s)))
    decreases |q|
  {
    if |q| > 1 {
      SetChildrenAtTarget(Kids(layout[q[0]]), q[1..], s);
    }
  }

  lemma {:induction false} SetChildrenAtAncestor(layout: seq<Block>, q: Path, s: seq<Block>, j: nat)
    requires ChildrenAt(layout, q).Some?
    requires 0 < j <= |q|
    ensures SameLabel(NodeAt(layout, q[..j]), NodeAt(SetChildrenAt(layout, q, s), q[..j]))
    decreases |q|
  {
    var k := q[0];
    if j > 1 {
      assert q[..j][1..] == q[1..][..j - 1];
      SetChildrenAtAncestor(Kids(layout[k]), q[1..], s, j - 1);
    }
  }

  lemma {:induction false} SetChildrenAtOffPath(layout: seq<Block>, q: Path, s: seq<Block>, r: Path)
    requires ChildrenAt(layout, q).Some?
    requires !(r <= q) && !(q <= r)
    ensures NodeAt(SetChildrenAt(layout, q, s), r) == NodeAt(layout, r)
    decreases |q|
  {
    var k := q[0];
    if r[0] == k && |r| > 1 {
      assert !(r[1..] <= q[1..]) && !(q[1..] <= r[1..]);
      SetChildrenAtOffPath(Kids(layout[k]), q[1..], s, r[1..]);
    }
  }

  lemma SetChildrenAtSpliced(layout: seq<Block>, q: Path, s: seq<Block>)
    requires ChildrenAt(layout, q).Some?
    ensures Spliced(layout, SetChildrenAt(layout, q, s), q, s)
  {
    if q != [] {
      SetChildrenAtTarget(layout, q, s);
    }
    forall j | 0 < j < |q|
      ensures SameLabel(NodeAt(layout, q[..j]), NodeAt(SetChildrenAt(layout, q, s), q[..j]))
    {
      SetChildrenAtAncestor(layout, q, s, j);
    }
    forall r: Path | !(r <= q) && !(q <= r)
      ensures NodeAt(SetChildrenAt(layout, q, s), r) == NodeAt(layout, r)
    {
      SetChildrenAtOffPath(layout, q, s, r);
    }
  }

  /** Writing back the sequence already at `q` changes nothing, provided the block at `q` (if any)
      already has a children array: `{ ...block, children: block.children }` is the block itself. */
  lemma {:induction false} SetChildrenAtSame(layout: seq<Block>, q: Path)
    requires ChildrenAt(layout, q).Some?
    requires q != [] ==> NodeAt(layout, q).Some? && NodeAt(layout, q).value.children.Defined?
    ensures SetChildrenAt(layout, q, ChildrenAt(layout, q).value) == layout
    decreases |q|
  {
    if q != [] {
      var k := q[0];
      if |q| > 1 {
        SetChildrenAtSame(Kids(layout[k]), q[1..]);
        // a path that goes on below `layout[k]` resolves only through a defined children array
        assert Kids(layout[k]) != [];
      }
      assert layout[k].(children := Defined(Kids(layout[k]))) == layout[k];
    }
  }

  /** A second write along the same path overrides the first. */
  lemma {:induction false} SetChildrenAtTwice(layout: seq<Block>, q: Path, a: seq<Block>, b: seq<Block>)
    requires ChildrenAt(layout, q).Some?
    ensures ChildrenAt(SetChildrenAt(layout, q, a), q) == Some(a)
    ensures SetChildrenAt(SetChildrenAt(layout, q, a), q, b) == SetChildrenAt(layout, q, b)
    decreases |q|
  {
    if q != [] {
      var k := q[0];
      SetChildrenAtTwice(Kids(layout[k]), q[1..], a, b);
    }
  }

  /** `[...layout.slice(0, idx), x, ...layout.slice(idx + 1)]` is `layout` with slot `idx` set to `x`. */
  lemma RebuildIsUpdate(layout: seq<Block>, k: nat, x: Block)
    requires k < |layout|
    ensures layout[..k] + [x] + layout[k + 1..] == layout[k := x]
  {
  }

  // ------------------------------------------------------------------
  // removeBlockAtPath
  // ------------------------------------------------------------------

  datatype BlockRemoval = BlockRemoval(block: Option<Block>, newLayout: seq<Block>)

  /** removeBlockAtPath: at the last index, `layout[idx]` (undefined past the end) and the layout
      without that slot; above it, recurse into `children || []` and rebuild the block with the
      result as its children. */
  function RemoveBlockAtPath(layout: seq<Block>, path: Path): (r: BlockRemoval)
    requires ParentResolves(layout, path)
    ensures r.block == NodeAt(layout, path)
    decreases |path|
  {
    var idx := path[0];
    if |path| == 1 then
      BlockRemoval(if idx < |layout| then Some(layout[idx]) else None, RemoveAt(layout, idx))
    else
      assert Parent(path)[1..] == Parent(path[1..]);
      var r := RemoveBlockAtPath(Kids(layout[idx]), path[1..]);
      BlockRemoval(r.block, layout[..idx] + [layout[idx].(children := Defined(r.newLayout))] + layout[idx + 1..])
  }

  /** The recursion amounts to one splice in the sequence the parent path opens. */
  lemma RemoveBlockAtPathSplice(layout: seq<Block>, path: Path)
    requires ParentResolves(layout, path)
    ensures var arr := ChildrenAt(layout, Parent(path)).value;
            var r := RemoveBlockAtPath(layout, path);
            && r.block == (if Last(path) < |arr| then Some(arr[Last(path)]) else None)
            && r.newLayout == SetChildrenAt(layout, Parent(path), RemoveAt(arr, Last(path)))
  {
    NodeAtSnoc(layout, Parent(path), Last(path));
    assert Parent(path) + [Last(path)] == path;
    RemoveBlockAtPathRebuild(layout, path);
  }

  lemma {:induction false} RemoveBlockAtPathRebuild(layout: seq<Block>, path: Path)
    requires ParentResolves(layout, path)
    ensures RemoveBlockAtPath(layout, path).newLayout ==
            SetChildrenAt(layout, Parent(path), RemoveAt(ChildrenAt(layout, Parent(path)).value, Last(path)))
    decreases |path|
  {
    if |path| == 1 {
      assert Parent(path) == [];
    } else {
      var idx := path[0];
      var tail := path[1..];
      assert Parent(path) == [idx] + Parent(tail);
      assert ([idx] + Parent(tail))[1..] == Parent(tail);
      assert Last(path) == Last(tail);
      RemoveBlockAtPathRebuild(Kids(layout[idx]), tail);
      var r := RemoveBlockAtPath(Kids(layout[idx]), tail);
      RebuildIsUpdate(layout, idx, layout[idx].(children := Defined(r.newLayout)));
    }
  }

  /** removeBlockAtPath, found case: the block returned is the block at the path, and its slot is
      spliced out of its parent's children while everything else stays. */
  lemma RemoveBlockFound(layout: seq<Block>, path: Path)
    requires ParentResolves(layout, path)
    requires Last(path) < |ChildrenAt(layout, Parent(path)).value|
    ensures var arr := ChildrenAt(layout, Parent(path)).value;
            var r := RemoveBlockAtPath(layout, path);
            && r.block == Some(arr[Last(path)])
            && r.block == NodeAt(layout, path)
            && Spliced(layout, r.newLayout, Parent(path), RemoveAt(arr, Last(path)))
  {
    RemoveBlockAtPathSplice(layout, path);
    NodeAtSnoc(layout, Parent(path), Last(path));
    assert Parent(path) + [Last(path)] == path;
    SetChildrenAtSpliced(layout, Parent(path), RemoveAt(ChildrenAt(layout, Parent(path)).value, Last(path)));
  }

  /** removeBlockAtPath, nothing there: the block is undefined and the layout equal to the input, except
      that a parent block without a children array is rebuilt with `children: []`. */
  lemma RemoveBlockOutOfRange(layout: seq<Block>, path: Path)
    requires ParentResolves(layout, path)
    requires Last(path) >= |ChildrenAt(layout, Parent(path)).value|
    ensures var r := RemoveBlockAtPath(layout, path);
            && r.block == None
            && Spliced(layout, r.newLayout, Parent(path), ChildrenAt(layout, Parent(path)).value)
            && (|path| == 1 || NodeAt(layout, Parent(path)).value.children.Defined? ==> r.newLayout == layout)
  {
    var q := Parent(path);
    RemoveBlockAtPathSplice(layout, path);
    SetChildrenAtSpliced(layout, q, ChildrenAt(layout, q).value);
    if q != [] {
      ChildrenAtNode(layout, q);
    }
    if |path| == 1 || NodeAt(layout, q).value.children.Defined? {
      SetChildrenAtSame(layout, q);
    }
  }

  lemma {:induction false} NodeAtSnoc(layout: seq<Block>, p: Path, k: nat)
    ensures NodeAt(layout, p + [k]) ==
            match ChildrenAt(layout, p)
            case None => None
            case Some(arr) => if k < |arr| then Some(arr[k]) else None
    decreases |p|
  {
    if p != [] && p[0] < |layout| {
      assert (p + [k])[1..] == p[1..] + [k];
      NodeAtSnoc(Kids(layout[p[0]]), p[1..], k);
    }
  }

  /** A path that goes on past `p` continues in the sequence `p` opens. */
  lemma {:induction false} NodeAtConcat(layout: seq<Block>, p: Path, r: Path)
    requires r != []
    ensures NodeAt(layout, p + r) ==
            match ChildrenAt(layout, p)
            case None => None
            case Some(arr) => NodeAt(arr, r)
    decreases |p|
  {
    if p != [] && p[0] < |layout| {
      assert (p + r)[1..] == p[1..] + r;
      NodeAtConcat(Kids(layout[p[0]]), p[1..], r);
    } else if p == [] {
      assert p + r == r;
    } else {
      assert (p + r)[0] == p[0];
    }
  }

  /** A path into the layout read again once the block at `from` is gone: an index at the level of
      `from` that comes after it moves one place left. */
  function AdjustPath(from: Path, q: Path): (r: Path)
    requires from != []
    ensures |r| == |q|
  {
    var d := |from| - 1;
    if Parent(from) < q && q[d] > Last(from) then q[d := q[d] - 1] else q
  }

  /** A block outside the removed subtree is still there after the removal, at the adjusted path, with
      its id and type. */
  lemma RemoveKeepsOtherBlocks(layout: seq<Block>, from: Path, q: Path)
    requires ParentResolves(layout, from)
    requires NodeAt(layout, from).Some?
    requires NodeAt(layout, q).Some? && !(from <= q)
    ensures SameLabel(NodeAt(layout, q), NodeAt(RemoveBlockAtPath(layout, from).newLayout, AdjustPath(from, q)))
  {
    if Parent(from) < q {
      RemoveShiftsLaterBlocks(layout, from, q);
    } else {
      RemoveKeepsUnshiftedBlocks(layout, from, q);
    }
  }

  /** Above the removed block's parent, and beside it, the removal changes no path. */
  lemma RemoveKeepsUnshiftedBlocks(layout: seq<Block>, from: Path, q: Path)
    requires ParentResolves(layout, from)
    requires NodeAt(layout, from).Some?
    requires NodeAt(layout, q).Some? && !(Parent(from) < q)
    ensures AdjustPath(from, q) == q
    ensures SameLabel(NodeAt(layout, q), NodeAt(RemoveBlockAtPath(layout, from).newLayout, q))
  {
    var pp := Parent(from);
    var s := RemoveAt(ChildrenAt(layout, pp).value, Last(from));
    RemoveBlockAtPathSplice(layout, from);
    if q == pp {
      SetChildrenAtTarget(layout, pp, s);
    } else if q <= pp {
      SetChildrenAtAncestor(layout, pp, s, |q|);
      assert pp[..|q|] == q;
    } else {
      SetChildrenAtOffPath(layout, pp, s, q);
    }
  }

  /** Two sequences holding the same block at `i` and `j` agree on every path that goes on from there. */
  lemma NodeAtSameBlock(s: seq<Block>, t: seq<Block>, j: nat, i: nat, rest: Path)
    requires j < |s| && i < |t| && s[j] == t[i]
    ensures NodeAt(s, [j] + rest) == NodeAt(t, [i] + rest)
  {
    assert ([j] + rest)[1..] == rest && ([i] + rest)[1..] == rest;
  }

  /** Replacing the children at `pp` keeps every path through a child that is still there, at its
      new index. */
  lemma SetChildrenAtKeepsChild(layout: seq<Block>, pp: Path, s: seq<Block>, j: nat, i: nat, rest: Path)
    requires ChildrenAt(layout, pp).Some?
    requires j < |s| && i < |ChildrenAt(layout, pp).value| && s[j] == ChildrenAt(layout, pp).value[i]
    ensures NodeAt(SetChildrenAt(layout, pp, s), pp + ([j] + rest)) == NodeAt(layout, pp + ([i] + rest))
  {
    SetChildrenAtTwice(layout, pp, s, s);
    NodeAtConcat(layout, pp, [i] + rest);
    NodeAtConcat(SetChildrenAt(layout, pp, s), pp, [j] + rest);
    NodeAtSameBlock(s, ChildrenAt(layout, pp).value, j, i, rest);
  }

  /** Below the removed block's parent, a path through a later sibling names the same block one index
      to the left, and a path through an earlier sibling is unchanged. */
  lemma RemoveShiftsLaterBlocks(layout: seq<Block>, from: Path, q: Path)
    requires ParentResolves(layout, from)
    requires NodeAt(layout, from).Some?
    requires NodeAt(layout, q).Some? && !(from <= q) && Parent(from) < q
    ensures NodeAt(RemoveBlockAtPath(layout, from).newLayout, AdjustPath(from, q)) == NodeAt(layout, q)
  {
    var pp := Parent(from);
    var k := Last(from);
    var arr := ChildrenAt(layout, pp).value;
    var d := |pp|;
    var i := q[d];
    var rest := q[d + 1..];
    assert q == pp + ([i] + rest);
    assert from == pp + [k];
    assert i != k;
    var j := if i > k then i - 1 else i;
    assert AdjustPath(from, q) == pp + ([j] + rest);
    NodeAtSnoc(layout, pp, k);
    NodeAtConcat(layout, pp, [i] + rest);
    assert i < |arr|;
    RemoveBlockAtPathSplice(layout, from);
    SetChildrenAtKeepsChild(layout, pp, RemoveAt(arr, k), j, i, rest);
  }

  // ------------------------------------------------------------------
  // Ids: how many blocks at any depth carry a given id
  // ------------------------------------------------------------------

  function Occurrences(f: seq<Block>, x: string): nat {
    if f == [] then 0
    else
      (if f[0].id == x then 1 else 0)
      + (match f[0].children case Undefined => 0 case Defined(cs) => Occurrences(cs, x))
      + Occurrences(f[1..], x)
  }

  ghost predicate UniqueIds(f: seq<Block>) {
    forall x :: Occurrences(f, x) <= 1
  }

  lemma {:induction false} OccurrencesConcat(a: seq<Block>, b: seq<Block>, x: string)
    ensures Occurrences(a + b, x) == Occurrences(a, x) + Occurrences(b, x)
  {
    if a != [] {
      assert (a + b)[0] == a[0];
      assert (a + b)[1..] == a[1..] + b;
      OccurrencesConcat(a[1..], b, x);
    } else {
      assert a + b == b;
    }
  }

  lemma OccurrencesUpdate(f: seq<Block>, k: nat, b: Block, x: string)
    requires k < |f|
    ensures Occurrences(f[k := b], x) + Occurrences([f[k]], x) == Occurrences(f, x) + Occurrences([b], x)
  {
    assert f == f[..k] + [f[k]] + f[k + 1..];
    assert f[k := b] == f[..k] + [b] + f[k + 1..];
    OccurrencesConcat(f[..k] + [f[k]], f[k + 1..], x);
    OccurrencesConcat(f[..k], [f[k]], x);
    OccurrencesConcat(f[..k] + [b], f[k + 1..], x);
    OccurrencesConcat(f[..k], [b], x);
  }

  /** A rebuild along a path trades the blocks of the old sequence for those of the new one. */
  lemma {:induction false} OccurrencesSetChildrenAt(layout: seq<Block>, q: Path, s: seq<Block>, x: string)
    requires ChildrenAt(layout, q).Some?
    ensures Occurrences(SetChildrenAt(layout, q, s), x) + Occurrences(ChildrenAt(layout, q).value, x)
            == Occurrences(layout, x) + Occurrences(s, x)
    decreases |q|
  {
    if q != [] {
      var k := q[0];
      var c' := SetChildrenAt(Kids(layout[k]), q[1..], s);
      OccurrencesSetChildrenAt(Kids(layout[k]), q[1..], s, x);
      OccurrencesUpdate(layout, k, layout[k].(children := Defined(c')), x);
      assert [layout[k]][1..] == [];
      assert [layout[k].(children := Defined(c'))][1..] == [];
    }
  }

  lemma OccurrencesInsertAt(s: seq<Block>, k: nat, b: Block, x: string)
    ensures Occurrences(InsertAt(s, k, b), x) == Occurrences(s, x) + Occurrences([b], x)
  {
    var c := Clamp(k, |s|);
    assert s == s[..c] + s[c..];
    assert InsertAt(s, k, b) == s[..c] + [b] + s[c..];
    OccurrencesConcat(s[..c] + [b], s[c..], x);
    OccurrencesConcat(s[..c], [b], x);
    OccurrencesConcat(s[..c], s[c..], x);
  }

  lemma OccurrencesRemoveAt(s: seq<Block>, k: nat, x: string)
    requires k < |s|
    ensures Occurrences(RemoveAt(s, k), x) + Occurrences([s[k]], x) == Occurrences(s, x)
  {
    assert s == s[..k] + [s[k]] + s[k + 1..];
    assert RemoveAt(s, k) == s[..k] + s[k + 1..];
    OccurrencesConcat(s[..k] + [s[k]], s[k + 1..], x);
    OccurrencesConcat(s[..k], [s[k]], x);
    OccurrencesConcat(s[..k], s[k + 1..], x);
  }

  /** removeBlockAtPath takes out exactly the blocks of the subtree it returns, and nothing when it
      returns undefined. */
  lemma RemoveBlockOccurrences(layout: seq<Block>, path: Path, x: string)
    requires ParentResolves(layout, path)
    ensures var r := RemoveBlockAtPath(layout, path);
            Occurrences(r.newLayout, x) + (if r.block.Some? then Occurrences([r.block.value], x) else 0)
            == Occurrences(layout, x)
  {
    var q := Parent(path);
    var arr := ChildrenAt(layout, q).value;
    RemoveBlockAtPathSplice(layout, path);
    OccurrencesSetChildrenAt(layout, q, RemoveAt(arr, Last(path)), x);
    if Last(path) < |arr| {
      OccurrencesRemoveAt(arr, Last(path), x);
    }
  }

  // ------------------------------------------------------------------
  // Only container blocks hold children
  // ------------------------------------------------------------------

  /** Every block whose type cannot have children has none (its array is undefined or empty), at
      every depth. The interface renders no drop zones inside such a block, and both builders keep
      this true. */
  predicate LeavesEmpty(f: seq<Block>) {
    forall i :: 0 <= i < |f| ==>
      && (CanHaveChildren(f[i].kind) || Kids(f[i]) == [])
      && (f[i].children.Defined? ==> LeavesEmpty(f[i].children.blocks))
  }

  /** One block satisfies the property at its own level and below. */
  predicate BlockOk(b: Block) {
    LeavesEmpty([b])
  }

  lemma LeavesEmptyKids(f: seq<Block>, k: nat)
    requires LeavesEmpty(f) && k < |f|
    ensures LeavesEmpty(Kids(f[k]))
  {
  }

  lemma LeavesEmptyUpdate(f: seq<Block>, k: nat, b: Block)
    requires LeavesEmpty(f) && k < |f| && BlockOk(b)
    ensures LeavesEmpty(f[k := b])
  {
    assert [b][0] == b;
  }

  lemma LeavesEmptyInsertAt(s: seq<Block>, k: nat, b: Block)
    requires LeavesEmpty(s) && BlockOk(b)
    ensures LeavesEmpty(InsertAt(s, k, b))
  {
    var r := InsertAt(s, k, b);
    var c := Clamp(k, |s|);
    forall i | 0 <= i < |r|
      ensures (CanHaveChildren(r[i].kind) || Kids(r[i]) == [])
      ensures (r[i].children.Defined? ==> LeavesEmpty(r[i].children.blocks))
    {
      if i == c {
        assert [b][0] == r[i];
      } else if i < c {
        assert r[i] == s[i];
      } else {
        assert r[i] == s[i - 1];
      }
    }
  }

  lemma LeavesEmptyRemoveAt(s: seq<Block>, k: nat)
    requires LeavesEmpty(s)
    ensures LeavesEmpty(RemoveAt(s, k))
  {
    var r := RemoveAt(s, k);
    forall i | 0 <= i < |r|
      ensures (CanHaveChildren(r[i].kind) || Kids(r[i]) == [])
      ensures (r[i].children.Defined? ==> LeavesEmpty(r[i].children.blocks))
    {
      if k < |s| && i >= k {
        assert r[i] == s[i + 1];
      } else {
        assert r[i] == s[i];
      }
    }
  }

  /** A rebuild along a path keeps the property when the new sequence has it and either lands at the
      root, is empty, or goes under a container block. */
  lemma {:induction false} LeavesEmptySetChildrenAt(layout: seq<Block>, q: Path, s: seq<Block>)
    requires LeavesEmpty(layout) && LeavesEmpty(s)
    requires ChildrenAt(layout, q).Some?
    requires q == [] || s == [] || (NodeAt(layout, q).Some? && CanHaveChildren(NodeAt(layout, q).value.kind))
    ensures LeavesEmpty(SetChildrenAt(layout, q, s))
    decreases |q|
  {
    ChildrenAtNodeSome(layout, q);
    if q != [] {
      var k := q[0];
      LeavesEmptyKids(layout, k);
      if |q| > 1 {
        LeavesEmptySetChildrenAt(Kids(layout[k]), q[1..], s);
      }
      var c' := SetChildrenAt(Kids(layout[k]), q[1..], s);
      var b := layout[k].(children := Defined(c'));
      assert CanHaveChildren(b.kind) || c' == [] by {
        if |q| > 1 {
          // a block with a resolvable path below it has children, so it is a container
          assert Kids(layout[k]) != [];
        }
      }
      assert [b][0] == b;
      LeavesEmptyUpdate(layout, k, b);
    }
  }

  lemma {:induction false} ChildrenAtNodeSome(layout: seq<Block>, q: Path)
    requires ChildrenAt(layout, q).Some?
    ensures q != [] ==> NodeAt(layout, q).Some?
    decreases |q|
  {
    if |q| > 1 {
      ChildrenAtNodeSome(Kids(layout[q[0]]), q[1..]);
    }
  }
  /** The children of every block of a layout that has the property have it too. */
  lemma {:induction false} LeavesEmptyAt(layout: seq<Block>, p: Path)
    requires LeavesEmpty(layout) && p != [] && NodeAt(layout, p).Some?
    ensures CanHaveChildren(NodeAt(layout, p).value.kind) || Kids(NodeAt(layout, p).value) == []
    ensures LeavesEmpty(Kids(NodeAt(layout, p).value))
    decreases |p|
  {
    LeavesEmptyKids(layout, p[0]);
    if |p| > 1 {
      LeavesEmptyAt(Kids(layout[p[0]]), p[1..]);
    }
  }

  lemma LeavesEmptyInArray(s: seq<Block>, k: nat)
    requires LeavesEmpty(s) && k < |s|
    ensures BlockOk(s[k])
  {
    assert [s[k]][0] == s[k];
  }

  /** A block whose children satisfy the property satisfies it, once it is a container or childless. */
  lemma OneLeavesEmpty(b: Block)
    ensures BlockOk(b) <==> (CanHaveChildren(b.kind) || Kids(b) == []) && LeavesEmpty(Kids(b))
  {
    assert [b][0] == b;
  }

  lemma RemoveKeepsLeavesEmpty(layout: seq<Block>, path: Path)
    requires ParentResolves(layout, path) && LeavesEmpty(layout)
    ensures LeavesEmpty(RemoveBlockAtPath(layout, path).newLayout)
  {
    var q := Parent(path);
    var arr := ChildrenAt(layout, q).value;
    RemoveBlockAtPathSplice(layout, path);
    ChildrenAtNodeSome(layout, q);
    if q != [] {
      ChildrenAtNode(layout, q);
      LeavesEmptyAt(layout, q);
    }
    LeavesEmptyRemoveAt(arr, Last(path));
    LeavesEmptySetChildrenAt(layout, q, RemoveAt(arr, Last(path)));
  }
}
