/**
 * The layout tree of the archived builder (archive.20250507.html-builder.tsx). A forest of
 * `BuilderNode`s, each with an id, a type (row, column or text) and a children array that is
 * always present, text nodes included. Nodes are addressed by paths of child indices. The helpers
 * clone the forest with `structuredClone` and splice the clone in place; with value semantics the
 * clone is the forest itself, and a splice into `parent.children` becomes a rebuild of the forest
 * along the parent's path (SetChildrenAt).
 */
module Archive {
  import opened Wrappers
  import opened Splice
  import Paths

  /** `SidebarItemType`. */
  datatype Kind = Row | Column | Text

  /** `BuilderNode` (its optional `content` is never set by the tree logic and is left out). */
  datatype Node = Node(id: string, kind: Kind, children: seq<Node>)

  type Path = seq<nat>

  /** The node a path addresses: None for the empty path and as soon as an index has no node.
      Otherwise it is the element at the final index of the sequence the rest of the path opens. */
  function NodeAt(tree: seq<Node>, path: Path): (r: Option<Node>)
    ensures path == [] ==> r == None
    ensures path != [] ==>
              r == match ChildrenAt(tree, path[..|path| - 1])
                   case None => None
                   case Some(arr) => if path[|path| - 1] < |arr| then Some(arr[path[|path| - 1]]) else None
    decreases |path|
  {
    if path == [] || path[0] >= |tree| then None
    else if |path| == 1 then Some(tree[path[0]])
    else
      assert path[..|path| - 1][1..] == path[1..][..|path| - 2];
      NodeAt(tree[path[0]].children, path[1..])
  }

  /** The sequence a path opens: the forest itself for the empty path, else the children of the
      node at the path. */
  function ChildrenAt(tree: seq<Node>, path: Path): Option<seq<Node>>
    decreases |path|
  {
    if path == [] then Some(tree)
    else if path[0] >= |tree| then None
    else ChildrenAt(tree[path[0]].children, path[1..])
  }

  /** The forest with the sequence at `path` replaced by `s`: what a splice into the clone's
      `arr` (the root, or `parent.children`) leaves behind. */
  function SetChildrenAt(tree: seq<Node>, path: Path, s: seq<Node>): seq<Node>
    requires ChildrenAt(tree, path).Some?
    decreases |path|
  {
    if path == [] then s
    else
      var k := path[0];
      tree[k := tree[k].(children := SetChildrenAt(tree[k].children, path[1..], s))]
  }

  lemma {:induction false} ChildrenAtNode(tree: seq<Node>, path: Path)
    requires path != []
    ensures ChildrenAt(tree, path) ==
            if NodeAt(tree, path).Some? then Some(NodeAt(tree, path).value.children) else None
    decreases |path|
  {
    if path[0] < |tree| && |path| > 1 {
      ChildrenAtNode(tree[path[0]].children, path[1..]);
    }
  }

  /** One more index descends one level: the node at `p + [k]` is element `k` of the sequence `p` opens. */
  lemma {:induction false} NodeAtSnoc(tree: seq<Node>, p: Path, k: nat)
    ensures NodeAt(tree, p + [k]) ==
            match ChildrenAt(tree, p)
            case None => None
            case Some(arr) => if k < |arr| then Some(arr[k]) else None
    decreases |p|
  {
    if p != [] && p[0] < |tree| {
      assert (p + [k])[1..] == p[1..] + [k];
      NodeAtSnoc(tree[p[0]].children, p[1..], k);
    }
  }

  lemma {:induction false} ChildrenAtSnoc(tree: seq<Node>, p: Path, k: nat)
    ensures ChildrenAt(tree, p + [k]) ==
            match ChildrenAt(tree, p)
            case None => None
            case Some(arr) => if k < |arr| then Some(arr[k].children) else None
  {
    ChildrenAtNode(tree, p + [k]);
    NodeAtSnoc(tree, p, k);
  }

  /** As soon as a prefix of the path addresses no node, neither does the whole path. */
  lemma {:induction false} NodeAtPrefixNone(tree: seq<Node>, p: Path, j: nat)
    requires 0 < j <= |p|
    requires NodeAt(tree, p[..j]) == None
    ensures NodeAt(tree, p) == None
    decreases |p|
  {
    if p[0] < |tree| && j > 1 {
      assert p[..j][1..] == p[1..][..j - 1];
      NodeAtPrefixNone(tree[p[0]].children, p[1..], j - 1);
    }
  }

  /** getNodeByPath (lines 68-80): walks the path one index at a time, keeping the node reached so far
      and the array to index next; returns null for the empty path and as soon as an index has no node. */
  method GetNodeByPath(tree: seq<Node>, path: Path) returns (current: Option<Node>)
    ensures current == NodeAt(tree, path)
  {
    current := None;
    var arr := tree;
    var i := 0;
    while i < |path|
      invariant 0 <= i <= |path|
      invariant current == NodeAt(tree, path[..i])
      invariant ChildrenAt(tree, path[..i]) == Some(arr)
    {
      var idx := path[i];
      assert path[..i + 1] == path[..i] + [idx];
      NodeAtSnoc(tree, path[..i], idx);
      ChildrenAtSnoc(tree, path[..i], idx);
      if idx >= |arr| {
        NodeAtPrefixNone(tree, path, i + 1);
        return None;
      }
      current := Some(arr[idx]);
      arr := current.value.children;
      i := i + 1;
    }
    assert path[..i] == path;
  }

  // ------------------------------------------------------------------
  // What a splice along a path changes and what it keeps
  // ------------------------------------------------------------------

  predicate SameLabel(a: Option<Node>, b: Option<Node>) {
    a.Some? && b.Some? && a.value.id == b.value.id && a.value.kind == b.value.kind
  }

  /** `after` is `before` with the sequence at `q` replaced by `s`: that sequence now reads `s`, every
      node on the way down to it keeps its id and type, and every node neither above nor below `q`
      is untouched. */
  ghost predicate Spliced(before: seq<Node>, after: seq<Node>, q: Path, s: seq<Node>) {
    && ChildrenAt(after, q) == Some(s)
    && (forall j :: 0 < j <= |q| ==> SameLabel(NodeAt(before, q[..j]), NodeAt(after, q[..j])))
    && (forall r: Path :: !(r <= q) && !(q <= r) ==> NodeAt(after, r) == NodeAt(before, r))
  }

  lemma {:induction false} SetChildrenAtTarget(tree: seq<Node>, q: Path, s: seq<Node>)
    requires ChildrenAt(tree, q).Some?
    ensures ChildrenAt(SetChildrenAt(tree, q, s), q) == Some(s)
    decreases |q|
  {
    if q != [] {
      SetChildrenAtTarget(tree[q[0]].children, q[1..], s);
    }
  }

  lemma {:induction false} SetChildrenAtAncestor(tree: seq<Node>, q: Path, s: seq<Node>, j: nat)
    requires ChildrenAt(tree, q).Some?
    requires 0 < j <= |q|
    ensures SameLabel(NodeAt(tree, q[..j]), NodeAt(SetChildrenAt(tree, q, s), q[..j]))
    decreases |q|
  {
    var k := q[0];
    if j > 1 {
      assert q[..j][1..] == q[1..][..j - 1];
      SetChildrenAtAncestor(tree[k].children, q[1..], s, j - 1);
    }
  }

  lemma {:induction false} SetChildrenAtOffPath(tree: seq<Node>, q: Path, s: seq<Node>, r: Path)
    requires ChildrenAt(tree, q).Some?
    requires !(r <= q) && !(q <= r)
    ensures NodeAt(SetChildrenAt(tree, q, s), r) == NodeAt(tree, r)
    decreases |q|
  {
    var k := q[0];
    if r[0] == k && |r| > 1 {
      assert !(r[1..] <= q[1..]) && !(q[1..] <= r[1..]);
      SetChildrenAtOffPath(tree[k].children, q[1..], s, r[1..]);
    }
  }

  lemma SetChildrenAtSpliced(tree: seq<Node>, q: Path, s: seq<Node>)
    requires ChildrenAt(tree, q).Some?
    ensures Spliced(tree, SetChildrenAt(tree, q, s), q, s)
  {
    SetChildrenAtTarget(tree, q, s);
    forall j | 0 < j <= |q|
      ensures SameLabel(NodeAt(tree, q[..j]), NodeAt(SetChildrenAt(tree, q, s), q[..j]))
    {
      SetChildrenAtAncestor(tree, q, s, j);
    }
    forall r: Path | !(r <= q) && !(q <= r)
      ensures NodeAt(SetChildrenAt(tree, q, s), r) == NodeAt(tree, r)
    {
      SetChildrenAtOffPath(tree, q, s, r);
    }
  }

  /** Writing back the sequence that is already there changes nothing. */
  lemma {:induction false} SetChildrenAtSame(tree: seq<Node>, q: Path)
    requires ChildrenAt(tree, q).Some?
    ensures SetChildrenAt(tree, q, ChildrenAt(tree, q).value) == tree
    decreases |q|
  {
    if q != [] {
      var k := q[0];
      SetChildrenAtSame(tree[k].children, q[1..]);
    }
  }

  /** A second write along the same path overrides the first. */
  lemma {:induction false} SetChildrenAtTwice(tree: seq<Node>, q: Path, a: seq<Node>, b: seq<Node>)
    requires ChildrenAt(tree, q).Some?
    ensures ChildrenAt(SetChildrenAt(tree, q, a), q).Some?
    ensures SetChildrenAt(SetChildrenAt(tree, q, a), q, b) == SetChildrenAt(tree, q, b)
    decreases |q|
  {
    SetChildrenAtTarget(tree, q, a);
    if q != [] {
      var k := q[0];
      SetChildrenAtTwice(tree[k].children, q[1..], a, b);
    }
  }

  // ------------------------------------------------------------------
  // removeAtPath and insertAtPath
  // ------------------------------------------------------------------

  function Parent(path: Path): Path
    requires path != []
  {
    path[..|path| - 1]
  }

  function Last(path: Path): nat
    requires path != []
  {
    path[|path| - 1]
  }

  /** The sequence both helpers edit for a non-empty path (lines 90-91 and 126-128): the children of
      the node at the parent path when that path is non-empty and resolves, the root otherwise. */
  function Container(tree: seq<Node>, path: Path): (q: Path)
    requires path != []
    ensures ChildrenAt(tree, q).Some?
    ensures q == Parent(path) <==> |path| == 1 || NodeAt(tree, Parent(path)).Some?
    ensures q != Parent(path) ==> q == []
  {
    var parent := Parent(path);
    if parent != [] && NodeAt(tree, parent).Some? then
      ChildrenAtNode(tree, parent);
      parent
    else []
  }

  function Siblings(tree: seq<Node>, path: Path): seq<Node>
    requires path != []
  {
    ChildrenAt(tree, Container(tree, path)).value
  }

  datatype Removal = Removal(removed: Option<Node>, newTree: seq<Node>)

  /** The outcome of removeAtPath: when nothing is removed the forest is returned as it was; what is
      removed is the node addressed by the final index inside the containing sequence. */
  function Remove(tree: seq<Node>, path: Path): (r: Removal)
    ensures r.removed.None? ==> r.newTree == tree
    ensures r.removed.Some? ==> path != [] && r.removed == NodeAt(tree, Container(tree, path) + [Last(path)])
  {
    if path == [] then Removal(None, tree)
    else
      var arr := Siblings(tree, path);
      if Last(path) >= |arr| then Removal(None, tree)
      else
        var q := Container(tree, path);
        assert (q + [Last(path)])[..|q|] == q;
        Removal(Some(arr[Last(path)]), SetChildrenAt(tree, q, RemoveAt(arr, Last(path))))
  }

  /** The outcome of insertAtPath: the empty path puts the item first in the root; otherwise the
      containing sequence becomes the splice of the item into it, and the item is found at the
      clamped final index. */
  function Insert(tree: seq<Node>, path: Path, item: Node): (r: seq<Node>)
    ensures path == [] ==> r == [item] + tree
    ensures path != [] ==> ChildrenAt(r, Container(tree, path)) == Some(InsertAt(Siblings(tree, path), Last(path), item))
    ensures path != [] ==> NodeAt(r, Container(tree, path) + [Clamp(Last(path), |Siblings(tree, path)|)]) == Some(item)
  {
    if path == [] then
      assert InsertAt(tree, 0, item) == [item] + tree;
      InsertAt(tree, 0, item)
    else
      var q := Container(tree, path);
      var s := InsertAt(Siblings(tree, path), Last(path), item);
      SetChildrenAtTarget(tree, q, s);
      assert (q + [Clamp(Last(path), |Siblings(tree, path)|)])[..|q|] == q;
      SetChildrenAt(tree, q, s)
  }

  /** removeAtPath (lines 82-95): the empty path and a final index past the end of the containing
      sequence remove nothing and return the forest as given; otherwise the node at the final index
      of the containing sequence is returned and only that slot is spliced out. */
  method RemoveAtPath(tree: seq<Node>, path: Path) returns (removed: Option<Node>, newTree: seq<Node>)
    ensures Removal(removed, newTree) == Remove(tree, path)
    ensures path == [] ==> removed == None && newTree == tree
    ensures path != [] && Last(path) >= |Siblings(tree, path)| ==> removed == None && newTree == tree
    ensures path != [] && Last(path) < |Siblings(tree, path)| ==>
              && removed == Some(Siblings(tree, path)[Last(path)])
              && removed == NodeAt(tree, Container(tree, path) + [Last(path)])
              && Spliced(tree, newTree, Container(tree, path), RemoveAt(Siblings(tree, path), Last(path)))
  {
    if |path| == 0 {
      return None, tree;
    }
    newTree := tree;
    var parentPath := path[..|path| - 1];
    var idx := path[|path| - 1];
    var parent: Option<Node> := None;
    if |parentPath| > 0 {
      parent := GetNodeByPath(newTree, parentPath);
    }
    ParentLookup(tree, path, parent);
    var arr := if parent.Some? then parent.value.children else newTree;
    if idx >= |arr| {
      return None, newTree;
    }
    removed := Some(arr[idx]);
    arr := RemoveAt(arr, idx);
    newTree := if parent.Some? then SetChildrenAt(newTree, parentPath, arr) else arr;
    NodeAtSnoc(tree, Container(tree, path), idx);
    SetChildrenAtSpliced(tree, Container(tree, path), arr);
  }

  /** insertAtPath (lines 113-132): the empty path puts the item first in the root; otherwise the item
      goes into the containing sequence before the final index, or at its end when the index is past
      the end, and nothing else changes. */
  method InsertAtPath(tree: seq<Node>, path: Path, item: Node) returns (newTree: seq<Node>)
    ensures newTree == Insert(tree, path, item)
    ensures path == [] ==> newTree == [item] + tree
    ensures path != [] ==>
              Spliced(tree, newTree, Container(tree, path), InsertAt(Siblings(tree, path), Last(path), item))
  {
    newTree := tree;
    if |path| == 0 {
      newTree := InsertAt(newTree, 0, item);
      assert newTree == [item] + tree;
      return;
    }
    var parentPath := path[..|path| - 1];
    var idx := path[|path| - 1];
    var parent: Option<Node> := None;
    if |parentPath| > 0 {
      parent := GetNodeByPath(newTree, parentPath);
    }
    ParentLookup(tree, path, parent);
    var arr := if parent.Some? then parent.value.children else newTree;
    arr := InsertAt(arr, idx, item);
    newTree := if parent.Some? then SetChildrenAt(newTree, parentPath, arr) else arr;
    InsertSpliced(tree, path, item);
  }

  /** What the helpers' lookup of the parent finds decides the sequence they edit. */
  lemma ParentLookup(tree: seq<Node>, path: Path, parent: Option<Node>)
    requires path != []
    requires parent == if |Parent(path)| > 0 then NodeAt(tree, Parent(path)) else None
    ensures Container(tree, path) == if parent.Some? then Parent(path) else []
    ensures Siblings(tree, path) == if parent.Some? then parent.value.children else tree
  {
    if parent.Some? {
      ChildrenAtNode(tree, Parent(path));
    }
  }

  lemma InsertSpliced(tree: seq<Node>, path: Path, item: Node)
    requires path != []
    ensures Spliced(tree, Insert(tree, path, item), Container(tree, path), InsertAt(Siblings(tree, path), Last(path), item))
  {
    SetChildrenAtSpliced(tree, Container(tree, path), InsertAt(Siblings(tree, path), Last(path), item));
  }

  /** Putting the removed node back at the same path restores the forest, provided the parent path
      resolved; when it did not, the root fallback can make the two steps disagree (see
      FallbackBreaksRoundTrip). */
  lemma RemoveInsertRoundTrip(tree: seq<Node>, path: Path)
    requires Remove(tree, path).removed.Some?
    requires |path| == 1 || NodeAt(tree, Parent(path)).Some?
    ensures Insert(Remove(tree, path).newTree, path, Remove(tree, path).removed.value) == tree
  {
    var q := Container(tree, path);
    var arr := Siblings(tree, path);
    var idx := Last(path);
    var mid := SetChildrenAt(tree, q, RemoveAt(arr, idx));
    SetChildrenAtSpliced(tree, q, RemoveAt(arr, idx));
    if |path| > 1 {
      assert SameLabel(NodeAt(tree, q[..|q|]), NodeAt(mid, q[..|q|]));
      assert q[..|q|] == q;
    }
    assert Container(mid, path) == q;
    InsertRemove(arr, idx);
    SetChildrenAtTwice(tree, q, RemoveAt(arr, idx), arr);
    SetChildrenAtSame(tree, q);
  }

  /** With a parent path that does not resolve the removal falls back to the root, and so does the
      insertion, but against the smaller forest the same parent path can resolve: moving `[0,0,0]`
      out of `[R(a, []), R(b, [R(c, [])])]` and back puts the node under `c`. */
  lemma FallbackBreaksRoundTrip()
    ensures
      var c := Node("c", Row, []);
      var tree := [Node("a", Row, []), Node("b", Row, [c])];
      var r := Remove(tree, [0, 0, 0]);
      && r.removed == Some(Node("a", Row, []))
      && Insert(r.newTree, [0, 0, 0], r.removed.value) == [Node("b", Row, [Node("c", Row, [Node("a", Row, [])])])]
  {
    FallbackRemoval();
    FallbackReinsertion();
  }

  /** The parent path `[0, 0]` does not resolve, so the removal takes root node 0. */
  lemma FallbackRemoval()
    ensures
      var c := Node("c", Row, []);
      Remove([Node("a", Row, []), Node("b", Row, [c])], [0, 0, 0]) == Removal(Some(Node("a", Row, [])), [Node("b", Row, [c])])
  {
    var c := Node("c", Row, []);
    var tree := [Node("a", Row, []), Node("b", Row, [c])];
    assert Parent([0, 0, 0]) == [0, 0];
    assert NodeAt(tree, [0, 0]) == None;
    assert Container(tree, [0, 0, 0]) == [];
    assert RemoveAt(tree, 0) == [Node("b", Row, [c])];
  }

  /** In the smaller forest the same parent path names `c`, which receives the node. */
  lemma FallbackReinsertion()
    ensures
      var a := Node("a", Row, []);
      var c := Node("c", Row, []);
      Insert([Node("b", Row, [c])], [0, 0, 0], a) == [Node("b", Row, [Node("c", Row, [a])])]
  {
    var a := Node("a", Row, []);
    var c := Node("c", Row, []);
    var mid := [Node("b", Row, [c])];
    assert NodeAt(mid, [0, 0]) == Some(c);
    assert Container(mid, [0, 0, 0]) == [0, 0];
    assert Siblings(mid, [0, 0, 0]) == [];
    assert InsertAt([], 0, a) == [a];
    assert SetChildrenAt([c], [0], [a]) == [Node("c", Row, [a])];
  }

  // ------------------------------------------------------------------
  // Ids: a node is neither duplicated nor lost by a move
  // ------------------------------------------------------------------

  /** How many nodes of the forest, at any depth, carry the id `x`. */
  function Occurrences(f: seq<Node>, x: string): nat {
    if f == [] then 0
    else (if f[0].id == x then 1 else 0) + Occurrences(f[0].children, x) + Occurrences(f[1..], x)
  }

  /** No id occurs twice anywhere in the forest. */
  ghost predicate UniqueIds(f: seq<Node>) {
    forall x :: Occurrences(f, x) <= 1
  }

  lemma {:induction false} OccurrencesConcat(a: seq<Node>, b: seq<Node>, x: string)
    ensures Occurrences(a + b, x) == Occurrences(a, x) + Occurrences(b, x)
  {
    if a != [] {
      assert (a + b)[0] == a[0];
      assert (a + b)[1..] == a[1..] + b;
      OccurrencesConcat(a[1..], b, x);
    } else {
      assert a + b == b;
    }
  }

  lemma OccurrencesUpdate(f: seq<Node>, k: nat, n: Node, x: string)
    requires k < |f|
    ensures Occurrences(f[k := n], x) + Occurrences([f[k]], x) == Occurrences(f, x) + Occurrences([n], x)
  {
    assert f == f[..k] + [f[k]] + f[k + 1..];
    assert f[k := n] == f[..k] + [n] + f[k + 1..];
    OccurrencesConcat(f[..k] + [f[k]], f[k + 1..], x);
    OccurrencesConcat(f[..k], [f[k]], x);
    OccurrencesConcat(f[..k] + [n], f[k + 1..], x);
    OccurrencesConcat(f[..k], [n], x);
  }

  /** A write along a path trades the nodes of the old sequence for those of the new one. */
  lemma {:induction false} OccurrencesSetChildrenAt(tree: seq<Node>, q: Path, s: seq<Node>, x: string)
    requires ChildrenAt(tree, q).Some?
    ensures Occurrences(SetChildrenAt(tree, q, s), x) + Occurrences(ChildrenAt(tree, q).value, x)
            == Occurrences(tree, x) + Occurrences(s, x)
    decreases |q|
  {
    if q != [] {
      var k := q[0];
      var c' := SetChildrenAt(tree[k].children, q[1..], s);
      OccurrencesSetChildrenAt(tree[k].children, q[1..], s, x);
      OccurrencesUpdate(tree, k, tree[k].(children := c'), x);
      assert [tree[k]][1..] == [];
      assert [tree[k].(children := c')][1..] == [];
    }
  }

  lemma OccurrencesInsertAt(s: seq<Node>, k: nat, n: Node, x: string)
    ensures Occurrences(InsertAt(s, k, n), x) == Occurrences(s, x) + Occurrences([n], x)
  {
    var c := Clamp(k, |s|);
    assert s == s[..c] + s[c..];
    assert InsertAt(s, k, n) == s[..c] + [n] + s[c..];
    OccurrencesConcat(s[..c] + [n], s[c..], x);
    OccurrencesConcat(s[..c], [n], x);
    OccurrencesConcat(s[..c], s[c..], x);
  }

  lemma OccurrencesRemoveAt(s: seq<Node>, k: nat, x: string)
    requires k < |s|
    ensures Occurrences(RemoveAt(s, k), x) + Occurrences([s[k]], x) == Occurrences(s, x)
  {
    assert s == s[..k] + [s[k]] + s[k + 1..];
    assert RemoveAt(s, k) == s[..k] + s[k + 1..];
    OccurrencesConcat(s[..k] + [s[k]], s[k + 1..], x);
    OccurrencesConcat(s[..k], [s[k]], x);
    OccurrencesConcat(s[..k], s[k + 1..], x);
  }

  /** A successful removal takes out exactly the nodes of the removed subtree. */
  lemma RemoveOccurrences(tree: seq<Node>, path: Path, x: string)
    requires Remove(tree, path).removed.Some?
    ensures Occurrences(Remove(tree, path).newTree, x) + Occurrences([Remove(tree, path).removed.value], x)
            == Occurrences(tree, x)
  {
    var arr := Siblings(tree, path);
    OccurrencesSetChildrenAt(tree, Container(tree, path), RemoveAt(arr, Last(path)), x);
    OccurrencesRemoveAt(arr, Last(path), x);
  }

  /** An insertion adds exactly the nodes of the inserted subtree: the archive never drops a node. */
  lemma InsertOccurrences(tree: seq<Node>, path: Path, item: Node, x: string)
    ensures Occurrences(Insert(tree, path, item), x) == Occurrences(tree, x) + Occurrences([item], x)
  {
    if path == [] {
      OccurrencesInsertAt(tree, 0, item, x);
    } else {
      var arr := Siblings(tree, path);
      OccurrencesSetChildrenAt(tree, Container(tree, path), InsertAt(arr, Last(path), item), x);
      OccurrencesInsertAt(arr, Last(path), item, x);
    }
  }

  // ------------------------------------------------------------------
  // handleDrop
  // ------------------------------------------------------------------

  /** The dragged item: a sidebar item (`fromSidebar`, fresh `id`) or an existing node with its `path`. */
  datatype DragItem = DragItem(id: string, kind: Kind, path: Option<string>, fromSidebar: bool)

  /** The drop zone's path string with a `-end` marker removed, split on `-` and parsed. */
  function DropPath(dropZonePath: string): Option<Path> {
    Paths.ParsePath(Paths.StripEnd(dropZonePath), '-')
  }

  /** The item is an existing node: not from the sidebar and with a non-empty path string. */
  predicate IsMove(item: DragItem) {
    !item.fromSidebar && item.path.Some? && item.path.value != ""
  }

  /** A move: remove, then insert the removed node at `to` read against the smaller forest. It
      neither loses nor duplicates any node. */
  function Move(tree: seq<Node>, from: Path, to: Path): (moved: seq<Node>)
    requires Remove(tree, from).removed.Some?
    ensures forall x :: Occurrences(moved, x) == Occurrences(tree, x)
  {
    var r := Remove(tree, from);
    var result := Insert(r.newTree, to, r.removed.value);
    assert forall x :: Occurrences(result, x) == Occurrences(tree, x) by {
      forall x
        ensures Occurrences(result, x) == Occurrences(tree, x)
      {
        RemoveOccurrences(tree, from, x);
        InsertOccurrences(r.newTree, to, r.removed.value, x);
      }
    }
    result
  }

  /** Moves keep ids unique, and so does adding a fresh sidebar node whose id is new. */
  lemma MoveKeepsUniqueIds(tree: seq<Node>, from: Path, to: Path)
    requires Remove(tree, from).removed.Some?
    requires UniqueIds(tree)
    ensures UniqueIds(Move(tree, from, to))
  {
    var moved := Move(tree, from, to);
    assert forall x :: Occurrences(moved, x) == Occurrences(tree, x);
  }

  lemma InsertFreshKeepsUniqueIds(tree: seq<Node>, path: Path, id: string, kind: Kind)
    requires UniqueIds(tree)
    requires Occurrences(tree, id) == 0
    ensures UniqueIds(Insert(tree, path, Node(id, kind, [])))
  {
    forall x ensures Occurrences(Insert(tree, path, Node(id, kind, [])), x) <= 1 {
      InsertOccurrences(tree, path, Node(id, kind, []), x);
    }
  }

  /** Moving the first of three root nodes to drop zone "2" gives [B, C, A]: the drop index is read
      against the forest after the removal, not before it. */
  lemma MoveAcrossSiblings(a: Node, b: Node, c: Node)
    ensures Move([a, b, c], [0], [2]) == [b, c, a]
  {
    assert Parent([0]) == [] && Last([0]) == 0;
    assert Container([a, b, c], [0]) == [];
    assert RemoveAt([a, b, c], 0) == [b, c];
    assert Remove([a, b, c], [0]) == Removal(Some(a), [b, c]);
    assert Parent([2]) == [] && Last([2]) == 2;
    assert Container([b, c], [2]) == [];
    assert InsertAt([b, c], 2, a) == [b, c, a];
  }

  /** The setLayout callback of handleDrop (lines 330-368). A sidebar item becomes a new node with
      empty children inserted at the drop path; an existing node is removed and the removed node
      inserted at the drop path in the forest left by the removal; anything else leaves the layout
      alone. `removeRes.removed!` is only a type assertion: when the removal finds nothing, `null` is
      inserted and only the renderer fails on it later, so the model requires the removal to succeed. */
  method HandleDrop(currentLayout: seq<Node>, dragItem: DragItem, dropZonePath: string) returns (layout: seq<Node>)
    requires DropPath(dropZonePath).Some?
    requires IsMove(dragItem) ==>
               && Paths.ParsePath(dragItem.path.value, '-').Some?
               && Remove(currentLayout, Paths.ParsePath(dragItem.path.value, '-').value).removed.Some?
    ensures dragItem.fromSidebar ==>
              layout == Insert(currentLayout, DropPath(dropZonePath).value, Node(dragItem.id, dragItem.kind, []))
    ensures IsMove(dragItem) ==>
              layout == Move(currentLayout, Paths.ParsePath(dragItem.path.value, '-').value, DropPath(dropZonePath).value)
    ensures !dragItem.fromSidebar && !IsMove(dragItem) ==> layout == currentLayout
  {
    var dropPathIndices := DropPath(dropZonePath).value;
    var newTree := currentLayout;
    var itemNode: Node;
    if dragItem.fromSidebar {
      itemNode := Node(dragItem.id, dragItem.kind, []);
    } else if dragItem.path.Some? && dragItem.path.value != "" {
      var removed;
      removed, newTree := RemoveAtPath(newTree, Paths.ParsePath(dragItem.path.value, '-').value);
      itemNode := removed.value;
    } else {
      return currentLayout;
    }
    layout := InsertAtPath(newTree, dropPathIndices, itemNode);
  }
  // ------------------------------------------------------------------
  // The "after the last child" drop zone
  // ------------------------------------------------------------------

  /** Rows and columns put a drop zone after their last child and write its path as the last
      child's own path followed by `-end` (lines 229-236 and 273-280). Once the marker is stripped,
      that path names the last child's slot, so the item lands before the last child and the last
      child moves after it. */
  lemma EndZoneInsertsBeforeLast(tree: seq<Node>, p: Path, item: Node)
    requires |p| > 1 && NodeAt(tree, Parent(p)).Some?
    requires Last(p) + 1 == |NodeAt(tree, Parent(p)).value.children|
    ensures DropPath(Paths.FormatPath(p, '-') + "-end") == Some(p)
    ensures NodeAt(Insert(tree, p, item), p) == Some(item)
    ensures NodeAt(Insert(tree, p, item), Parent(p) + [Last(p) + 1]) == NodeAt(tree, p)
  {
    EndZoneParses(p);
    InsertAtChildSlot(tree, p, item);
  }

  /** Inserting at the path of an existing child puts the item in that child's slot, and the child
      and its later siblings move one place right. */
  lemma InsertAtChildSlot(tree: seq<Node>, p: Path, item: Node)
    requires |p| > 1 && NodeAt(tree, Parent(p)).Some?
    requires Last(p) < |NodeAt(tree, Parent(p)).value.children|
    ensures NodeAt(Insert(tree, p, item), p) == Some(item)
    ensures NodeAt(Insert(tree, p, item), Parent(p) + [Last(p) + 1]) == NodeAt(tree, p)
  {
    var q := Parent(p);
    var arr := NodeAt(tree, q).value.children;
    var s := InsertAt(arr, Last(p), item);
    InsertChildrenAtParent(tree, p, item);
    var r := Insert(tree, p, item);
    assert s[Last(p)] == item && s[Last(p) + 1] == arr[Last(p)];
    assert q + [Last(p)] == p;
    ChildrenAtNode(tree, q);
    NodeAtChild(r, q, Last(p));
    NodeAtChild(r, q, Last(p) + 1);
    NodeAtChild(tree, q, Last(p));
  }

  /** Below an existing parent, the insertion splices the parent's own children. */
  lemma InsertChildrenAtParent(tree: seq<Node>, p: Path, item: Node)
    requires |p| > 1 && NodeAt(tree, Parent(p)).Some?
    ensures ChildrenAt(Insert(tree, p, item), Parent(p)) == Some(InsertAt(NodeAt(tree, Parent(p)).value.children, Last(p), item))
  {
    ChildrenAtNode(tree, Parent(p));
    assert Container(tree, p) == Parent(p);
  }

  /** The child at index `k` of the sequence a path opens. */
  lemma NodeAtChild(tree: seq<Node>, q: Path, k: nat)
    ensures NodeAt(tree, q + [k]) ==
            match ChildrenAt(tree, q)
            case None => None
            case Some(arr) => if k < |arr| then Some(arr[k]) else None
  {
    assert (q + [k])[..|q|] == q;
  }

  /** The drop path as evidently intended: a `-end` zone names the slot after the child whose path
      it carries; every other zone keeps the path it names. */
  function EndDropPath(dropZonePath: string): (r: Option<Path>)
    ensures r.Some? ==> r.value != []
  {
    var stripped := Paths.StripEnd(dropZonePath);
    match Paths.ParsePath(stripped, '-')
    case None => None
    case Some(p) => if stripped != dropZonePath then Some(Parent(p) + [Last(p) + 1]) else Some(p)
  }

  /** How both readings treat the two zone strings written for a child path. */
  lemma EndZoneParses(p: Path)
    requires |p| > 1
    ensures DropPath(Paths.FormatPath(p, '-') + "-end") == Some(p)
    ensures EndDropPath(Paths.FormatPath(p, '-') + "-end") == Some(Parent(p) + [Last(p) + 1])
    ensures EndDropPath(Paths.FormatPath(p, '-')) == DropPath(Paths.FormatPath(p, '-'))
  {
    var f := Paths.FormatPath(p, '-');
    Paths.StripEndMarker(p);
    Paths.StripEndPlain(p);
    Paths.ParseFormat(p, '-');
    assert |f + "-end"| != |f|;
  }

  /** With the corrected drop path the item dropped after the last child becomes the last child;
      the sibling order is kept and nothing off the path changes. A plain zone path is read as
      before. */
  lemma EndZoneAppends(tree: seq<Node>, p: Path, item: Node)
    requires |p| > 1 && NodeAt(tree, Parent(p)).Some?
    requires Last(p) + 1 == |NodeAt(tree, Parent(p)).value.children|
    ensures EndDropPath(Paths.FormatPath(p, '-') + "-end") == Some(Parent(p) + [Last(p) + 1])
    ensures EndDropPath(Paths.FormatPath(p, '-')) == DropPath(Paths.FormatPath(p, '-'))
    ensures var end := Parent(p) + [Last(p) + 1];
            Spliced(tree, Insert(tree, end, item), Parent(p), NodeAt(tree, Parent(p)).value.children + [item])
  {
    EndZoneParses(p);
    var q := Parent(p);
    var end := q + [Last(p) + 1];
    assert Parent(end) == q && Last(end) == Last(p) + 1;
    ChildrenAtNode(tree, q);
    assert Container(tree, end) == q;
    InsertPastEnd(Siblings(tree, end), Last(end), item);
    InsertSpliced(tree, end, item);
  }
}
