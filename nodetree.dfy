/**
 * The lambda node tree as an arena of nodes addressed by stable handles.
 *
 * A node has a name, a value, an ordered list of children and a back
 * reference to its parent.  Node identity is the handle: two nodes with the
 * same content are still different nodes.  Detached nodes stay in the arena
 * with no parent, just as a detached C# node object stays alive.
 */
module NodeTree {
  import opened Wrappers

  type NodeId = nat

  /** The scalar a node may carry; `Null` is the absent value. */
  datatype Value = Null | Int(i: int) | Text(s: string)

  datatype NodeData = NodeData(name: string, value: Value, children: seq<NodeId>, parent: Option<NodeId>)

  /** All nodes of one tree (and of what was detached from it), plus the next free handle. */
  datatype Forest = Forest(nodes: map<NodeId, NodeData>, nextId: NodeId)

  /** Every handle in use lies below the allocation counter, so new handles are fresh. */
  predicate Allocated(f: Forest)
  {
    forall k :: k in f.nodes ==> k < f.nextId
  }

  function Children(f: Forest, n: NodeId): seq<NodeId>
  {
    if n in f.nodes then f.nodes[n].children else []
  }

  /** The name of a node; a dangling handle reads as the anonymous name. */
  function Name(f: Forest, n: NodeId): string
  {
    if n in f.nodes then f.nodes[n].name else ""
  }

  function ValueOf(f: Forest, n: NodeId): Value
  {
    if n in f.nodes then f.nodes[n].value else Null
  }

  function Parent(f: Forest, n: NodeId): Option<NodeId>
  {
    if n in f.nodes then f.nodes[n].parent else None
  }

  predicate HasParent(f: Forest, n: NodeId)
  {
    Parent(f, n).Some?
  }

  function FirstChild(f: Forest, n: NodeId): Option<NodeId>
  {
    if |Children(f, n)| > 0 then Some(Children(f, n)[0]) else None
  }

  /** Position of the first occurrence of `x` in `s` (List.IndexOf). */
  function IndexOf(s: seq<NodeId>, x: NodeId): (r: Option<nat>)
    ensures r.Some? ==> r.value < |s| && s[r.value] == x
    ensures r.Some? ==> forall j :: 0 <= j < r.value ==> s[j] != x
    ensures r.None? <==> x !in s
  {
    if s == [] then None
    else if s[0] == x then Some(0)
    else match IndexOf(s[1..], x)
      case None => None
      case Some(i) => Some(i + 1)
  }

  /** Position of the first node in `ids` called `name` (the node indexer by name). */
  function FindNamed(f: Forest, ids: seq<NodeId>, name: string): (r: Option<nat>)
    ensures r.Some? ==> r.value < |ids| && Name(f, ids[r.value]) == name
    ensures r.Some? ==> forall j :: 0 <= j < r.value ==> Name(f, ids[j]) != name
    ensures r.None? ==> forall j :: 0 <= j < |ids| ==> Name(f, ids[j]) != name
  {
    if ids == [] then None
    else if Name(f, ids[0]) == name then Some(0)
    else match FindNamed(f, ids[1..], name)
      case None => None
      case Some(i) => Some(i + 1)
  }

  /** The first child of `n` called `name`, if any. */
  function ChildNamed(f: Forest, n: NodeId, name: string): Option<NodeId>
  {
    match FindNamed(f, Children(f, n), name)
    case None => None
    case Some(i) => Some(Children(f, n)[i])
  }

  /** The sibling right after `n` in its parent's children, if `n` is attached and not last. */
  function NextSibling(f: Forest, n: NodeId): Option<NodeId>
  {
    match Parent(f, n)
    case None => None
    case Some(p) =>
      var sibs := Children(f, p);
      match IndexOf(sibs, n)
      case None => None
      case Some(i) => if i + 1 < |sibs| then Some(sibs[i + 1]) else None
  }

  /**
   * The root of the tree holding `n`: parent links followed at most once per
   * node of the arena (an acyclic chain is never longer than that).
   */
  function Root(f: Forest, n: NodeId): NodeId
  {
    RootWithin(f, n, |f.nodes|)
  }

  function RootWithin(f: Forest, n: NodeId, steps: nat): NodeId
    decreases steps
  {
    if steps == 0 then n
    else match Parent(f, n)
      case None => n
      case Some(p) => RootWithin(f, p, steps - 1)
  }

  /* ---------- Mutations of the tree ---------- */

  function SetChildren(f: Forest, p: NodeId, cs: seq<NodeId>): Forest
  {
    if p in f.nodes then f.(nodes := f.nodes[p := f.nodes[p].(children := cs)]) else f
  }

  function SetParent(f: Forest, c: NodeId, p: Option<NodeId>): Forest
  {
    if c in f.nodes then f.(nodes := f.nodes[c := f.nodes[c].(parent := p)]) else f
  }

  function SetValue(f: Forest, n: NodeId, v: Value): Forest
  {
    if n in f.nodes then f.(nodes := f.nodes[n := f.nodes[n].(value := v)]) else f
  }

  /** `p.Insert(i, c)` for a node `c` that has no parent yet. */
  function InsertChild(f: Forest, p: NodeId, i: nat, c: NodeId): Forest
    requires i <= |Children(f, p)|
  {
    var cs := Children(f, p);
    SetParent(SetChildren(f, p, cs[..i] + [c] + cs[i..]), c, Some(p))
  }

  /** `p.Add(c)` for a node `c` that has no parent yet. */
  function AppendChild(f: Forest, p: NodeId, c: NodeId): Forest
  {
    SetParent(SetChildren(f, p, Children(f, p) + [c]), c, Some(p))
  }

  /** Removes the first occurrence of `x` from `s` (List.Remove). */
  function RemoveFirst(s: seq<NodeId>, x: NodeId): (r: seq<NodeId>)
    ensures x in s ==> |r| == |s| - 1
    ensures x !in s ==> r == s
  {
    match IndexOf(s, x)
    case None => s
    case Some(i) => s[..i] + s[i + 1..]
  }

  /** `c.UnTie()`: detaches `c` from its parent. */
  function UnTie(f: Forest, c: NodeId): Forest
  {
    match Parent(f, c)
    case None => f
    case Some(p) => SetParent(SetChildren(f, p, RemoveFirst(Children(f, p), c)), c, None)
  }

  /** `p.Clear()`: detaches every child of `p`. */
  function Clear(f: Forest, p: NodeId): Forest
  {
    var cs := Children(f, p);
    if p !in f.nodes then f
    else
      f.(nodes := map k | k in f.nodes ::
           if k == p then f.nodes[k].(children := [])
           else if k in cs then f.nodes[k].(parent := None)
           else f.nodes[k])
  }

  /* ---------- Deep copies ---------- */

  /** The content of a subtree, without identities. */
  datatype NodeVal = NodeVal(name: string, value: Value, kids: seq<NodeVal>)

  /** The content of the subtree at `n`, cut off `depth` levels down. */
  function Extract(f: Forest, n: NodeId, depth: nat): NodeVal
    decreases depth, 0, 0
  {
    if n !in f.nodes then NodeVal("", Null, [])
    else if depth == 0 then NodeVal(f.nodes[n].name, f.nodes[n].value, [])
    else NodeVal(f.nodes[n].name, f.nodes[n].value, ExtractAll(f, f.nodes[n].children, depth - 1))
  }

  function ExtractAll(f: Forest, ids: seq<NodeId>, depth: nat): (r: seq<NodeVal>)
    ensures |r| == |ids|
    decreases depth, 1, |ids|
  {
    if ids == [] then [] else [Extract(f, ids[0], depth)] + ExtractAll(f, ids[1..], depth)
  }

  /**
   * The content of the subtree at `n`.  Every path of distinct handles below
   * the allocation counter is shorter than the counter, so the cut-off never
   * bites in a tree.
   */
  function Snapshot(f: Forest, n: NodeId): NodeVal
  {
    Extract(f, n, f.nextId)
  }

  /** The contents of the subtrees at `ids`, one by one. */
  function Snapshots(f: Forest, ids: seq<NodeId>): (r: seq<NodeVal>)
    ensures |r| == |ids|
    ensures forall k :: 0 <= k < |ids| ==> r[k] == Snapshot(f, ids[k])
  {
    if ids == [] then [] else [Snapshot(f, ids[0])] + Snapshots(f, ids[1..])
  }

  /** Number of nodes in a content tree. */
  function Size(v: NodeVal): (r: nat)
    ensures r >= 1
    decreases v, 1
  {
    1 + SizeAll(v.kids)
  }

  function SizeAll(vs: seq<NodeVal>): nat
    decreases vs, 0
  {
    if vs == [] then 0 else Size(vs[0]) + SizeAll(vs[1..])
  }

  /** `g` holds every node of `f` unchanged, and possibly more. */
  predicate Grows(f: Forest, g: Forest)
  {
    forall k :: k in f.nodes ==> k in g.nodes && g.nodes[k] == f.nodes[k]
  }

  /** `f` with a fresh childless node holding the name and value of `v`. */
  function Opened(f: Forest, v: NodeVal, parent: Option<NodeId>): Forest
  {
    Forest(f.nodes[f.nextId := NodeData(v.name, v.value, [], parent)], f.nextId + 1)
  }

  /** Allocates fresh nodes holding the content `v`, the root under `parent`. */
  function Graft(f: Forest, v: NodeVal, parent: Option<NodeId>): (r: (Forest, NodeId))
    ensures r.1 == f.nextId && r.0.nextId == f.nextId + Size(v)
    ensures Allocated(f) ==> Allocated(r.0) && Grows(f, r.0)
    ensures Allocated(f) ==> r.1 in r.0.nodes && r.0.nodes[r.1].parent == parent
    decreases v, 1
  {
    var kids := GraftAll(Opened(f, v, parent), v.kids, f.nextId);
    (SetChildren(kids.0, f.nextId, kids.1), f.nextId)
  }

  function GraftAll(f: Forest, vs: seq<NodeVal>, parent: NodeId): (r: (Forest, seq<NodeId>))
    ensures |r.1| == |vs| && r.0.nextId == f.nextId + SizeAll(vs)
    ensures Allocated(f) ==> Allocated(r.0) && Grows(f, r.0)
    decreases vs, 0
  {
    if vs == [] then (f, [])
    else
      var first := Graft(f, vs[0], Some(parent));
      var rest := GraftAll(first.0, vs[1..], parent);
      (rest.0, [first.1] + rest.1)
  }

  /** A new tree holding a copy of `v`; its root is handle 0. */
  function Fresh(v: NodeVal): Forest
  {
    Graft(Forest(map[], 0), v, None).0
  }

  /* ---------- Content preserved ---------- */

  /**
   * The subtree at `n` has the content `v`, every child at a handle above its
   * parent (the order in which copies allocate handles).  Parent links play
   * no part in content.
   */
  predicate Shaped(f: Forest, n: NodeId, v: NodeVal)
    decreases v
  {
    && n in f.nodes
    && f.nodes[n].name == v.name && f.nodes[n].value == v.value
    && |f.nodes[n].children| == |v.kids|
    && forall i :: 0 <= i < |v.kids| ==>
         n < f.nodes[n].children[i] && Shaped(f, f.nodes[n].children[i], v.kids[i])
  }

  /** The subtree at `n`, a handle from `lo` on, has the content `v`. */
  predicate Holds(f: Forest, n: NodeId, v: NodeVal, lo: nat)
  {
    lo <= n && Shaped(f, n, v)
  }

  /** Every node of `f` from handle `lo` on keeps its name, value and children in `g`. */
  predicate Keeps(f: Forest, g: Forest, lo: nat)
  {
    forall k :: k in f.nodes && lo <= k ==>
      && k in g.nodes
      && g.nodes[k].name == f.nodes[k].name
      && g.nodes[k].value == f.nodes[k].value
      && g.nodes[k].children == f.nodes[k].children
  }

  lemma {:induction false} ShapedKept(f: Forest, g: Forest, n: NodeId, v: NodeVal)
    requires Shaped(f, n, v) && Keeps(f, g, n)
    ensures Shaped(g, n, v)
    decreases v
  {
    forall i | 0 <= i < |v.kids|
      ensures Shaped(g, g.nodes[n].children[i], v.kids[i])
    {
      ShapedKept(f, g, f.nodes[n].children[i], v.kids[i]);
    }
  }

  lemma {:induction false} HoldsKept(f: Forest, g: Forest, n: NodeId, v: NodeVal, lo: nat)
    requires Holds(f, n, v, lo) && Keeps(f, g, lo)
    ensures Holds(g, n, v, lo)
  {
    ShapedKept(f, g, n, v);
  }

  /**
   * A subtree with content `v` reads back as `v` once the cut-off reaches the
   * allocation counter: handles grow downwards, so no path is deeper.
   */
  lemma {:induction false} ExtractShaped(f: Forest, n: NodeId, v: NodeVal, depth: nat)
    requires Allocated(f) && Shaped(f, n, v) && f.nextId <= n + 1 + depth
    ensures Extract(f, n, depth) == v
    decreases v, 1
  {
    if depth > 0 {
      ExtractAllShaped(f, n, f.nodes[n].children, v.kids, depth - 1);
    }
  }

  lemma {:induction false} ExtractAllShaped(f: Forest, n: NodeId, ids: seq<NodeId>, vs: seq<NodeVal>, depth: nat)
    requires Allocated(f) && |ids| == |vs| && f.nextId <= n + 2 + depth
    requires forall i :: 0 <= i < |vs| ==> n < ids[i] && Shaped(f, ids[i], vs[i])
    ensures ExtractAll(f, ids, depth) == vs
    decreases vs, 0
  {
    if vs != [] {
      ExtractShaped(f, ids[0], vs[0], depth);
      ExtractAllShaped(f, n, ids[1..], vs[1..], depth);
    }
  }

  /** In an allocated tree, a subtree with content `v` reads back as `v`. */
  lemma {:induction false} SnapshotShaped(f: Forest, n: NodeId, v: NodeVal)
    requires Allocated(f) && Shaped(f, n, v)
    ensures Snapshot(f, n) == v
  {
    ExtractShaped(f, n, v, f.nextId);
  }

  /** A graft holds its content, in handles from the old counter on. */
  lemma {:induction false} GraftHolds(f: Forest, v: NodeVal, parent: Option<NodeId>)
    requires Allocated(f)
    ensures var r := Graft(f, v, parent); Holds(r.0, r.1, v, f.nextId)
    decreases v, 1
  {
    var id := f.nextId;
    var f1 := Opened(f, v, parent);
    var kids := GraftAll(f1, v.kids, id);
    var f3 := SetChildren(kids.0, id, kids.1);
    GraftAllHolds(f1, v.kids, id);
    GraftRoot(f, v, parent);
    SetChildrenKeeps(kids.0, id, kids.1, id + 1);
    HoldsAllKept(kids.0, f3, kids.1, v.kids, id + 1);
    HoldsAt(f3, id, v, id);
  }

  /** The root of a graft carries the name and value of the content and the grafted children. */
  lemma {:induction false} GraftRoot(f: Forest, v: NodeVal, parent: Option<NodeId>)
    requires Allocated(f)
    ensures var kids := GraftAll(Opened(f, v, parent), v.kids, f.nextId);
      var g := SetChildren(kids.0, f.nextId, kids.1);
      && Allocated(Opened(f, v, parent))
      && f.nextId in g.nodes
      && g.nodes[f.nextId] == NodeData(v.name, v.value, kids.1, parent)
  {
    var f1 := Opened(f, v, parent);
    assert Allocated(f1) && f.nextId in f1.nodes;
  }

  /** Content holds at a node whose own fields match and whose children hold their content. */
  lemma {:induction false} HoldsAt(f: Forest, n: NodeId, v: NodeVal, lo: nat)
    requires lo <= n && n in f.nodes
    requires f.nodes[n].name == v.name && f.nodes[n].value == v.value
    requires |f.nodes[n].children| == |v.kids|
    requires forall i :: 0 <= i < |v.kids| ==> Holds(f, f.nodes[n].children[i], v.kids[i], n + 1)
    ensures Holds(f, n, v, lo)
  {
    assert Shaped(f, n, v);
  }

  lemma {:induction false} SetChildrenKeeps(f: Forest, p: NodeId, cs: seq<NodeId>, lo: nat)
    requires p < lo
    ensures Keeps(f, SetChildren(f, p, cs), lo)
  {
  }

  lemma {:induction false} HoldsAllKept(f: Forest, g: Forest, ids: seq<NodeId>, vs: seq<NodeVal>, lo: nat)
    requires |ids| == |vs| && Keeps(f, g, lo)
    requires forall i :: 0 <= i < |vs| ==> Holds(f, ids[i], vs[i], lo)
    ensures forall i :: 0 <= i < |vs| ==> Holds(g, ids[i], vs[i], lo)
  {
    forall i | 0 <= i < |vs|
      ensures Holds(g, ids[i], vs[i], lo)
    {
      HoldsKept(f, g, ids[i], vs[i], lo);
    }
  }

  lemma {:induction false} GraftAllHolds(f: Forest, vs: seq<NodeVal>, parent: NodeId)
    requires Allocated(f)
    ensures var r := GraftAll(f, vs, parent);
      forall i :: 0 <= i < |vs| ==> Holds(r.0, r.1[i], vs[i], f.nextId)
    decreases vs, 0
  {
    if vs != [] {
      assert vs == [vs[0]] + vs[1..];
      var first := Graft(f, vs[0], Some(parent));
      var tail := GraftAll(first.0, vs[1..], parent);
      assert GraftAll(f, vs, parent) == (tail.0, [first.1] + tail.1);
      assert Holds(tail.0, first.1, vs[0], f.nextId) by {
        GraftHolds(f, vs[0], Some(parent));
        HoldsKept(first.0, tail.0, first.1, vs[0], f.nextId);
      }
      assert forall j :: 0 <= j < |tail.1| ==> Holds(tail.0, tail.1[j], vs[1..][j], f.nextId) by {
        GraftAllHolds(first.0, vs[1..], parent);
      }
      HoldsCons(tail.0, first.1, vs[0], tail.1, vs[1..], f.nextId);
    }
  }

  /** Cloning preserves content: the graft of `v` reads back as `v`. */
  lemma {:induction false} GraftRoundTrip(f: Forest, v: NodeVal, parent: Option<NodeId>)
    requires Allocated(f)
    ensures var r := Graft(f, v, parent); Snapshot(r.0, r.1) == v
  {
    var r := Graft(f, v, parent);
    GraftHolds(f, v, parent);
    SnapshotShaped(r.0, r.1, v);
  }

  /* ---------- Adding copies under a node ---------- */

  /** `p.Add(v.Clone())` for a content `v`: a fresh copy appended as the last child of `p`. */
  function AppendClone(f: Forest, p: NodeId, v: NodeVal): Forest
  {
    var g := Graft(f, v, Some(p));
    AppendChild(g.0, p, g.1)
  }

  /** `p.AddRange` of fresh copies of `vs`, in order. */
  function AppendAll(f: Forest, p: NodeId, vs: seq<NodeVal>): Forest
    decreases |vs|
  {
    if vs == [] then f else AppendAll(AppendClone(f, p, vs[0]), p, vs[1..])
  }

  /** Adding `c` under `p` changes the children of `p` and the parent of `c`, nothing else. */
  lemma {:induction false} AppendChildFacts(f: Forest, p: NodeId, c: NodeId)
    requires p in f.nodes && c in f.nodes && p != c
    ensures var g := AppendChild(f, p, c);
      && g.nextId == f.nextId
      && (forall k :: k in g.nodes <==> k in f.nodes)
      && g.nodes[p] == f.nodes[p].(children := f.nodes[p].children + [c])
      && g.nodes[c] == f.nodes[c].(parent := Some(p))
      && (forall k :: k in f.nodes && k != p && k != c ==> g.nodes[k] == f.nodes[k])
  {
  }

  /**
   * Appending a copy of `v` under `p` adds one child at the end holding `v`
   * and leaves every other node of the tree as it was.
   */
  lemma {:induction false} AppendCloneFacts(f: Forest, p: NodeId, v: NodeVal)
    requires Allocated(f) && p in f.nodes
    ensures var r := AppendClone(f, p, v);
      && Allocated(r) && r.nextId == f.nextId + Size(v)
      && p in r.nodes && r.nodes[p] == f.nodes[p].(children := f.nodes[p].children + [f.nextId])
      && (forall k :: k in f.nodes && k != p ==> k in r.nodes && r.nodes[k] == f.nodes[k])
      && Holds(r, f.nextId, v, f.nextId)
  {
    var g := Graft(f, v, Some(p));
    GraftHolds(f, v, Some(p));
    AppendChildFacts(g.0, p, g.1);
    var r := AppendChild(g.0, p, g.1);
    assert Keeps(g.0, r, f.nextId);
    HoldsKept(g.0, r, g.1, v, f.nextId);
  }

  /**
   * Appending copies of `vs` under `p` adds exactly |vs| children at the end
   * and leaves every other node as it was.
   */
  lemma {:induction false} AppendAllFrame(f: Forest, p: NodeId, vs: seq<NodeVal>)
    requires Allocated(f) && p in f.nodes
    ensures var r := AppendAll(f, p, vs); var cs := Children(f, p);
      && Allocated(r) && r.nextId == f.nextId + SizeAll(vs)
      && p in r.nodes && r.nodes[p] == f.nodes[p].(children := r.nodes[p].children)
      && |Children(r, p)| == |cs| + |vs| && Children(r, p)[..|cs|] == cs
      && (forall k :: k in f.nodes && k != p ==> k in r.nodes && r.nodes[k] == f.nodes[k])
    decreases |vs|
  {
    if vs != [] {
      var g := AppendClone(f, p, vs[0]);
      AppendCloneFacts(f, p, vs[0]);
      AppendAllFrame(g, p, vs[1..]);
      var r := AppendAll(g, p, vs[1..]);
      var cs := Children(f, p);
      assert Children(r, p)[..|cs| + 1] == cs + [f.nextId];
      assert Children(r, p)[..|cs|] == (cs + [f.nextId])[..|cs|];
    }
  }

  /** A node that changes nothing below `lo` but one node under it keeps everything from `lo` on. */
  lemma {:induction false} FrameKeeps(f: Forest, g: Forest, p: NodeId, lo: nat)
    requires p < lo
    requires forall k :: k in f.nodes && k != p ==> k in g.nodes && g.nodes[k] == f.nodes[k]
    ensures Keeps(f, g, lo)
  {
  }

  /** The i-th appended child holds `vs[i]`. */
  lemma {:induction false} AppendAllHolds(f: Forest, p: NodeId, vs: seq<NodeVal>)
    requires Allocated(f) && p in f.nodes
    ensures var r := AppendAll(f, p, vs); var n := |Children(f, p)|;
      && |Children(r, p)| == n + |vs|
      && forall i :: 0 <= i < |vs| ==> Holds(r, Children(r, p)[n..][i], vs[i], f.nextId)
    decreases |vs|
  {
    AppendAllFrame(f, p, vs);
    if vs != [] {
      assert vs == [vs[0]] + vs[1..];
      var g := AppendClone(f, p, vs[0]);
      var r := AppendAll(g, p, vs[1..]);
      assert AppendAll(f, p, vs) == r;
      var n := |Children(f, p)|;
      AppendCloneFacts(f, p, vs[0]);
      AppendAllFrame(g, p, vs[1..]);
      AppendAllHolds(g, p, vs[1..]);
      var added := Children(r, p)[n + 1..];
      SplitAfter(Children(r, p), Children(f, p), f.nextId);
      FrameKeeps(g, r, p, f.nextId);
      HoldsKept(g, r, f.nextId, vs[0], f.nextId);

      HoldsCons(r, f.nextId, vs[0], added, vs[1..], f.nextId);
    }
  }

  lemma {:induction false} SplitAfter(s: seq<NodeId>, pre: seq<NodeId>, c: NodeId)
    requires |s| > |pre| && s[..|pre| + 1] == pre + [c]
    ensures s[|pre|..] == [c] + s[|pre| + 1..]
  {
    assert s[|pre|] == s[..|pre| + 1][|pre|];
  }

  lemma {:induction false} HoldsCons(f: Forest, c: NodeId, v: NodeVal, ids: seq<NodeId>, vs: seq<NodeVal>, lo: nat)
    requires Holds(f, c, v, lo) && |ids| == |vs|
    requires forall i :: 0 <= i < |vs| ==> Holds(f, ids[i], vs[i], lo)
    ensures forall i :: 0 <= i < |vs| + 1 ==> Holds(f, ([c] + ids)[i], ([v] + vs)[i], lo)
  {
    forall i | 0 <= i < |vs| + 1
      ensures Holds(f, ([c] + ids)[i], ([v] + vs)[i], lo)
    {
      if i > 0 {
        assert ([c] + ids)[i] == ids[i - 1] && ([v] + vs)[i] == vs[i - 1];
      }
    }
  }

  /** Appended copies read back as the contents they were made from. */
  lemma {:induction false} AppendAllRoundTrip(f: Forest, p: NodeId, vs: seq<NodeVal>)
    requires Allocated(f) && p in f.nodes
    ensures var r := AppendAll(f, p, vs); var n := |Children(f, p)|;
      && |Children(r, p)| == n + |vs|
      && Children(r, p) == Children(f, p) + Children(r, p)[n..]
      && forall i :: 0 <= i < |vs| ==> Snapshot(r, Children(r, p)[n..][i]) == vs[i]
  {
    var r := AppendAll(f, p, vs);
    var n := |Children(f, p)|;
    AppendAllFrame(f, p, vs);
    AppendAllHolds(f, p, vs);
    assert Children(r, p) == Children(r, p)[..n] + Children(r, p)[n..];
    forall i | 0 <= i < |vs|
      ensures Snapshot(r, Children(r, p)[n..][i]) == vs[i]
    {
      SnapshotShaped(r, Children(r, p)[n..][i], vs[i]);
    }
  }

  /* ---------- Detaching ---------- */

  /** Clearing `p` empties its children, orphans them, and changes nothing else. */
  lemma {:induction false} ClearFacts(f: Forest, p: NodeId)
    requires p in f.nodes
    ensures var g := Clear(f, p); var cs := Children(f, p);
      && g.nextId == f.nextId
      && (forall k :: k in g.nodes <==> k in f.nodes)
      && g.nodes[p] == f.nodes[p].(children := [])
      && (forall k :: k in f.nodes && k != p && k in cs ==> g.nodes[k] == f.nodes[k].(parent := None))
      && (forall k :: k in f.nodes && k != p && k !in cs ==> g.nodes[k] == f.nodes[k])
  {
  }

  /**
   * Untying the first child `c` of `p`, whose parent link names `p`, removes
   * exactly that one child from the front and orphans it.
   */
  lemma {:induction false} UnTieFirst(f: Forest, p: NodeId, c: NodeId)
    requires FirstChild(f, p) == Some(c) && Parent(f, c) == Some(p)
    ensures var g := UnTie(f, c);
      && Children(g, p) == Children(f, p)[1..]
      && Parent(g, c) == None
      && g.nextId == f.nextId
      && (forall k :: k in g.nodes <==> k in f.nodes)
      && (forall k :: k in f.nodes && k != p && k != c ==> g.nodes[k] == f.nodes[k])
  {
    assert IndexOf(Children(f, p), c) == Some(0);
  }

  /** One mutable node tree. */
  class Tree {
    var forest: Forest

    constructor (f: Forest)
      ensures forest == f
    {
      forest := f;
    }
  }
}
