/**
 * The two block runners of the lambda evaluator and the scope entry that
 * drives them.
 *
 * Copy mode runs a deep copy of the block, with copies of the arguments put
 * in front of its children, and hands back to the caller's destination node
 * only the nodes the run created, plus the copy's final value.  Mutable mode
 * appends copies of the arguments to the block itself and runs it in place.
 */
module Blocks {
  import opened Wrappers
  import opened NodeTree
  import opened Eval

  /**
   * Something to run: a node of the caller's tree, or a node resolved from a
   * value, which belongs to no tree of the caller.
   */
  datatype Source = Node(id: NodeId) | Detached(content: NodeVal)

  /** `exe.Clone()`: the content of what is to be run. */
  function Content(f: Forest, src: Source): NodeVal
  {
    match src
    case Node(id) => Snapshot(f, id)
    case Detached(v) => v
  }

  /* ---------- Copy mode ---------- */

  /** `exeCopy.Insert(0, v.Clone())`, the copy's root being handle 0. */
  function PrependClone(s: Forest, v: NodeVal): Forest
  {
    var g := Graft(s, v, Some(0));
    InsertChild(g.0, 0, 0, g.1)
  }

  /** The copy after `vs[i..]` were put in front, last one first. */
  function PrependFrom(s: Forest, vs: seq<NodeVal>, i: nat): Forest
    requires i <= |vs|
    decreases |vs| - i
  {
    if i == |vs| then s else PrependClone(PrependFrom(s, vs, i + 1), vs[i])
  }

  /** The working copy of a copy-mode run: the block with its arguments in front. */
  function WorkingCopy(f: Forest, exe: Source, args: seq<NodeId>): Forest
  {
    PrependFrom(Fresh(Content(f, exe)), Snapshots(f, args), 0)
  }

  /** Detaches the first child of `exe` when it is a `_return` sentinel. */
  function StripReturn(f: Forest, exe: NodeId): Forest
  {
    match FirstChild(f, exe)
    case None => f
    case Some(c) => if Name(f, c) == "_return" then UnTie(f, c) else f
  }

  /** The nodes of `cur` that are not in `orig`, in their order in `cur`. */
  function NewChildren(cur: seq<NodeId>, orig: seq<NodeId>): (r: seq<NodeId>)
    ensures forall c :: c in r <==> c in cur && c !in orig
    ensures |r| <= |cur|
  {
    if cur == [] then []
    else (if cur[0] in orig then [] else [cur[0]]) + NewChildren(cur[1..], orig)
  }

  /**
   * Hands the result of a copy-mode run to `evalNode`: its children are
   * cleared on the first call only, copies of the new nodes are appended,
   * and it takes the copy's value.
   */
  function Deliver(f: Forest, evalNode: NodeId, copy: Forest, added: seq<NodeId>, isFirst: bool): Forest
  {
    var base := if isFirst then Clear(f, evalNode) else f;
    SetValue(AppendAll(base, evalNode, Snapshots(copy, added)), evalNode, ValueOf(copy, 0))
  }

  /** ExecuteBlockCopy as a function of the caller's tree: the outcome and the caller's new tree. */
  function CopyRun(f: Forest, exe: Source, evalNode: NodeId, args: seq<NodeId>, isFirst: bool,
                   asInt: Value -> int, dispatch: Dispatch, fuel: nat): (r: (Outcome, Forest))
    ensures r.0 == RunBlock(WorkingCopy(f, exe, args), 0, asInt, dispatch, fuel).outcome
    ensures !Completed(r.0) ==> r.1 == f
  {
    var start := WorkingCopy(f, exe, args);
    var run := RunBlock(start, 0, asInt, dispatch, fuel);
    if !Completed(run.outcome) then (run.outcome, f)
    else
      var done := StripReturn(run.forest, 0);
      (run.outcome, Deliver(f, evalNode, done, NewChildren(Children(done, 0), Children(start, 0)), isFirst))
  }

  /** `exe.Clone()` followed by the insertion of copies of `args` in front, last one first. */
  method PrepareCopy(t: Tree, exe: Source, args: seq<NodeId>) returns (exeCopy: Tree)
    ensures fresh(exeCopy)
    ensures exeCopy.forest == WorkingCopy(t.forest, exe, args)
  {
    ghost var vs := Snapshots(t.forest, args);
    ghost var blank := Fresh(Content(t.forest, exe));
    exeCopy := new Tree(Fresh(Content(t.forest, exe)));
    var i := |args|;
    while i > 0
      invariant 0 <= i <= |args|
      invariant exeCopy.forest == PrependFrom(blank, vs, i)
      modifies exeCopy
      decreases i
    {
      i := i - 1;
      ghost var prev := exeCopy.forest;
      var g := Graft(exeCopy.forest, Snapshot(t.forest, args[i]), Some(0));
      exeCopy.forest := InsertChild(g.0, 0, 0, g.1);
      assert vs[i] == Snapshot(t.forest, args[i]);
      assert exeCopy.forest == PrependClone(prev, vs[i]);
    }
  }

  /** Detaches a leading `_return` child of `exe`. */
  method StripLeadingReturn(t: Tree, exe: NodeId)
    modifies t
    ensures t.forest == StripReturn(old(t.forest), exe)
  {
    var first := FirstChild(t.forest, exe);
    if first.Some? && Name(t.forest, first.value) == "_return" {
      t.forest := UnTie(t.forest, first.value);
    }
  }

  /** `p.AddRange` of copies of the nodes `added` of tree `from`. */
  method AddCopies(t: Tree, p: NodeId, from: Tree, added: seq<NodeId>)
    requires from != t
    modifies t
    ensures t.forest == AppendAll(old(t.forest), p, Snapshots(from.forest, added))
  {
    ghost var copies := Snapshots(from.forest, added);
    ghost var goal := AppendAll(t.forest, p, copies);
    var j := 0;
    while j < |added|
      invariant 0 <= j <= |added|
      invariant AppendAll(t.forest, p, copies[j..]) == goal
    {
      assert copies[j..] == [copies[j]] + copies[j + 1..];
      t.forest := AppendClone(t.forest, p, Snapshot(from.forest, added[j]));
      j := j + 1;
    }
  }

  /** Runs a copy of `exe` with copies of `args` in front and returns what it created to `evalNode`. */
  method ExecuteBlockCopy(t: Tree, exe: Source, evalNode: NodeId, args: seq<NodeId>, isFirst: bool,
                          asInt: Value -> int, dispatch: Dispatch, fuel: nat)
    returns (outcome: Outcome)
    modifies t
    ensures (outcome, t.forest) == CopyRun(old(t.forest), exe, evalNode, args, isFirst, asInt, dispatch, fuel)
  {
    var exeCopy := PrepareCopy(t, exe, args);
    var originalNodes := Children(exeCopy.forest, 0);
    outcome := ExecuteAll(exeCopy, 0, asInt, dispatch, fuel);
    if !Completed(outcome) {
      return;
    }
    StripLeadingReturn(exeCopy, 0);
    if isFirst {
      t.forest := Clear(t.forest, evalNode);
    }
    var added := NewChildren(Children(exeCopy.forest, 0), originalNodes);
    AddCopies(t, evalNode, exeCopy, added);
    t.forest := SetValue(t.forest, evalNode, ValueOf(exeCopy.forest, 0));
  }

  /* ---------- Properties of copy mode ---------- */

  /** Putting a copy of `v` in front of the root's children adds one fresh child, first. */
  lemma {:induction false} PrependCloneChildren(s: Forest, v: NodeVal)
    requires Allocated(s) && 0 in s.nodes
    ensures var r := PrependClone(s, v);
      && Allocated(r) && 0 in r.nodes
      && Children(r, 0) == [s.nextId] + Children(s, 0)
  {
    var cs := Children(s, 0);
    assert cs[..0] + [s.nextId] + cs[0..] == [s.nextId] + cs;
  }

  /** The new first child holds `v`, and the root's other children keep their content. */
  lemma {:induction false} PrependCloneShape(s: Forest, v: NodeVal, name: string, value: Value, ks: seq<NodeVal>)
    requires Allocated(s) && Shaped(s, 0, NodeVal(name, value, ks))
    ensures Shaped(PrependClone(s, v), 0, NodeVal(name, value, [v] + ks))
  {
    var g := Graft(s, v, Some(0));
    var r := PrependClone(s, v);
    var cs := Children(s, 0);
    PrependCloneChildren(s, v);
    GraftHolds(s, v, Some(0));
    assert Keeps(g.0, r, 1);
    assert Keeps(s, r, 1);
    assert Holds(r, s.nextId, v, 1) by {
      HoldsKept(g.0, r, s.nextId, v, 1);
    }
    assert forall j :: 0 <= j < |ks| ==> Holds(r, cs[j], ks[j], 1) by {
      forall j | 0 <= j < |ks|
        ensures Holds(r, cs[j], ks[j], 1)
      {
        HoldsKept(s, r, cs[j], ks[j], 1);
      }
    }
    HoldsCons(r, s.nextId, v, cs, ks, 1);
    HoldsAt(r, 0, NodeVal(name, value, [v] + ks), 0);
  }

  /** After `vs[i..]` were put in front, the root's own children follow them with their handles unchanged. */
  lemma {:induction false} PrependFromChildren(s: Forest, vs: seq<NodeVal>, i: nat)
    requires i <= |vs| && Allocated(s) && 0 in s.nodes
    ensures var r := PrependFrom(s, vs, i);
      && Allocated(r) && 0 in r.nodes
      && |Children(r, 0)| == |vs| - i + |Children(s, 0)|
      && Children(r, 0)[|vs| - i..] == Children(s, 0)
    decreases |vs| - i
  {
    if i < |vs| {
      var m := PrependFrom(s, vs, i + 1);
      var n := |vs| - (i + 1);
      PrependFromChildren(s, vs, i + 1);
      PrependCloneChildren(m, vs[i]);
      assert ([m.nextId] + Children(m, 0))[n + 1..] == Children(m, 0)[n..];
    }
  }

  /** After `vs[i..]` were put in front, the root holds their contents before its own. */
  lemma {:induction false} PrependFromShape(s: Forest, vs: seq<NodeVal>, i: nat, name: string, value: Value, ks: seq<NodeVal>)
    requires i <= |vs| && Allocated(s) && Shaped(s, 0, NodeVal(name, value, ks))
    ensures Shaped(PrependFrom(s, vs, i), 0, NodeVal(name, value, vs[i..] + ks))
    decreases |vs| - i
  {
    if i < |vs| {
      var m := PrependFrom(s, vs, i + 1);
      var tail := vs[i + 1..] + ks;
      assert vs[i..] + ks == [vs[i]] + tail;
      PrependFromChildren(s, vs, i + 1);
      PrependFromShape(s, vs, i + 1, name, value, ks);
      PrependCloneShape(m, vs[i], name, value, tail);
    }
  }

  /**
   * The working copy of a copy-mode run is the block with the argument
   * contents in front of its own children, and nothing beneath a dangling handle.
   */
  lemma CopyPrependsArgs(f: Forest, exe: Source, args: seq<NodeId>)
    ensures var w := WorkingCopy(f, exe, args); var c := Content(f, exe);
      && Allocated(w)
      && Snapshot(w, 0) == NodeVal(c.name, c.value, Snapshots(f, args) + c.kids)
      && |Children(w, 0)| == |args| + |c.kids|
  {
    var c := Content(f, exe);
    var vs := Snapshots(f, args);
    var s := Fresh(c);
    GraftHolds(Forest(map[], 0), c, None);
    PrependFromChildren(s, vs, 0);
    PrependFromShape(s, vs, 0, c.name, c.value, c.kids);
    assert vs[0..] == vs;
    SnapshotShaped(WorkingCopy(f, exe, args), 0, NodeVal(c.name, c.value, vs + c.kids));
  }

  /** The children of the destination that survive delivery. */
  function Kept(f: Forest, evalNode: NodeId, isFirst: bool): seq<NodeId>
  {
    if isFirst then [] else Children(f, evalNode)
  }

  /** The destination before delivery: cleared on the first call only. */
  lemma {:induction false} DeliveryBase(f: Forest, evalNode: NodeId, isFirst: bool)
    requires Allocated(f) && evalNode in f.nodes
    ensures var base := if isFirst then Clear(f, evalNode) else f;
      && Allocated(base) && evalNode in base.nodes && base.nextId == f.nextId
      && Children(base, evalNode) == (if isFirst then [] else Children(f, evalNode))
      && base.nodes[evalNode] == f.nodes[evalNode].(children := Children(base, evalNode))
      && (forall k :: k in f.nodes && k != evalNode && (isFirst ==> k !in Children(f, evalNode)) ==>
            k in base.nodes && base.nodes[k] == f.nodes[k])
  {
    ClearFacts(f, evalNode);
  }

  /** Appending copies of `vs` under `p` and then setting its value. */
  lemma {:induction false} AppendThenSet(b: Forest, p: NodeId, vs: seq<NodeVal>, v: Value)
    requires Allocated(b) && p in b.nodes
    ensures var g := SetValue(AppendAll(b, p, vs), p, v); var n := |Children(b, p)|;
      && Allocated(g) && p in g.nodes
      && |Children(g, p)| == n + |vs|
      && Children(g, p)[..n] == Children(b, p)
      && Snapshots(g, Children(g, p)[n..]) == vs
      && ValueOf(g, p) == v && Name(g, p) == Name(b, p)
      && (forall k :: k in b.nodes && k != p ==> k in g.nodes && g.nodes[k] == b.nodes[k])
  {
    var a := AppendAll(b, p, vs);
    var g := SetValue(a, p, v);
    var n := |Children(b, p)|;
    AppendAllFrame(b, p, vs);
    AppendAllHolds(b, p, vs);
    assert Keeps(a, g, b.nextId);
    forall i | 0 <= i < |vs|
      ensures Snapshot(g, Children(g, p)[n..][i]) == vs[i]
    {
      var c := Children(a, p)[n..][i];
      HoldsKept(a, g, c, vs[i], b.nextId);
      SnapshotShaped(g, c, vs[i]);
    }
  }

  /**
   * Delivery to `evalNode`: its old children are kept (dropped on the first
   * call), copies of the added nodes follow with their contents, it takes
   * the copy's value, and no other node of the caller changes but the
   * orphaned old children.
   */
  lemma {:induction false} DeliverFacts(f: Forest, evalNode: NodeId, copy: Forest, added: seq<NodeId>, isFirst: bool)
    requires Allocated(f) && evalNode in f.nodes
    ensures var g := Deliver(f, evalNode, copy, added, isFirst); var kept := Kept(f, evalNode, isFirst);
      && Allocated(g) && evalNode in g.nodes
      && |Children(g, evalNode)| == |kept| + |added|
      && Children(g, evalNode)[..|kept|] == kept
      && Snapshots(g, Children(g, evalNode)[|kept|..]) == Snapshots(copy, added)
      && ValueOf(g, evalNode) == ValueOf(copy, 0)
      && Name(g, evalNode) == Name(f, evalNode)
      && (forall k :: k in f.nodes && k != evalNode && (isFirst ==> k !in Children(f, evalNode)) ==>
            k in g.nodes && g.nodes[k] == f.nodes[k])
  {
    var base := if isFirst then Clear(f, evalNode) else f;
    DeliveryBase(f, evalNode, isFirst);
    AppendThenSet(base, evalNode, Snapshots(copy, added), ValueOf(copy, 0));
  }

  /** Nodes that were all there before are no new nodes. */
  lemma NewChildrenNone(cur: seq<NodeId>, orig: seq<NodeId>)
    requires forall c :: c in cur ==> c in orig
    ensures NewChildren(cur, orig) == []
  {
  }

  /** Nodes added after the original ones, none of them original, are exactly the new nodes. */
  lemma {:induction false} NewChildrenAppended(orig: seq<NodeId>, extra: seq<NodeId>)
    requires forall c :: c in extra ==> c !in orig
    ensures NewChildren(orig + extra, orig) == extra
  {
    NewChildrenDrop(orig, orig, extra);
    NewChildrenKeep(extra, orig);
  }

  /**
   * The diff distributes over concatenation: it keeps the new nodes of each
   * part in place, so the delivered nodes come in the copy's order.
   */
  lemma {:induction false} NewChildrenConcat(a: seq<NodeId>, b: seq<NodeId>, orig: seq<NodeId>)
    ensures NewChildren(a + b, orig) == NewChildren(a, orig) + NewChildren(b, orig)
    decreases |a|
  {
    if a == [] {
      assert a + b == b;
    } else {
      assert (a + b)[0] == a[0] && (a + b)[1..] == a[1..] + b;
      NewChildrenConcat(a[1..], b, orig);
    }
  }

  lemma {:induction false} NewChildrenDrop(pre: seq<NodeId>, orig: seq<NodeId>, rest: seq<NodeId>)
    requires forall c :: c in pre ==> c in orig
    ensures NewChildren(pre + rest, orig) == NewChildren(rest, orig)
    decreases |pre|
  {
    if pre == [] {
      assert pre + rest == rest;
    } else {
      assert (pre + rest)[0] == pre[0] && (pre + rest)[1..] == pre[1..] + rest;
      NewChildrenDrop(pre[1..], orig, rest);
    }
  }

  lemma {:induction false} NewChildrenKeep(extra: seq<NodeId>, orig: seq<NodeId>)
    requires forall c :: c in extra ==> c !in orig
    ensures NewChildren(extra, orig) == extra
    decreases |extra|
  {
    if extra != [] {
      NewChildrenKeep(extra[1..], orig);
      assert extra == [extra[0]] + extra[1..];
    }
  }

  /** A leading `_return` attached to `exe` is detached; otherwise the children of `exe` stay. */
  lemma StripReturnFacts(f: Forest, exe: NodeId)
    ensures var g := StripReturn(f, exe); var first := FirstChild(f, exe);
      && (first.Some? && Name(f, first.value) == "_return" && Parent(f, first.value) == Some(exe) ==>
            Children(g, exe) == Children(f, exe)[1..] && !HasParent(g, first.value))
      && (first.None? || Name(f, first.value) != "_return" ==> g == f)
      && (forall c :: c in Children(g, exe) ==> c in Children(f, exe))
      && (forall k :: ValueOf(g, k) == ValueOf(f, k) && Name(g, k) == Name(f, k))
  {
    var first := FirstChild(f, exe);
    if first.Some? && Name(f, first.value) == "_return" {
      var c := first.value;
      if Parent(f, c) == Some(exe) {
        UnTieFirst(f, exe, c);
        forall x | x in Children(f, exe)[1..]
          ensures x in Children(f, exe)
        {
          var j :| 0 <= j < |Children(f, exe)[1..]| && Children(f, exe)[1..][j] == x;
          assert Children(f, exe)[j + 1] == x;
        }
      }
    }
  }

  /**
   * What a copy-mode run does to the caller: nothing when the run threw,
   * and otherwise a delivery of copies of exactly the nodes that are
   * children of the copy's root after the run (its `_return` stripped) and
   * were not there before it, with the copy's final value.
   */
  lemma {:induction false} CopyDelivers(f: Forest, exe: Source, evalNode: NodeId, args: seq<NodeId>, isFirst: bool,
                                        asInt: Value -> int, dispatch: Dispatch, fuel: nat)
    requires Allocated(f) && evalNode in f.nodes
    ensures var r := CopyRun(f, exe, evalNode, args, isFirst, asInt, dispatch, fuel);
      var start := WorkingCopy(f, exe, args);
      var run := RunBlock(start, 0, asInt, dispatch, fuel);
      var done := StripReturn(run.forest, 0);
      var added := NewChildren(Children(done, 0), Children(start, 0));
      var kept := Kept(f, evalNode, isFirst);
      && r.0 == run.outcome
      && (!Completed(run.outcome) ==> r.1 == f)
      && (Completed(run.outcome) ==>
            && Allocated(r.1) && evalNode in r.1.nodes
            && (forall c :: c in added <==> c in Children(done, 0) && c !in Children(start, 0))
            && |Children(r.1, evalNode)| == |kept| + |added|
            && Children(r.1, evalNode)[..|kept|] == kept
            && Snapshots(r.1, Children(r.1, evalNode)[|kept|..]) == Snapshots(done, added)
            && ValueOf(r.1, evalNode) == ValueOf(done, 0)
            && (forall k :: k in f.nodes && k != evalNode && (isFirst ==> k !in Children(f, evalNode)) ==>
                  k in r.1.nodes && r.1.nodes[k] == f.nodes[k]))
  {
    var start := WorkingCopy(f, exe, args);
    var run := RunBlock(start, 0, asInt, dispatch, fuel);
    var done := StripReturn(run.forest, 0);
    var added := NewChildren(Children(done, 0), Children(start, 0));
    if Completed(run.outcome) {
      DeliverFacts(f, evalNode, done, added, isFirst);
    }
  }

  /**
   * A run that leaves its copy as it found it creates nothing: the caller
   * gets no new children, and the block's own value.
   */
  lemma {:induction false} UnchangedCopyReturnsNothing(f: Forest, exe: Source, evalNode: NodeId, args: seq<NodeId>, isFirst: bool,
                                                       asInt: Value -> int, dispatch: Dispatch, fuel: nat)
    requires Allocated(f) && evalNode in f.nodes
    requires var start := WorkingCopy(f, exe, args); var run := RunBlock(start, 0, asInt, dispatch, fuel);
      Completed(run.outcome) && run.forest == start
    ensures var r := CopyRun(f, exe, evalNode, args, isFirst, asInt, dispatch, fuel);
      && Children(r.1, evalNode) == Kept(f, evalNode, isFirst)
      && ValueOf(r.1, evalNode) == Content(f, exe).value
  {
    var start := WorkingCopy(f, exe, args);
    var run := RunBlock(start, 0, asInt, dispatch, fuel);
    var done := StripReturn(run.forest, 0);
    StripReturnFacts(start, 0);
    NewChildrenNone(Children(done, 0), Children(start, 0));
    DeliverFacts(f, evalNode, done, [], isFirst);
    CopyPrependsArgs(f, exe, args);
    var kept := Kept(f, evalNode, isFirst);
    var g := CopyRun(f, exe, evalNode, args, isFirst, asInt, dispatch, fuel).1;
    assert Children(g, evalNode) == Children(g, evalNode)[..|kept|];
  }

  /* ---------- Mutable mode ---------- */

  /** `foreach (idx in args) p.Add(idx.Clone())`, each copy taken from the tree as it is then. */
  function AppendClonesOf(f: Forest, p: NodeId, ids: seq<NodeId>): Forest
    decreases |ids|
  {
    if ids == [] then f else AppendClonesOf(AppendClone(f, p, Snapshot(f, ids[0])), p, ids[1..])
  }

  /**
   * ExecuteBlockMutable as a function of the caller's tree.  A block that
   * belongs to the caller's tree is changed in place, even when its run
   * fails; a detached block changes nothing the caller can see.
   */
  function MutableRun(f: Forest, exe: Source, args: seq<NodeId>,
                      asInt: Value -> int, dispatch: Dispatch, fuel: nat): (r: (Outcome, Forest))
    ensures exe.Detached? ==> r.1 == f
    ensures exe.Node? ==> r.0 == RunBlock(AppendClonesOf(f, exe.id, args), exe.id, asInt, dispatch, fuel).outcome
  {
    match exe
    case Node(id) =>
      var run := RunBlock(AppendClonesOf(f, id, args), id, asInt, dispatch, fuel);
      (run.outcome, if Completed(run.outcome) then StripReturn(run.forest, id) else run.forest)
    case Detached(v) =>
      var run := RunBlock(AppendAll(Fresh(v), 0, Snapshots(f, args)), 0, asInt, dispatch, fuel);
      (run.outcome, f)
  }

  /** `foreach (idx in args) p.Add(idx.Clone())` on the tree that holds `p`. */
  method AddArguments(t: Tree, p: NodeId, args: seq<NodeId>)
    modifies t
    ensures t.forest == AppendClonesOf(old(t.forest), p, args)
  {
    ghost var goal := AppendClonesOf(t.forest, p, args);
    var i := 0;
    while i < |args|
      invariant 0 <= i <= |args|
      invariant AppendClonesOf(t.forest, p, args[i..]) == goal
    {
      assert args[i..][1..] == args[i + 1..];
      t.forest := AppendClone(t.forest, p, Snapshot(t.forest, args[i]));
      i := i + 1;
    }
  }

  /** Appends copies of `args` to `exe` and runs it in place. */
  method ExecuteBlockMutable(t: Tree, exe: Source, args: seq<NodeId>,
                             asInt: Value -> int, dispatch: Dispatch, fuel: nat)
    returns (outcome: Outcome)
    modifies t
    ensures (outcome, t.forest) == MutableRun(old(t.forest), exe, args, asInt, dispatch, fuel)
  {
    if exe.Node? {
      AddArguments(t, exe.id, args);
      outcome := ExecuteAll(t, exe.id, asInt, dispatch, fuel);
      if Completed(outcome) {
        StripLeadingReturn(t, exe.id);
      }
    } else {
      var block := new Tree(Fresh(exe.content));
      AddCopies(block, 0, t, args);
      outcome := ExecuteAll(block, 0, asInt, dispatch, fuel);
      if Completed(outcome) {
        StripLeadingReturn(block, 0);
      }
    }
  }

  /* ---------- Properties of mutable mode ---------- */

  /**
   * `g` is `f` with one fresh node per argument appended under `p`, in order,
   * each with the name and value of its argument, and no other node changed.
   */
  predicate Appended(f: Forest, g: Forest, p: NodeId, args: seq<NodeId>)
  {
    var n := |Children(f, p)|;
    && Allocated(g) && p in g.nodes
    && |Children(g, p)| == n + |args|
    && Children(g, p)[..n] == Children(f, p)
    && (forall i :: 0 <= i < |args| ==>
          f.nextId <= Children(g, p)[n..][i] && Children(g, p)[n..][i] in g.nodes
          && Name(g, Children(g, p)[n..][i]) == Name(f, args[i])
          && ValueOf(g, Children(g, p)[n..][i]) == ValueOf(f, args[i]))
    && (forall k :: k in f.nodes ==> Name(g, k) == Name(f, k) && ValueOf(g, k) == ValueOf(f, k))
    && (forall k :: k in f.nodes && k != p ==> k in g.nodes && g.nodes[k] == f.nodes[k])
  }

  lemma {:induction false} AppendedOne(f: Forest, p: NodeId, a: NodeId)
    requires Allocated(f) && p in f.nodes && a in f.nodes
    ensures Appended(f, AppendClone(f, p, Snapshot(f, a)), p, [a])
  {
    var v := Snapshot(f, a);
    var m := AppendClone(f, p, v);
    var n := |Children(f, p)|;
    AppendCloneFacts(f, p, v);
    assert Children(m, p)[n..] == [f.nextId];
  }

  lemma {:induction false} AppendedCompose(f: Forest, m: Forest, g: Forest, p: NodeId, a: NodeId, rest: seq<NodeId>)
    requires Allocated(f) && p in f.nodes && f.nextId <= m.nextId
    requires Appended(f, m, p, [a]) && Appended(m, g, p, rest)
    requires forall i :: 0 <= i < |rest| ==> rest[i] in f.nodes
    ensures Appended(f, g, p, [a] + rest)
  {
    var n := |Children(f, p)|;
    var args := [a] + rest;
    var c := Children(m, p)[n..][0];
    assert Children(m, p) == Children(f, p) + [c];
    assert Children(g, p)[..n] == Children(m, p)[..n];
    SplitAfter(Children(g, p), Children(f, p), c);
    forall i | 0 <= i < |args|
      ensures && f.nextId <= Children(g, p)[n..][i] && Children(g, p)[n..][i] in g.nodes
        && Name(g, Children(g, p)[n..][i]) == Name(f, args[i])
        && ValueOf(g, Children(g, p)[n..][i]) == ValueOf(f, args[i])
    {
      if i > 0 {
        assert Children(g, p)[n..][i] == Children(g, p)[n + 1..][i - 1];
        assert args[i] == rest[i - 1];
      }
    }
  }

  /** The contents the argument copies are taken from, each from the tree as it is when copied. */
  function ClonedContents(f: Forest, p: NodeId, args: seq<NodeId>): (r: seq<NodeVal>)
    ensures |r| == |args|
    decreases |args|
  {
    if args == [] then []
    else [Snapshot(f, args[0])] + ClonedContents(AppendClone(f, p, Snapshot(f, args[0])), p, args[1..])
  }

  /** Copying the arguments one by one is appending the contents they had when copied. */
  lemma {:induction false} ClonesAreAppendAll(f: Forest, p: NodeId, args: seq<NodeId>)
    ensures AppendClonesOf(f, p, args) == AppendAll(f, p, ClonedContents(f, p, args))
    decreases |args|
  {
    if args != [] {
      var v := Snapshot(f, args[0]);
      var m := AppendClone(f, p, v);
      ClonesAreAppendAll(m, p, args[1..]);
      var vs := ClonedContents(f, p, args);
      assert vs[0] == v && vs[1..] == ClonedContents(m, p, args[1..]);
    }
  }

  /** The i-th copy is taken from the tree that already holds the first i copies. */
  lemma {:induction false} ClonedContentsAt(f: Forest, p: NodeId, args: seq<NodeId>, i: nat)
    requires i < |args|
    ensures ClonedContents(f, p, args)[i] == Snapshot(AppendClonesOf(f, p, args[..i]), args[i])
    decreases i
  {
    if i > 0 {
      var m := AppendClone(f, p, Snapshot(f, args[0]));
      ClonedContentsAt(m, p, args[1..], i - 1);
      assert args[1..][..i - 1] == args[..i][1..];
      assert args[..i][0] == args[0];
    }
  }

  /**
   * Each argument copy holds the whole content of its argument as it stood
   * when it was copied, that is after the copies before it were appended.
   */
  lemma {:induction false} ArgumentCopies(f: Forest, p: NodeId, args: seq<NodeId>)
    requires Allocated(f) && p in f.nodes
    ensures var g := AppendClonesOf(f, p, args); var n := |Children(f, p)|;
      && |Children(g, p)| == n + |args|
      && forall i :: 0 <= i < |args| ==>
           Snapshot(g, Children(g, p)[n..][i]) == Snapshot(AppendClonesOf(f, p, args[..i]), args[i])
  {
    var vs := ClonedContents(f, p, args);
    ClonesAreAppendAll(f, p, args);
    AppendAllRoundTrip(f, p, vs);
    forall i | 0 <= i < |args|
      ensures vs[i] == Snapshot(AppendClonesOf(f, p, args[..i]), args[i])
    {
      ClonedContentsAt(f, p, args, i);
    }
  }

  /**
   * Mutable mode appends one fresh copy per argument at the end of the block,
   * each a whole copy of its argument as it stood when copied.
   */
  lemma ArgumentsAppended(f: Forest, p: NodeId, args: seq<NodeId>)
    requires Allocated(f) && p in f.nodes
    requires forall i :: 0 <= i < |args| ==> args[i] in f.nodes
    ensures Appended(f, AppendClonesOf(f, p, args), p, args)
    ensures var g := AppendClonesOf(f, p, args); var n := |Children(f, p)|;
      forall i :: 0 <= i < |args| ==>
        Snapshot(g, Children(g, p)[n..][i]) == Snapshot(AppendClonesOf(f, p, args[..i]), args[i])
  {
    AppendedFrame(f, p, args);
    ArgumentCopies(f, p, args);
  }

  lemma {:induction false} AppendedFrame(f: Forest, p: NodeId, args: seq<NodeId>)
    requires Allocated(f) && p in f.nodes
    requires forall i :: 0 <= i < |args| ==> args[i] in f.nodes
    ensures Appended(f, AppendClonesOf(f, p, args), p, args)
    decreases |args|
  {
    if args == [] {
      assert Children(f, p)[|Children(f, p)|..] == [];
    } else {
      var m := AppendClone(f, p, Snapshot(f, args[0]));
      var g := AppendClonesOf(m, p, args[1..]);
      assert AppendClonesOf(f, p, args) == g;
      var rest := args[1..];
      assert Appended(f, m, p, [args[0]]) by {
        AppendedOne(f, p, args[0]);
      }
      assert Allocated(m) && p in m.nodes && f.nextId <= m.nextId
        && forall i :: 0 <= i < |rest| ==> rest[i] in m.nodes by {
        AppendCloneFacts(f, p, Snapshot(f, args[0]));
      }
      assert Appended(m, g, p, rest) by {
        AppendedFrame(m, p, rest);
      }
      assert args == [args[0]] + rest;
      AppendedCompose(f, m, g, p, args[0], rest);
    }
  }

  /**
   * What a mutable run does to the caller's tree when the block belongs to
   * it: after a run that threw, the tree its handlers left; after a run that
   * completed, the same with a leading attached `_return` detached.
   */
  lemma MutableDelivers(f: Forest, id: NodeId, args: seq<NodeId>,
                        asInt: Value -> int, dispatch: Dispatch, fuel: nat)
    ensures var run := RunBlock(AppendClonesOf(f, id, args), id, asInt, dispatch, fuel);
      var r := MutableRun(f, Node(id), args, asInt, dispatch, fuel);
      var first := FirstChild(run.forest, id);
      && r.0 == run.outcome
      && (!Completed(run.outcome) ==> r.1 == run.forest)
      && (Completed(run.outcome) && first.Some? && Name(run.forest, first.value) == "_return"
            && Parent(run.forest, first.value) == Some(id) ==>
            Children(r.1, id) == Children(run.forest, id)[1..] && !HasParent(r.1, first.value))
      && (Completed(run.outcome) && (first.None? || Name(run.forest, first.value) != "_return") ==>
            r.1 == run.forest)
      && (forall k :: ValueOf(r.1, k) == ValueOf(run.forest, k) && Name(r.1, k) == Name(run.forest, k))
  {
    var run := RunBlock(AppendClonesOf(f, id, args), id, asInt, dispatch, fuel);
    StripReturnFacts(run.forest, id);
  }

  /**
   * A mutable run that leaves its block as it found it, with no sentinel in
   * front, keeps the argument copies on the block after the run.
   */
  lemma {:induction false} UnchangedMutableKeepsArguments(f: Forest, id: NodeId, args: seq<NodeId>,
                                                          asInt: Value -> int, dispatch: Dispatch, fuel: nat)
    requires Allocated(f) && id in f.nodes
    requires forall i :: 0 <= i < |args| ==> args[i] in f.nodes
    requires var start := AppendClonesOf(f, id, args); var run := RunBlock(start, id, asInt, dispatch, fuel);
      && Completed(run.outcome) && run.forest == start
      && (FirstChild(start, id).None? || Name(start, FirstChild(start, id).value) != "_return")
    ensures var r := MutableRun(f, Node(id), args, asInt, dispatch, fuel); var n := |Children(f, id)|;
      && |Children(r.1, id)| == n + |args|
      && Children(r.1, id)[..n] == Children(f, id)
      && forall i :: 0 <= i < |args| ==>
           && Name(r.1, Children(r.1, id)[n..][i]) == Name(f, args[i])
           && Snapshot(r.1, Children(r.1, id)[n..][i]) == Snapshot(AppendClonesOf(f, id, args[..i]), args[i])
  {
    var start := AppendClonesOf(f, id, args);
    ArgumentsAppended(f, id, args);
    StripReturnFacts(start, id);
  }
}
