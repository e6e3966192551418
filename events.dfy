/**
 * The [eval] and [eval-mutable] active events: the scope entry that either
 * runs the event node's own children once, or runs every source its value
 * resolves to, one after the other, against the same destination.
 */
module Events {
  import opened Wrappers
  import opened NodeTree
  import opened Eval
  import opened Blocks

  /** Which block runner an event uses. */
  datatype Mode = Copy | Mutable

  /** The name under which an event runs the sources of its value. */
  function EventName(mode: Mode): string
  {
    match mode
    case Copy => "eval"
    case Mutable => "eval-mutable"
  }

  /** One call of the block runner. */
  function RunOne(f: Forest, mode: Mode, exe: Source, evalNode: NodeId, args: seq<NodeId>, isFirst: bool,
                  asInt: Value -> int, dispatch: Dispatch, fuel: nat): (Outcome, Forest)
  {
    match mode
    case Copy => CopyRun(f, exe, evalNode, args, isFirst, asInt, dispatch, fuel)
    case Mutable => MutableRun(f, exe, args, asInt, dispatch, fuel)
  }

  /** The worker an event hands to Executor: what it runs, the destination, the arguments, and isFirst. */
  type Functor = (Forest, Source, NodeId, seq<NodeId>, bool) -> (Outcome, Forest)

  function Runner(mode: Mode, asInt: Value -> int, dispatch: Dispatch, fuel: nat): Functor
  {
    (f: Forest, exe: Source, evalNode: NodeId, args: seq<NodeId>, isFirst: bool) =>
      RunOne(f, mode, exe, evalNode, args, isFirst, asInt, dispatch, fuel)
  }

  /** `functor` is the block runner of `mode`. */
  ghost predicate Implements(functor: Functor, mode: Mode, asInt: Value -> int, dispatch: Dispatch, fuel: nat)
  {
    forall f, exe, evalNode, args, isFirst {:trigger RunOne(f, mode, exe, evalNode, args, isFirst, asInt, dispatch, fuel)} ::
      functor(f, exe, evalNode, args, isFirst) == RunOne(f, mode, exe, evalNode, args, isFirst, asInt, dispatch, fuel)
  }

  /**
   * The calls from source `i` on, each given the current children of the
   * event node as arguments; only the call on source 0 is the first.  The
   * sweep stops at the first call that throws.
   */
  function Sweep(f: Forest, functor: Functor, evalNode: NodeId, sources: seq<Source>, i: nat): (r: (Outcome, Forest))
    requires i <= |sources|
    ensures r.0 == Done || !Completed(r.0)
    decreases |sources| - i
  {
    if i == |sources| then (Done, f)
    else
      var r := functor(f, sources[i], evalNode, Children(f, evalNode), i == 0);
      if !Completed(r.0) then r else Sweep(r.1, functor, evalNode, sources, i + 1)
  }

  /** A call that returns normally ends the event normally. */
  function Settle(o: Outcome): Outcome
  {
    if Completed(o) then Done else o
  }

  /** Executor as a function of the caller's tree. */
  function Execute(f: Forest, functor: Functor, evalNode: NodeId, forceChildren: bool, sources: seq<Source>): (r: (Outcome, Forest))
    ensures r.0 == Done || !Completed(r.0)
  {
    if forceChildren || ValueOf(f, evalNode) == Null then
      var r := functor(f, Node(evalNode), evalNode, [], true);
      (Settle(r.0), r.1)
    else Sweep(f, functor, evalNode, sources, 0)
  }

  /** The event as raised on `evalNode`: it runs its own children unless it carries the event's own name. */
  function Event(f: Forest, mode: Mode, evalNode: NodeId, sources: seq<Source>,
                 asInt: Value -> int, dispatch: Dispatch, fuel: nat): (r: (Outcome, Forest))
    ensures r.0 == Done || !Completed(r.0)
  {
    Execute(f, Runner(mode, asInt, dispatch, fuel), evalNode, Name(f, evalNode) != EventName(mode), sources)
  }

  /* ---------- The methods ---------- */

  /** The block runner chosen by the event. */
  method Invoke(t: Tree, mode: Mode, exe: Source, evalNode: NodeId, args: seq<NodeId>, isFirst: bool,
                asInt: Value -> int, dispatch: Dispatch, fuel: nat)
    returns (outcome: Outcome)
    modifies t
    ensures (outcome, t.forest) == RunOne(old(t.forest), mode, exe, evalNode, args, isFirst, asInt, dispatch, fuel)
  {
    if mode == Copy {
      outcome := ExecuteBlockCopy(t, exe, evalNode, args, isFirst, asInt, dispatch, fuel);
    } else {
      outcome := ExecuteBlockMutable(t, exe, args, asInt, dispatch, fuel);
    }
  }

  /** The call on source `i`: what remains of the sweep afterwards is what remained before. */
  method SweepCall(t: Tree, mode: Mode, evalNode: NodeId, sources: seq<Source>, i: nat, isFirst: bool,
                   asInt: Value -> int, dispatch: Dispatch, fuel: nat, ghost functor: Functor)
    returns (outcome: Outcome)
    requires i < |sources| && (isFirst <==> i == 0)
    requires Implements(functor, mode, asInt, dispatch, fuel)
    modifies t
    ensures var rest := Sweep(old(t.forest), functor, evalNode, sources, i);
      if Completed(outcome) then Sweep(t.forest, functor, evalNode, sources, i + 1) == rest
      else (outcome, t.forest) == rest
  {
    outcome := Invoke(t, mode, sources[i], evalNode, Children(t.forest, evalNode), isFirst, asInt, dispatch, fuel);
  }

  /** The foreach over the resolved sources, with its isFirst flag. */
  method RunSources(t: Tree, mode: Mode, evalNode: NodeId, sources: seq<Source>,
                    asInt: Value -> int, dispatch: Dispatch, fuel: nat, ghost functor: Functor)
    returns (outcome: Outcome)
    requires Implements(functor, mode, asInt, dispatch, fuel)
    modifies t
    ensures (outcome, t.forest) == Sweep(old(t.forest), functor, evalNode, sources, 0)
  {
    ghost var goal := Sweep(t.forest, functor, evalNode, sources, 0);
    var isFirst := true;
    var i := 0;
    while i < |sources|
      invariant 0 <= i <= |sources|
      invariant isFirst <==> i == 0
      invariant Sweep(t.forest, functor, evalNode, sources, i) == goal
    {
      outcome := SweepCall(t, mode, evalNode, sources, i, isFirst, asInt, dispatch, fuel, functor);
      if !Completed(outcome) {
        return;
      }
      isFirst := false;
      i := i + 1;
    }
    outcome := Done;
  }

  /** Runs the event node's children once, or each source in turn. */
  method Executor(t: Tree, mode: Mode, evalNode: NodeId, forceChildren: bool, sources: seq<Source>,
                  asInt: Value -> int, dispatch: Dispatch, fuel: nat, ghost functor: Functor)
    returns (outcome: Outcome)
    requires Implements(functor, mode, asInt, dispatch, fuel)
    modifies t
    ensures (outcome, t.forest) == Execute(old(t.forest), functor, evalNode, forceChildren, sources)
  {
    if forceChildren || ValueOf(t.forest, evalNode) == Null {
      outcome := Invoke(t, mode, Node(evalNode), evalNode, [], true, asInt, dispatch, fuel);
      outcome := Settle(outcome);
    } else {
      outcome := RunSources(t, mode, evalNode, sources, asInt, dispatch, fuel, functor);
    }
  }

  /** The [eval] / [eval-mutable] handler. */
  method RaiseEval(t: Tree, mode: Mode, evalNode: NodeId, sources: seq<Source>,
                   asInt: Value -> int, dispatch: Dispatch, fuel: nat)
    returns (outcome: Outcome)
    modifies t
    ensures (outcome, t.forest) == Event(old(t.forest), mode, evalNode, sources, asInt, dispatch, fuel)
  {
    ghost var functor := Runner(mode, asInt, dispatch, fuel);
    outcome := Executor(t, mode, evalNode, Name(t.forest, evalNode) != EventName(mode), sources, asInt, dispatch, fuel, functor);
  }

  /* ---------- Properties ---------- */

  /**
   * When children are forced, or the event node has no value, the sources
   * play no part: the worker runs once, on the event node itself, with no
   * arguments, as the first call.
   */
  lemma ForcedIgnoresSources(f: Forest, functor: Functor, evalNode: NodeId, forceChildren: bool, s1: seq<Source>, s2: seq<Source>)
    requires forceChildren || ValueOf(f, evalNode) == Null
    ensures Execute(f, functor, evalNode, forceChildren, s1) == Execute(f, functor, evalNode, forceChildren, s2)
    ensures var r := functor(f, Node(evalNode), evalNode, [], true);
      Execute(f, functor, evalNode, forceChildren, s1) == (Settle(r.0), r.1)
  {
  }

  /** An event node that does not carry the event's own name runs its own children. */
  lemma RenamedEventRunsChildren(f: Forest, mode: Mode, evalNode: NodeId, s1: seq<Source>, s2: seq<Source>,
                                 asInt: Value -> int, dispatch: Dispatch, fuel: nat)
    requires Name(f, evalNode) != EventName(mode)
    ensures Event(f, mode, evalNode, s1, asInt, dispatch, fuel) == Event(f, mode, evalNode, s2, asInt, dispatch, fuel)
    ensures var r := RunOne(f, mode, Node(evalNode), evalNode, [], true, asInt, dispatch, fuel);
      Event(f, mode, evalNode, s1, asInt, dispatch, fuel) == (Settle(r.0), r.1)
  {
    ForcedIgnoresSources(f, Runner(mode, asInt, dispatch, fuel), evalNode, true, s1, s2);
  }

  /** Without forced children and with a value, the executor sweeps over the sources. */
  lemma UnforcedSweeps(f: Forest, functor: Functor, evalNode: NodeId, sources: seq<Source>)
    requires ValueOf(f, evalNode) != Null
    ensures Execute(f, functor, evalNode, false, sources) == Sweep(f, functor, evalNode, sources, 0)
  {
  }

  /** An event node carrying the event's own name and a value runs the sources its value resolves to. */
  lemma OwnNameSweeps(f: Forest, mode: Mode, evalNode: NodeId, sources: seq<Source>,
                      asInt: Value -> int, dispatch: Dispatch, fuel: nat)
    requires Name(f, evalNode) == EventName(mode) && ValueOf(f, evalNode) != Null
    ensures Event(f, mode, evalNode, sources, asInt, dispatch, fuel) ==
      Sweep(f, Runner(mode, asInt, dispatch, fuel), evalNode, sources, 0)
  {
    UnforcedSweeps(f, Runner(mode, asInt, dispatch, fuel), evalNode, sources);
  }

  /** The calls a sweep from source `i` makes: the source and the isFirst flag of each. */
  function SweepCalls(f: Forest, functor: Functor, evalNode: NodeId, sources: seq<Source>, i: nat): seq<(Source, bool)>
    requires i <= |sources|
    decreases |sources| - i
  {
    if i == |sources| then []
    else
      var r := functor(f, sources[i], evalNode, Children(f, evalNode), i == 0);
      [(sources[i], i == 0)] + (if !Completed(r.0) then [] else SweepCalls(r.1, functor, evalNode, sources, i + 1))
  }

  /**
   * The sweep calls the worker on the sources in order, isFirst being true
   * on source 0 only; it reaches every source unless a call throws, and a
   * throwing call is the last one and gives the event its outcome.
   */
  lemma {:induction false} SweepOncePerSource(f: Forest, functor: Functor, evalNode: NodeId, sources: seq<Source>, i: nat)
    requires i <= |sources|
    ensures var calls := SweepCalls(f, functor, evalNode, sources, i);
      var r := Sweep(f, functor, evalNode, sources, i);
      && |calls| <= |sources| - i
      && (forall k :: 0 <= k < |calls| ==> calls[k] == (sources[i + k], i + k == 0))
      && (r.0 == Done ==> |calls| == |sources| - i)
      && (r.0 != Done ==> |calls| > 0 && !Completed(r.0))
    decreases |sources| - i
  {
    if i < |sources| {
      var r := functor(f, sources[i], evalNode, Children(f, evalNode), i == 0);
      if Completed(r.0) {
        SweepOncePerSource(r.1, functor, evalNode, sources, i + 1);
        var rest := SweepCalls(r.1, functor, evalNode, sources, i + 1);
        var calls := SweepCalls(f, functor, evalNode, sources, i);
        assert calls == [(sources[i], i == 0)] + rest;
        forall k | 1 <= k < |calls|
          ensures calls[k] == (sources[i + k], i + k == 0)
        {
          assert calls[k] == rest[k - 1];
        }
      }
    }
  }

  /** What a later (not first) copy-mode call leaves of the caller's tree: everything, plus new children of the destination. */
  predicate AddsOnly(f: Forest, g: Forest, evalNode: NodeId)
  {
    && Allocated(g) && evalNode in g.nodes
    && |Children(f, evalNode)| <= |Children(g, evalNode)|
    && Children(g, evalNode)[..|Children(f, evalNode)|] == Children(f, evalNode)
    && (forall k :: k in f.nodes && k != evalNode ==> k in g.nodes && g.nodes[k] == f.nodes[k])
  }

  /** One later copy-mode call only adds children to the destination. */
  lemma {:induction false} LaterCopyAddsOnly(f: Forest, src: Source, evalNode: NodeId,
                                             asInt: Value -> int, dispatch: Dispatch, fuel: nat)
    requires Allocated(f) && evalNode in f.nodes
    ensures AddsOnly(f, CopyRun(f, src, evalNode, Children(f, evalNode), false, asInt, dispatch, fuel).1, evalNode)
  {
    CopyDelivers(f, src, evalNode, Children(f, evalNode), false, asInt, dispatch, fuel);
    var n := |Children(f, evalNode)|;
    assert Children(f, evalNode)[..n] == Children(f, evalNode);
  }

  lemma {:induction false} AddsOnlyTrans(f: Forest, m: Forest, g: Forest, evalNode: NodeId)
    requires AddsOnly(f, m, evalNode) && AddsOnly(m, g, evalNode)
    ensures AddsOnly(f, g, evalNode)
  {
    var n := |Children(f, evalNode)|;
    assert Children(g, evalNode)[..n] == Children(g, evalNode)[..|Children(m, evalNode)|][..n];
  }

  /** Every later (not first) call of `functor` only adds children to the destination. */
  ghost predicate LaterCallsAddOnly(functor: Functor, evalNode: NodeId)
  {
    forall f: Forest, src: Source {:trigger functor(f, src, evalNode, Children(f, evalNode), false)} ::
      Allocated(f) && evalNode in f.nodes ==>
        AddsOnly(f, functor(f, src, evalNode, Children(f, evalNode), false).1, evalNode)
  }

  /** The copy-mode runner only adds children to the destination after its first call. */
  lemma CopyLaterCallsAddOnly(evalNode: NodeId, asInt: Value -> int, dispatch: Dispatch, fuel: nat)
    ensures LaterCallsAddOnly(Runner(Copy, asInt, dispatch, fuel), evalNode)
  {
    var functor := Runner(Copy, asInt, dispatch, fuel);
    forall f: Forest, src: Source | Allocated(f) && evalNode in f.nodes
      ensures AddsOnly(f, functor(f, src, evalNode, Children(f, evalNode), false).1, evalNode)
    {
      assert functor(f, src, evalNode, Children(f, evalNode), false)
          == CopyRun(f, src, evalNode, Children(f, evalNode), false, asInt, dispatch, fuel);
      LaterCopyAddsOnly(f, src, evalNode, asInt, dispatch, fuel);
    }
  }

  /** A sweep from the second source on, by a worker whose later calls only add, only adds. */
  lemma {:induction false} LaterSweepAddsOnly(f: Forest, functor: Functor, evalNode: NodeId, sources: seq<Source>, i: nat)
    requires 1 <= i <= |sources| && Allocated(f) && evalNode in f.nodes
    requires LaterCallsAddOnly(functor, evalNode)
    ensures AddsOnly(f, Sweep(f, functor, evalNode, sources, i).1, evalNode)
    decreases |sources| - i
  {
    if i < |sources| {
      var r := functor(f, sources[i], evalNode, Children(f, evalNode), false);
      assert AddsOnly(f, r.1, evalNode);
      if Completed(r.0) {
        LaterSweepAddsOnly(r.1, functor, evalNode, sources, i + 1);
        AddsOnlyTrans(f, r.1, Sweep(r.1, functor, evalNode, sources, i + 1).1, evalNode);
      }
    } else {
      assert Children(f, evalNode)[..|Children(f, evalNode)|] == Children(f, evalNode);
    }
  }

  /**
   * After the first call, copy mode only ever adds to the event node: its
   * children keep their places at the front, and no other node changes.
   */
  lemma LaterCopiesKeep(f: Forest, evalNode: NodeId, sources: seq<Source>, i: nat,
                        asInt: Value -> int, dispatch: Dispatch, fuel: nat)
    requires 1 <= i <= |sources| && Allocated(f) && evalNode in f.nodes
    ensures AddsOnly(f, Sweep(f, Runner(Copy, asInt, dispatch, fuel), evalNode, sources, i).1, evalNode)
  {
    CopyLaterCallsAddOnly(evalNode, asInt, dispatch, fuel);
    LaterSweepAddsOnly(f, Runner(Copy, asInt, dispatch, fuel), evalNode, sources, i);
  }
}
