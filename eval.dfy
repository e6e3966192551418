/**
 * The lambda statement interpreter: the cursor loop that walks a block's
 * children and dispatches each executable one by name, the two block runners
 * (copy and mutable) and the scope entry that chooses between running a
 * node's own children and running once per resolved source.
 *
 * Dispatch is a parameter: a handler may change the tree that holds the node
 * it is given in any way, or fail.  Expression resolution is a parameter too:
 * the resolved sources are given, and so is the integer conversion of the
 * [offset] value.
 */
module Eval {
  import opened Wrappers
  import opened NodeTree

  /** Structural errors raised by the engine itself, and errors raised by handlers. */
  datatype Error =
    | OffsetTooLarge(offset: int, count: nat)
    | OffsetNegative(offset: int)
    | HandlerError(node: NodeId, message: string)

  /**
   * How a statement loop ended: it ran out of statements, it met a
   * control-flow sentinel, it used up its step budget, or an error was raised.
   */
  datatype Outcome = Done | Unwound | Exhausted | Failed(error: Error)

  /** A run that returned normally, as opposed to one that threw. */
  predicate Completed(o: Outcome)
  {
    o.Done? || o.Unwound?
  }

  /**
   * What a handler did: the state it left its tree in and, when it threw,
   * the error.  Exceptions roll nothing back, so a handler that throws after
   * changing the tree leaves those changes in place.
   */
  datatype Handled = Handled(after: Forest, error: Option<string>)

  /** Handler invocation for a node of a tree. */
  type Dispatch = (Forest, NodeId) -> Handled

  /** Data (`_`), callback (`.`) and anonymous nodes are never dispatched. */
  predicate Executable(name: string)
  {
    name != "" && name[0] != '_' && name[0] != '.'
  }

  predicate IsSentinel(name: string)
  {
    name == "_return" || name == "_break" || name == "_continue"
  }

  /** The root of `exe`'s tree has a control-flow sentinel as its first child. */
  predicate RootHasSentinel(f: Forest, exe: NodeId)
  {
    var root := Root(f, exe);
    FirstChild(f, root).Some? && IsSentinel(Name(f, FirstChild(f, root).value))
  }

  /**
   * The cursor after a step on `n`: its live next sibling, else the sibling
   * recorded before dispatch if that one is still attached, else the end.
   */
  function NextCursor(f: Forest, n: NodeId, fallback: Option<NodeId>): Option<NodeId>
  {
    match NextSibling(f, n)
    case Some(s) => Some(s)
    case None => if fallback.Some? && HasParent(f, fallback.value) then fallback else None
  }

  /** The first statement of the block: child [offset] when an [offset] child is present. */
  function Start(f: Forest, exe: NodeId, asInt: Value -> int): (r: Result<Option<NodeId>, Error>)
    ensures r.Success? && r.value.Some? ==> r.value.value in Children(f, exe)
    ensures r.Success? && r.value.None? ==> ChildNamed(f, exe, "offset").Some? || Children(f, exe) == []
    ensures r.Failure? <==> && ChildNamed(f, exe, "offset").Some?
                            && var k := asInt(ValueOf(f, ChildNamed(f, exe, "offset").value));
                               k < 0 || k > |Children(f, exe)|
  {
    match ChildNamed(f, exe, "offset")
    case None => Success(FirstChild(f, exe))
    case Some(o) =>
      var offset := asInt(ValueOf(f, o));
      var count := |Children(f, exe)|;
      if offset == count then Success(None)
      else if offset > count then Failure(OffsetTooLarge(offset, count))
      else if offset < 0 then Failure(OffsetNegative(offset))
      else Success(Some(Children(f, exe)[offset]))
  }

  /**
   * One step of the loop, as observed: the node under the cursor, its name
   * when it was considered, whether it was dispatched, the sibling recorded
   * before dispatch and the tree after the step.
   */
  datatype Visit = Visit(node: NodeId, name: string, raised: bool, fallback: Option<NodeId>, after: Forest)

  /** What a step did, apart from where it was. */
  datatype Effect = Effect(name: string, raised: bool, fallback: Option<NodeId>, after: Forest)

  /** A step either moves the cursor on or stops the loop. */
  datatype Step = Next(effect: Effect, cursor: Option<NodeId>) | Halt(effect: Effect, outcome: Outcome)

  function VisitOf(n: NodeId, e: Effect): Visit
  {
    Visit(n, e.name, e.raised, e.fallback, e.after)
  }

  function AfterDispatch(g: Forest, exe: NodeId, n: NodeId, name: string, raised: bool, fallback: Option<NodeId>): Step
  {
    var v := Effect(name, raised, fallback, g);
    if RootHasSentinel(g, exe) then Halt(v, Unwound) else Next(v, NextCursor(g, n, fallback))
  }

  function StepAt(f: Forest, exe: NodeId, n: NodeId, dispatch: Dispatch): Step
  {
    var fallback := NextSibling(f, n);
    var name := Name(f, n);
    if Executable(name) then
      var h := dispatch(f, n);
      match h.error
      case Some(msg) => Halt(Effect(name, true, fallback, h.after), Failed(HandlerError(n, msg)))
      case None => AfterDispatch(h.after, exe, n, name, true, fallback)
    else AfterDispatch(f, exe, n, name, false, fallback)
  }

  /** The outcome, the final tree and the steps of a loop run. */
  datatype Run = Run(outcome: Outcome, forest: Forest, trace: seq<Visit>)

  /** A step function: what one step does at a node of a tree. */
  type Stepper = (Forest, NodeId) -> Step

  /** Repeats `step` from cursor `cur` until a halt, the end, or `fuel` steps. */
  function Drive(step: Stepper, f: Forest, cur: Option<NodeId>, fuel: nat): Run
    decreases fuel
  {
    if cur.None? then Run(Done, f, [])
    else if fuel == 0 then Run(Exhausted, f, [])
    else
      var s := step(f, cur.value);
      var v := VisitOf(cur.value, s.effect);
      if s.Halt? then Run(s.outcome, s.effect.after, [v])
      else
        var rest := Drive(step, s.effect.after, s.cursor, fuel - 1);
        Run(rest.outcome, rest.forest, [v] + rest.trace)
  }

  /** The step of the statement loop of block `exe`. */
  function Stepping(exe: NodeId, dispatch: Dispatch): Stepper
  {
    (g: Forest, n: NodeId) => StepAt(g, exe, n, dispatch)
  }

  /** The statement loop of block `exe` from cursor `cur`, allowed at most `fuel` steps. */
  function Loop(f: Forest, exe: NodeId, cur: Option<NodeId>, dispatch: Dispatch, fuel: nat): Run
  {
    Drive(Stepping(exe, dispatch), f, cur, fuel)
  }

  /** ExecuteAll as a function of the tree it starts from. */
  function RunBlock(f: Forest, exe: NodeId, asInt: Value -> int, dispatch: Dispatch, fuel: nat): (r: Run)
    ensures |r.trace| <= fuel
    ensures r.trace == [] ==> r.forest == f
    ensures Start(f, exe, asInt).Failure? ==> r.trace == [] && r.outcome == Failed(Start(f, exe, asInt).error)
  {
    match Start(f, exe, asInt)
    case Failure(e) => Run(Failed(e), f, [])
    case Success(cur) =>
      DriveTrace(Stepping(exe, dispatch), f, cur, fuel);
      Loop(f, exe, cur, dispatch, fuel)
  }

  /**
   * What one step does: it reads the name and records the next sibling
   * before dispatch, dispatches exactly the executable names, stops on an
   * error (with the tree the throwing handler left) or on a sentinel, and
   * otherwise moves the cursor by NextCursor.
   */
  lemma StepFacts(f: Forest, exe: NodeId, n: NodeId, dispatch: Dispatch)
    ensures var s := StepAt(f, exe, n, dispatch);
      && s.effect.name == Name(f, n)
      && s.effect.fallback == NextSibling(f, n)
      && (s.effect.raised <==> Executable(Name(f, n)))
      && (!s.effect.raised ==> s.effect.after == f)
      && (s.Halt? ==> s.outcome.Unwound? || s.outcome.Failed?)
      && (s.Halt? && s.outcome.Unwound? ==> RootHasSentinel(s.effect.after, exe))
      && (s.effect.raised ==> s.effect.after == dispatch(f, n).after)
      && (s.Halt? && s.outcome.Failed? <==> s.effect.raised && dispatch(f, n).error.Some?)
      && (s.Halt? && s.outcome.Failed? ==> s.outcome.error == HandlerError(n, dispatch(f, n).error.value))
      && (s.Next? ==> !RootHasSentinel(s.effect.after, exe))
      && (s.Next? ==> s.cursor == NextCursor(s.effect.after, n, s.effect.fallback))
  {
  }

  /** Runs the children of `exe` in tree `t` as statements (Eval.ExecuteAll). */
  method ExecuteAll(t: Tree, exe: NodeId, asInt: Value -> int, dispatch: Dispatch, fuel: nat)
    returns (outcome: Outcome)
    modifies t
    ensures outcome == RunBlock(old(t.forest), exe, asInt, dispatch, fuel).outcome
    ensures t.forest == RunBlock(old(t.forest), exe, asInt, dispatch, fuel).forest
  {
    var start := Start(t.forest, exe, asInt);
    if start.Failure? {
      return Failed(start.error);
    }
    outcome := ExecuteFrom(t, exe, start.value, dispatch, fuel);
  }

  /** The while loop of ExecuteAll, from cursor `idxExe`. */
  method ExecuteFrom(t: Tree, exe: NodeId, cursor: Option<NodeId>, dispatch: Dispatch, fuel: nat)
    returns (outcome: Outcome)
    modifies t
    ensures outcome == Loop(old(t.forest), exe, cursor, dispatch, fuel).outcome
    ensures t.forest == Loop(old(t.forest), exe, cursor, dispatch, fuel).forest
  {
    var idxExe := cursor;
    ghost var goal := Loop(t.forest, exe, idxExe, dispatch, fuel);
    var steps := fuel;
    while idxExe.Some?
      invariant Loop(t.forest, exe, idxExe, dispatch, steps).outcome == goal.outcome
      invariant Loop(t.forest, exe, idxExe, dispatch, steps).forest == goal.forest
      decreases steps
    {
      if steps == 0 {
        return Exhausted;
      }
      var current := idxExe.value;
      ghost var before := t.forest;
      var nextFallback := NextSibling(t.forest, current);
      var name := Name(t.forest, current);
      var raised := false;
      if Executable(name) {
        var r := dispatch(t.forest, current);
        t.forest := r.after;
        if r.error.Some? {
          return Failed(HandlerError(current, r.error.value));
        }
        raised := true;
      }
      assert StepAt(before, exe, current, dispatch) == AfterDispatch(t.forest, exe, current, name, raised, nextFallback);
      if RootHasSentinel(t.forest, exe) {
        return Unwound;
      }
      idxExe := NextCursor(t.forest, current, nextFallback);
      steps := steps - 1;
      assert StepAt(before, exe, current, dispatch) == Next(Effect(name, raised, nextFallback, t.forest), idxExe);
      ghost var tail := Loop(t.forest, exe, idxExe, dispatch, steps);
      assert Loop(before, exe, Some(current), dispatch, steps + 1) == Run(tail.outcome, tail.forest, [Visit(current, name, raised, nextFallback, t.forest)] + tail.trace);
    }
    return Done;
  }

  /* ---------- Properties of the statement loop ---------- */

  /** The tree step `i` of a trace started from (`i == |trace|`: the tree after the last step). */
  function Before(f: Forest, trace: seq<Visit>, i: nat): Forest
    requires i <= |trace|
  {
    if i == 0 then f else trace[i - 1].after
  }

  /** Step `i` of the trace is what `step` does at its node in the tree it started from. */
  predicate StepTaken(step: Stepper, f: Forest, trace: seq<Visit>, i: nat)
    requires i < |trace|
  {
    VisitOf(trace[i].node, step(Before(f, trace, i), trace[i].node).effect) == trace[i]
  }

  /** Step `i` let the loop go on, to the node step `i + 1` is at. */
  predicate Continued(step: Stepper, f: Forest, trace: seq<Visit>, i: nat)
    requires i + 1 < |trace|
  {
    var s := step(Before(f, trace, i), trace[i].node);
    s.Next? && s.cursor == Some(trace[i + 1].node)
  }

  /** How the run ended after its last step. */
  predicate Ended(step: Stepper, f: Forest, r: Run, fuel: nat)
    requires |r.trace| > 0
  {
    var last := |r.trace| - 1;
    var s := step(Before(f, r.trace, last), r.trace[last].node);
    || (s.Halt? && r.outcome == s.outcome)
    || (s.Next? && s.cursor.None? && r.outcome == Done)
    || (s.Next? && s.cursor.Some? && r.outcome == Exhausted && |r.trace| == fuel)
  }

  /**
   * The run of a driver is the sequence of steps it takes: each from the tree
   * the previous one left, each but the last continuing to the next node.
   */
  lemma {:induction false} DriveTrace(step: Stepper, f: Forest, cur: Option<NodeId>, fuel: nat)
    ensures var r := Drive(step, f, cur, fuel);
      && |r.trace| <= fuel
      && r.forest == Before(f, r.trace, |r.trace|)
      && (|r.trace| == 0 ==> if cur.None? then r.outcome == Done else r.outcome == Exhausted && fuel == 0)
      && (|r.trace| > 0 ==> cur == Some(r.trace[0].node) && Ended(step, f, r, fuel))
      && (forall i :: 0 <= i < |r.trace| ==> StepTaken(step, f, r.trace, i))
      && (forall i :: 0 <= i < |r.trace| - 1 ==> Continued(step, f, r.trace, i))
    decreases fuel
  {
    var r := Drive(step, f, cur, fuel);
    if cur.Some? && fuel > 0 {
      var s := step(f, cur.value);
      if s.Halt? {
        assert r.trace == [VisitOf(cur.value, s.effect)];
        assert StepTaken(step, f, r.trace, 0);
      } else {
        var rest := Drive(step, s.effect.after, s.cursor, fuel - 1);
        DriveTrace(step, s.effect.after, s.cursor, fuel - 1);
        assert r.trace == [VisitOf(cur.value, s.effect)] + rest.trace;
        assert r.outcome == rest.outcome && r.forest == rest.forest;
        forall i | 1 <= i <= |r.trace|
          ensures Before(f, r.trace, i) == Before(s.effect.after, rest.trace, i - 1)
        {
        }
        forall i | 0 <= i < |r.trace|
          ensures StepTaken(step, f, r.trace, i)
        {
          if i > 0 {
            assert StepTaken(step, s.effect.after, rest.trace, i - 1);
          }
        }
        forall i | 0 <= i < |r.trace| - 1
          ensures Continued(step, f, r.trace, i)
        {
          if i > 0 {
            assert Continued(step, s.effect.after, rest.trace, i - 1);
          }
        }
        if |rest.trace| > 0 {
          assert Ended(step, s.effect.after, rest, fuel - 1);
        }
      }
    }
  }

  /** Step `i` of the trace obeys the skip rule. */
  predicate SkipObeyed(f: Forest, trace: seq<Visit>, i: nat)
    requires i < |trace|
  {
    && trace[i].name == Name(Before(f, trace, i), trace[i].node)
    && (trace[i].raised <==> Executable(trace[i].name))
    && (!trace[i].raised ==> trace[i].after == Before(f, trace, i))
  }

  /**
   * A node is dispatched exactly when its name, in the tree at the moment the
   * cursor reaches it, is executable: data (`_`), callback (`.`) and
   * anonymous nodes never are, wherever they sit; a skipped node leaves the
   * tree as it was.
   */
  lemma {:induction false} SkipRule(f: Forest, exe: NodeId, cur: Option<NodeId>, dispatch: Dispatch, fuel: nat)
    ensures var r := Loop(f, exe, cur, dispatch, fuel);
      forall i :: 0 <= i < |r.trace| ==> SkipObeyed(f, r.trace, i)
  {
    var step := Stepping(exe, dispatch);
    var r := Loop(f, exe, cur, dispatch, fuel);
    DriveTrace(step, f, cur, fuel);
    forall i | 0 <= i < |r.trace|
      ensures SkipObeyed(f, r.trace, i)
    {
      assert StepTaken(step, f, r.trace, i);
      StepFacts(Before(f, r.trace, i), exe, r.trace[i].node, dispatch);
    }
  }

  /** Step `v` left a control-flow sentinel at the root of `exe`'s tree. */
  predicate Unwinds(v: Visit, exe: NodeId)
  {
    RootHasSentinel(v.after, exe)
  }

  /**
   * The loop stops right after the first step that leaves a control-flow
   * sentinel as the first child of the root, and only there: no further
   * sibling is visited once one is in place.
   */
  lemma {:induction false} SentinelRule(f: Forest, exe: NodeId, cur: Option<NodeId>, dispatch: Dispatch, fuel: nat)
    ensures var r := Loop(f, exe, cur, dispatch, fuel);
      && (forall i :: 0 <= i < |r.trace| - 1 ==> !Unwinds(r.trace[i], exe))
      && (r.outcome.Unwound? <==> |r.trace| > 0 && Unwinds(r.trace[|r.trace| - 1], exe) && !r.outcome.Failed?)
  {
    var step := Stepping(exe, dispatch);
    var r := Loop(f, exe, cur, dispatch, fuel);
    DriveTrace(step, f, cur, fuel);
    forall i | 0 <= i < |r.trace| - 1
      ensures !Unwinds(r.trace[i], exe)
    {
      assert StepTaken(step, f, r.trace, i) && Continued(step, f, r.trace, i);
      StepFacts(Before(f, r.trace, i), exe, r.trace[i].node, dispatch);
    }
    if |r.trace| > 0 {
      var last := |r.trace| - 1;
      assert StepTaken(step, f, r.trace, last) && Ended(step, f, r, fuel);
      StepFacts(Before(f, r.trace, last), exe, r.trace[last].node, dispatch);
    }
  }

  /** Step `i` recorded the next sibling of its node before dispatch. */
  predicate FallbackRecorded(f: Forest, trace: seq<Visit>, i: nat)
    requires i < |trace|
  {
    trace[i].fallback == NextSibling(Before(f, trace, i), trace[i].node)
  }

  /** Step `i + 1` is at the node NextCursor chose after step `i`. */
  predicate CursorAdvanced(trace: seq<Visit>, i: nat)
    requires i + 1 < |trace|
  {
    NextCursor(trace[i].after, trace[i].node, trace[i].fallback) == Some(trace[i + 1].node)
  }

  /**
   * The cursor moves with the precedence of the source: each step records
   * its node's next sibling before dispatch, the next step is where
   * NextCursor points after the dispatch, and the loop ends normally only
   * where NextCursor points nowhere.
   */
  lemma {:induction false} AdvanceRule(f: Forest, exe: NodeId, cur: Option<NodeId>, dispatch: Dispatch, fuel: nat)
    ensures var r := Loop(f, exe, cur, dispatch, fuel);
      && |r.trace| <= fuel
      && (|r.trace| > 0 ==> cur == Some(r.trace[0].node))
      && (|r.trace| == 0 ==> cur.None? || fuel == 0)
      && (forall i :: 0 <= i < |r.trace| ==> FallbackRecorded(f, r.trace, i))
      && (forall i :: 0 <= i < |r.trace| - 1 ==> CursorAdvanced(r.trace, i))
      && (r.outcome.Done? ==>
            if |r.trace| == 0 then cur.None?
            else var last := r.trace[|r.trace| - 1]; NextCursor(last.after, last.node, last.fallback).None?)
      && (r.outcome.Exhausted? ==> |r.trace| == fuel)
  {
    var step := Stepping(exe, dispatch);
    var r := Loop(f, exe, cur, dispatch, fuel);
    DriveTrace(step, f, cur, fuel);
    forall i | 0 <= i < |r.trace|
      ensures FallbackRecorded(f, r.trace, i)
    {
      assert StepTaken(step, f, r.trace, i);
      StepFacts(Before(f, r.trace, i), exe, r.trace[i].node, dispatch);
    }
    forall i | 0 <= i < |r.trace| - 1
      ensures CursorAdvanced(r.trace, i)
    {
      assert StepTaken(step, f, r.trace, i) && Continued(step, f, r.trace, i);
      StepFacts(Before(f, r.trace, i), exe, r.trace[i].node, dispatch);
    }
    if |r.trace| > 0 {
      var last := |r.trace| - 1;
      assert StepTaken(step, f, r.trace, last) && Ended(step, f, r, fuel);
      StepFacts(Before(f, r.trace, last), exe, r.trace[last].node, dispatch);
    }
  }

  /**
   * The final tree is the one the last step left.  An error is raised only
   * by a dispatched handler that threw; it ends the loop at once, with the
   * tree that handler left and its message.
   */
  lemma {:induction false} FinalTreeRule(f: Forest, exe: NodeId, cur: Option<NodeId>, dispatch: Dispatch, fuel: nat)
    ensures var r := Loop(f, exe, cur, dispatch, fuel);
      && r.forest == Before(f, r.trace, |r.trace|)
      && (r.outcome.Failed? ==>
            var last := r.trace[|r.trace| - 1];
            var h := dispatch(Before(f, r.trace, |r.trace| - 1), last.node);
            && |r.trace| > 0 && last.raised && h.error.Some?
            && r.forest == h.after
            && r.outcome.error == HandlerError(last.node, h.error.value))
  {
    var step := Stepping(exe, dispatch);
    var r := Loop(f, exe, cur, dispatch, fuel);
    DriveTrace(step, f, cur, fuel);
    if r.outcome.Failed? {
      var last := |r.trace| - 1;
      var before := Before(f, r.trace, last);
      var n := r.trace[last].node;
      assert StepTaken(step, f, r.trace, last) && Ended(step, f, r, fuel);
      assert step(before, n) == StepAt(before, exe, n, dispatch);
      StepFacts(before, exe, n, dispatch);
    }
  }

  /* ---------- The first statement ---------- */

  /** An [offset] equal to the number of children runs nothing and changes nothing. */
  lemma OffsetAtEnd(f: Forest, exe: NodeId, asInt: Value -> int, dispatch: Dispatch, fuel: nat)
    requires ChildNamed(f, exe, "offset").Some?
    requires asInt(ValueOf(f, ChildNamed(f, exe, "offset").value)) == |Children(f, exe)|
    ensures RunBlock(f, exe, asInt, dispatch, fuel) == Run(Done, f, [])
  {
  }

  /** An [offset] beyond the number of children raises an error before anything runs. */
  lemma OffsetBeyondEnd(f: Forest, exe: NodeId, asInt: Value -> int, dispatch: Dispatch, fuel: nat)
    requires ChildNamed(f, exe, "offset").Some?
    requires asInt(ValueOf(f, ChildNamed(f, exe, "offset").value)) > |Children(f, exe)|
    ensures var offset := asInt(ValueOf(f, ChildNamed(f, exe, "offset").value));
      RunBlock(f, exe, asInt, dispatch, fuel) == Run(Failed(OffsetTooLarge(offset, |Children(f, exe)|)), f, [])
  {
  }

  /** A negative [offset] below the number of children raises an error before anything runs. */
  lemma NegativeOffsetFails(f: Forest, exe: NodeId, asInt: Value -> int, dispatch: Dispatch, fuel: nat)
    requires ChildNamed(f, exe, "offset").Some?
    requires asInt(ValueOf(f, ChildNamed(f, exe, "offset").value)) < 0
    ensures var offset := asInt(ValueOf(f, ChildNamed(f, exe, "offset").value));
      RunBlock(f, exe, asInt, dispatch, fuel) == Run(Failed(OffsetNegative(offset)), f, [])
  {
  }

  /**
   * With a valid [offset] N the first node considered is child N; without
   * an [offset] it is the first child.
   */
  lemma {:induction false} FirstVisited(f: Forest, exe: NodeId, asInt: Value -> int, dispatch: Dispatch, fuel: nat)
    requires fuel > 0
    ensures var r := RunBlock(f, exe, asInt, dispatch, fuel);
      match ChildNamed(f, exe, "offset")
      case None =>
        (|Children(f, exe)| == 0 <==> |r.trace| == 0)
        && (|r.trace| > 0 ==> r.trace[0].node == Children(f, exe)[0])
      case Some(o) =>
        var offset := asInt(ValueOf(f, o));
        0 <= offset < |Children(f, exe)| ==> |r.trace| > 0 && r.trace[0].node == Children(f, exe)[offset]
  {
    match Start(f, exe, asInt)
    case Failure(e) =>
    case Success(cur) => AdvanceRule(f, exe, cur, dispatch, fuel);
  }

  /* ---------- Visit order over an unchanged tree ---------- */

  predicate Distinct(s: seq<NodeId>)
  {
    forall i, j :: 0 <= i < j < |s| ==> s[i] != s[j]
  }

  /** The children of `p` are distinct nodes whose parent is `p`. */
  predicate ChildrenLinked(f: Forest, p: NodeId)
  {
    && Distinct(Children(f, p))
    && forall i :: 0 <= i < |Children(f, p)| ==> Parent(f, Children(f, p)[i]) == Some(p)
  }

  /** In a well-linked child list the next sibling of child k is child k + 1. */
  lemma NextSiblingInOrder(f: Forest, p: NodeId, k: nat)
    requires ChildrenLinked(f, p) && k < |Children(f, p)|
    ensures var cs := Children(f, p);
      NextSibling(f, cs[k]) == CursorAt(cs, k + 1)
  {
    var cs := Children(f, p);
    var j := IndexOf(cs, cs[k]);
    assert j.Some?;
    assert j.value == k;
  }

  /** The cursor on position k of cs, or the end when there is none. */
  function CursorAt(cs: seq<NodeId>, k: nat): Option<NodeId>
  {
    if k < |cs| then Some(cs[k]) else None
  }

  /** A handler that leaves every tree as it is. */
  ghost predicate Inert(dispatch: Dispatch, f: Forest)
  {
    forall n :: dispatch(f, n) == Handled(f, None)
  }

  /** One step over an unchanged tree moves on to the next child. */
  lemma InertStep(f: Forest, exe: NodeId, dispatch: Dispatch, k: nat)
    requires Inert(dispatch, f) && !RootHasSentinel(f, exe) && ChildrenLinked(f, exe)
    requires k < |Children(f, exe)|
    ensures var cs := Children(f, exe);
      var s := Stepping(exe, dispatch)(f, cs[k]);
      s.Next? && s.effect.after == f && s.cursor == CursorAt(cs, k + 1)
  {
    var cs := Children(f, exe);
    NextSiblingInOrder(f, exe, k);
    assert dispatch(f, cs[k]) == Handled(f, None);
  }

  /**
   * A stepper walks along cs over f when every node of cs leaves the tree
   * alone and hands the cursor to the next one, the last one to nobody.
   */
  ghost predicate Walks(step: Stepper, f: Forest, cs: seq<NodeId>)
  {
    forall k :: 0 <= k < |cs| ==>
      && step(f, cs[k]).Next?
      && step(f, cs[k]).effect.after == f
      && step(f, cs[k]).cursor == CursorAt(cs, k + 1)
  }

  lemma WalkAt(step: Stepper, f: Forest, cs: seq<NodeId>, k: nat)
    requires Walks(step, f, cs) && k < |cs|
    ensures step(f, cs[k]).Next? && step(f, cs[k]).effect.after == f
    ensures step(f, cs[k]).cursor == CursorAt(cs, k + 1)
  {
  }

  /** A driver over a walk visits cs from position k on, in order, and ends. */
  lemma {:induction false} DriveWalk(step: Stepper, f: Forest, cs: seq<NodeId>, k: nat, fuel: nat)
    requires Walks(step, f, cs)
    requires k <= |cs| && fuel >= |cs| - k
    ensures var r := Drive(step, f, CursorAt(cs, k), fuel);
      && r.outcome == Done && r.forest == f
      && |r.trace| == |cs| - k
      && forall i :: 0 <= i < |r.trace| ==> r.trace[i].node == cs[k + i]
    decreases |cs| - k
  {
    if k < |cs| {
      var s := step(f, cs[k]);
      WalkAt(step, f, cs, k);
      DriveWalk(step, f, cs, k + 1, fuel - 1);
      var rest := Drive(step, f, s.cursor, fuel - 1);
      var r := Drive(step, f, Some(cs[k]), fuel);
      assert s.cursor == CursorAt(cs, k + 1);
      assert r.trace == [VisitOf(cs[k], s.effect)] + rest.trace;
      assert |rest.trace| == |cs| - (k + 1);
      forall i | 1 <= i < |r.trace|
        ensures r.trace[i].node == cs[k + i]
      {
        assert r.trace[i] == rest.trace[i - 1];
      }
    }
  }

  /**
   * When no handler changes the tree and no sentinel is in place, the loop
   * visits the children from position k on exactly in child order, and ends.
   */
  lemma {:induction false} InertLoopInOrder(f: Forest, exe: NodeId, dispatch: Dispatch, k: nat, fuel: nat)
    requires Inert(dispatch, f) && !RootHasSentinel(f, exe) && ChildrenLinked(f, exe)
    requires k <= |Children(f, exe)| && fuel >= |Children(f, exe)| - k
    ensures var cs := Children(f, exe);
      var r := Loop(f, exe, CursorAt(cs, k), dispatch, fuel);
      && r.outcome == Done && r.forest == f
      && |r.trace| == |cs| - k
      && forall i :: 0 <= i < |r.trace| ==> r.trace[i].node == cs[k + i]
  {
    var cs := Children(f, exe);
    var step := Stepping(exe, dispatch);
    forall j | 0 <= j < |cs|
      ensures && step(f, cs[j]).Next?
        && step(f, cs[j]).effect.after == f
        && step(f, cs[j]).cursor == CursorAt(cs, j + 1)
    {
      InertStep(f, exe, dispatch, j);
    }
    DriveWalk(step, f, cs, k, fuel);
  }

  /** The loop from the first child over an unchanged tree visits every child once, in order. */
  lemma InertLoopFromFirst(f: Forest, exe: NodeId, dispatch: Dispatch, fuel: nat)
    requires Inert(dispatch, f) && !RootHasSentinel(f, exe) && ChildrenLinked(f, exe)
    requires fuel >= |Children(f, exe)|
    ensures var cs := Children(f, exe);
      var r := Loop(f, exe, CursorAt(cs, 0), dispatch, fuel);
      && r.outcome == Done && r.forest == f && |r.trace| == |cs|
      && forall i :: 0 <= i < |cs| ==> r.trace[i].node == cs[i]
  {
    var cs := Children(f, exe);
    var r := Loop(f, exe, CursorAt(cs, 0), dispatch, fuel);
    InertLoopInOrder(f, exe, dispatch, 0, fuel);
    forall i | 0 <= i < |cs|
      ensures r.trace[i].node == cs[i]
    {
      assert r.trace[i].node == cs[0 + i];
    }
  }

  /**
   * Over an unchanged tree a block runs its children from the [offset] on
   * (from the first without one), each once, in child order.
   */
  lemma InertBlockInOrder(f: Forest, exe: NodeId, asInt: Value -> int, dispatch: Dispatch, fuel: nat)
    requires Inert(dispatch, f) && !RootHasSentinel(f, exe) && ChildrenLinked(f, exe)
    requires fuel >= |Children(f, exe)|
    ensures var cs := Children(f, exe);
      var r := RunBlock(f, exe, asInt, dispatch, fuel);
      match ChildNamed(f, exe, "offset")
      case None => r.outcome == Done && r.forest == f && |r.trace| == |cs|
        && forall i :: 0 <= i < |cs| ==> r.trace[i].node == cs[i]
      case Some(o) =>
        var offset := asInt(ValueOf(f, o));
        0 <= offset <= |cs| ==>
          && r.outcome == Done && r.forest == f && |r.trace| == |cs| - offset
          && forall i :: 0 <= i < |r.trace| ==> r.trace[i].node == cs[offset + i]
  {
    var cs := Children(f, exe);
    match ChildNamed(f, exe, "offset")
    case None =>
      var cur := CursorAt(cs, 0);
      assert Start(f, exe, asInt) == Success(cur);
      assert RunBlock(f, exe, asInt, dispatch, fuel) == Loop(f, exe, cur, dispatch, fuel);
      InertLoopFromFirst(f, exe, dispatch, fuel);
    case Some(o) =>
      var offset := asInt(ValueOf(f, o));
      if 0 <= offset <= |cs| {
        var cur := CursorAt(cs, offset);
        assert Start(f, exe, asInt) == Success(cur);
        assert RunBlock(f, exe, asInt, dispatch, fuel) == Loop(f, exe, cur, dispatch, fuel);
        InertLoopInOrder(f, exe, dispatch, offset, fuel);
      }
  }

  /* ---------- Handlers that restructure the tree ---------- */

  /**
   * A handler that detaches the node it runs on sends the loop to the
   * sibling recorded before dispatch, if that one is still attached, and
   * otherwise ends it.
   */
  lemma DetachedFallsBack(g: Forest, n: NodeId, fallback: Option<NodeId>)
    requires !HasParent(g, n)
    ensures NextCursor(g, n, fallback) == if fallback.Some? && HasParent(g, fallback.value) then fallback else None
  {
  }
}
