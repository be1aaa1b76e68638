/** The two walks up the component parent chain the renderer's error and
    warning paths make: the `errorCaptured` hook walk in `handleError` and
    the trace `getComponentTrace` rebuilds for a warning. */
module Diagnostics {
  import opened Shared
  import opened Components

  /** The instances met climbing the parent chain from `cur`, nearest first. */
  function Chain(arena: seq<Instance>, cur: Option<nat>): (r: seq<nat>)
    requires WellFormed(arena) && InArena(arena, cur)
    ensures forall i :: 0 <= i < |r| ==> r[i] < |arena|
    ensures cur.None? <==> r == []
    ensures cur.Some? ==> r[0] == cur.value
    decreases if cur.None? then 0 else cur.value + 1
  {
    if cur.None? then [] else [cur.value] + Chain(arena, arena[cur.value].parent)
  }

  predicate StrictlyDecreasing(s: seq<nat>)
  {
    forall i, j :: 0 <= i < j < |s| ==> s[i] > s[j]
  }

  /** Every step of the chain goes to a strictly older instance, so the
      walk meets no instance twice and ends. */
  lemma {:induction false} ChainStrictlyDecreasing(arena: seq<Instance>, cur: Option<nat>)
    requires WellFormed(arena) && InArena(arena, cur)
    ensures StrictlyDecreasing(Chain(arena, cur))
    decreases if cur.None? then 0 else cur.value + 1
  {
    if cur.Some? {
      var k := cur.value;
      var up := Chain(arena, arena[k].parent);
      ChainStrictlyDecreasing(arena, arena[k].parent);
      var c := Chain(arena, cur);
      assert c == [k] + up;
      forall i, j | 0 <= i < j < |c| ensures c[i] > c[j] {
        if i == 0 {
          assert up[0] == arena[k].parent.value < k;
          assert c[j] == up[j - 1];
          if j - 1 > 0 {
            assert up[0] > up[j - 1];
          }
        } else {
          assert c[i] == up[i - 1] && c[j] == up[j - 1];
        }
      }
    }
  }

  // ----- handleError -----

  /** Hook number `index` of instance `owner`'s `errorCaptured` hooks (`ec`). */
  datatype HookCall = HookCall(owner: nat, index: nat)

  /** How `handleError` ends: a hook returned false, the app-level
      `errorHandler` was called, or the error was logged. */
  datatype ErrorOutcome = Captured(hook: HookCall) | AppHandler | Logged

  /** `ec[k][i]` holds when hook `i` of instance `k` returns `false`. */
  predicate IsHookOf(ec: seq<seq<bool>>, h: HookCall)
  {
    h.owner < |ec| && h.index < |ec[h.owner]|
  }

  predicate Stops(ec: seq<seq<bool>>, h: HookCall)
    requires IsHookOf(ec, h)
  {
    ec[h.owner][h.index]
  }

  function OwnHooks(ec: seq<seq<bool>>, k: nat): (r: seq<HookCall>)
    requires k < |ec|
    ensures |r| == |ec[k]| && forall i :: 0 <= i < |r| ==> r[i] == HookCall(k, i)
  {
    seq(|ec[k]|, i requires 0 <= i => HookCall(k, i))
  }

  /** Every `errorCaptured` hook from `cur` up, nearest component first and
      each component's hooks in registration order. */
  function AllHooks(arena: seq<Instance>, ec: seq<seq<bool>>, cur: Option<nat>): (r: seq<HookCall>)
    requires WellFormed(arena) && InArena(arena, cur) && |ec| == |arena|
    ensures forall i :: 0 <= i < |r| ==> IsHookOf(ec, r[i])
    decreases if cur.None? then 0 else cur.value + 1
  {
    if cur.None? then [] else OwnHooks(ec, cur.value) + AllHooks(arena, ec, arena[cur.value].parent)
  }

  /** Only the components on the parent chain contribute hooks. */
  lemma {:induction false} HookOwnersOnChain(arena: seq<Instance>, ec: seq<seq<bool>>, cur: Option<nat>)
    requires WellFormed(arena) && InArena(arena, cur) && |ec| == |arena|
    ensures var hooks := AllHooks(arena, ec, cur);
            forall i :: 0 <= i < |hooks| ==> hooks[i].owner in Chain(arena, cur)
    decreases if cur.None? then 0 else cur.value + 1
  {
    if cur.Some? {
      var k := cur.value;
      HookOwnersOnChain(arena, ec, arena[k].parent);
      var own := OwnHooks(ec, k);
      var hooks := AllHooks(arena, ec, cur);
      forall i | 0 <= i < |hooks| ensures hooks[i].owner in Chain(arena, cur) {
        if i >= |own| {
          assert hooks[i] == AllHooks(arena, ec, arena[k].parent)[i - |own|];
        }
      }
    }
  }

  /** The `for` loop over one component's `ec` hooks: the hooks it calls,
      and whether one of them returned false. */
  method CallHooks(ec: seq<seq<bool>>, k: nat) returns (called: seq<HookCall>, stopped: bool)
    requires k < |ec|
    ensures called <= OwnHooks(ec, k)
    ensures forall i :: 0 <= i < |called| ==> (Stops(ec, called[i]) <==> stopped && i == |called| - 1)
    ensures stopped ==> |called| > 0
    ensures !stopped ==> called == OwnHooks(ec, k)
  {
    var errorCapturedHooks := ec[k];
    called := [];
    var i := 0;
    while i < |errorCapturedHooks|
      invariant 0 <= i <= |errorCapturedHooks|
      invariant called == OwnHooks(ec, k)[..i]
      invariant forall j :: 0 <= j < i ==> !Stops(ec, called[j])
    {
      called := called + [HookCall(k, i)];
      if errorCapturedHooks[i] {
        return called, true;
      }
      i := i + 1;
    }
    return called, false;
  }

  /** `handleError(err, instance, type)`: the hooks it calls, in order, and
      how it ends. The hooks start at the instance's parent; the first hook
      that returns false ends the walk; otherwise the app handler, if there
      is one, is called, and failing that the error is logged. */
  method HandleError(arena: seq<Instance>, ec: seq<seq<bool>>, instance: Option<nat>, hasAppErrorHandler: bool)
    returns (calls: seq<HookCall>, outcome: ErrorOutcome)
    requires WellFormed(arena) && InArena(arena, instance) && |ec| == |arena|
    ensures instance.None? ==> calls == [] && outcome == Logged
    ensures instance.Some? ==>
      var all := AllHooks(arena, ec, arena[instance.value].parent);
      && calls <= all
      && (forall i :: 0 <= i < |calls| ==> (Stops(ec, calls[i]) <==> outcome.Captured? && i == |calls| - 1))
      && (outcome.Captured? ==> |calls| > 0 && calls[|calls| - 1] == outcome.hook)
      && (!outcome.Captured? ==> calls == all && outcome == if hasAppErrorHandler then AppHandler else Logged)
  {
    calls := [];
    if instance.Some? {
      var cur := arena[instance.value].parent;
      ghost var all := AllHooks(arena, ec, cur);
      while cur.Some?
        invariant InArena(arena, cur)
        invariant calls + AllHooks(arena, ec, cur) == all
        invariant forall j :: 0 <= j < |calls| ==> IsHookOf(ec, calls[j]) && !Stops(ec, calls[j])
        decreases if cur.None? then 0 else cur.value + 1
      {
        var k := cur.value;
        ghost var own, rest := OwnHooks(ec, k), AllHooks(arena, ec, arena[k].parent);
        assert AllHooks(arena, ec, cur) == own + rest;
        var called, stopped := CallHooks(ec, k);
        WalkStep(ec, calls, called, own, rest, stopped);
        calls := calls + called;
        if stopped {
          outcome := Captured(called[|called| - 1]);
          return;
        }
        cur := arena[k].parent;
      }
      if hasAppErrorHandler {
        outcome := AppHandler;
        return;
      }
    }
    outcome := Logged;
  }

  /** One component of the `handleError` walk: its hooks, as far as they
      ran, extend the calls made so far. */
  lemma WalkStep(ec: seq<seq<bool>>, prev: seq<HookCall>, called: seq<HookCall>, own: seq<HookCall>,
                 rest: seq<HookCall>, stopped: bool)
    requires forall j :: 0 <= j < |own| ==> IsHookOf(ec, own[j])
    requires forall j :: 0 <= j < |prev| ==> IsHookOf(ec, prev[j]) && !Stops(ec, prev[j])
    requires called <= own
    requires forall i :: 0 <= i < |called| ==> (Stops(ec, called[i]) <==> stopped && i == |called| - 1)
    requires stopped ==> |called| > 0
    requires !stopped ==> called == own
    ensures prev + called <= prev + (own + rest)
    ensures forall i :: 0 <= i < |prev + called| ==>
      IsHookOf(ec, (prev + called)[i]) && (Stops(ec, (prev + called)[i]) <==> stopped && i == |prev + called| - 1)
    ensures !stopped ==> prev + called + rest == prev + (own + rest)
  {
    forall i | 0 <= i < |prev + called|
      ensures IsHookOf(ec, (prev + called)[i])
      ensures Stops(ec, (prev + called)[i]) <==> stopped && i == |prev + called| - 1
    {
      if i >= |prev| {
        assert (prev + called)[i] == called[i - |prev|] == own[i - |prev|];
      }
    }
    assert prev + (own + rest) == prev + own + rest;
    PrefixAppend(prev, called, own, rest);
  }

  lemma PrefixAppend<T>(prev: seq<T>, called: seq<T>, own: seq<T>, rest: seq<T>)
    requires called <= own
    ensures prev + called <= prev + own + rest
  {
    assert (prev + own + rest)[..|prev + called|] == prev + called;
  }

  // ----- getComponentTrace -----

  /** One entry of a component trace. */
  datatype TraceEntry = TraceEntry(vnode: nat, recurseCount: nat)

  /** The vnodes of the instances on the chain from `top`. */
  function VNodeChain(arena: seq<Instance>, top: Option<nat>): (r: seq<nat>)
    requires WellFormed(arena) && InArena(arena, top)
    ensures |r| == |Chain(arena, top)|
    decreases if top.None? then 0 else top.value + 1
  {
    if top.None? then [] else [arena[top.value].vnode] + VNodeChain(arena, arena[top.value].parent)
  }

  /** One step of the trace loop: a vnode equal to that of the first entry
      bumps its count, any other is appended. */
  function TraceStep(trace: seq<TraceEntry>, v: nat): seq<TraceEntry>
  {
    if |trace| > 0 && trace[0].vnode == v then trace[0 := TraceEntry(v, trace[0].recurseCount + 1)]
    else trace + [TraceEntry(v, 0)]
  }

  /** The trace the loop builds from the vnodes `chain`, in order. */
  function TraceOf(chain: seq<nat>): seq<TraceEntry>
  {
    if chain == [] then [] else TraceStep(TraceOf(chain[..|chain| - 1]), chain[|chain| - 1])
  }

  /** `getComponentTrace()`, for the warning stack whose top vnode is that of
      instance `top` (None for an empty stack). The source takes each next
      vnode from the current one, so a vnode met twice would be a cycle and
      its loop would not end; every run that returns meets distinct vnodes. */
  method GetComponentTrace(arena: seq<Instance>, top: Option<nat>) returns (normalizedStack: seq<TraceEntry>)
    requires WellFormed(arena) && InArena(arena, top)
    requires Distinct(VNodeChain(arena, top))
    ensures normalizedStack == TraceOf(VNodeChain(arena, top))
    ensures |normalizedStack| == |VNodeChain(arena, top)|
    ensures forall i :: 0 <= i < |normalizedStack| ==> normalizedStack[i] == TraceEntry(VNodeChain(arena, top)[i], 0)
  {
    normalizedStack := [];
    if top.None? {
      return;
    }
    var cur := top;
    ghost var done: seq<nat> := [];
    while cur.Some?
      invariant InArena(arena, cur)
      invariant done + VNodeChain(arena, cur) == VNodeChain(arena, top)
      invariant normalizedStack == TraceOf(done)
      decreases if cur.None? then 0 else cur.value + 1
    {
      var currentVNode := arena[cur.value].vnode;
      if |normalizedStack| > 0 && normalizedStack[0].vnode == currentVNode {
        normalizedStack := normalizedStack[0 := TraceEntry(currentVNode, normalizedStack[0].recurseCount + 1)];
      } else {
        normalizedStack := normalizedStack + [TraceEntry(currentVNode, 0)];
      }
      assert (done + [currentVNode])[..|done|] == done;
      done := done + [currentVNode];
      cur := arena[cur.value].parent;
    }
    assert done == VNodeChain(arena, top);
    DistinctChainTrace(done);
  }

  function TotalRecursion(trace: seq<TraceEntry>): nat
  {
    if trace == [] then 0 else trace[0].recurseCount + TotalRecursion(trace[1..])
  }

  lemma {:induction false} TotalRecursionAppend(trace: seq<TraceEntry>, e: TraceEntry)
    ensures TotalRecursion(trace + [e]) == TotalRecursion(trace) + e.recurseCount
    decreases |trace|
  {
    if trace == [] {
      assert [e][1..] == [];
    } else {
      assert (trace + [e])[1..] == trace[1..] + [e];
      TotalRecursionAppend(trace[1..], e);
    }
  }

  /** Every vnode of the chain is accounted for: each either opened an entry
      or was counted as a recursive call of one. */
  lemma {:induction false} TraceAccountsForChain(chain: seq<nat>)
    ensures |TraceOf(chain)| + TotalRecursion(TraceOf(chain)) == |chain|
    decreases |chain|
  {
    if chain != [] {
      var n := |chain| - 1;
      var prev := TraceOf(chain[..n]);
      TraceAccountsForChain(chain[..n]);
      if |prev| > 0 && prev[0].vnode == chain[n] {
        var bumped := prev[0 := TraceEntry(chain[n], prev[0].recurseCount + 1)];
        assert bumped[1..] == prev[1..];
      } else {
        TotalRecursionAppend(prev, TraceEntry(chain[n], 0));
      }
    }
  }

  /** The trace starts at the stack's top vnode, only its first entry ever
      counts recursive calls, and every entry is a vnode of the chain. */
  lemma {:induction false} TraceShape(chain: seq<nat>)
    ensures var t := TraceOf(chain);
            && (chain != [] ==> |t| > 0 && t[0].vnode == chain[0])
            && (forall i :: 1 <= i < |t| ==> t[i].recurseCount == 0)
            && (forall i :: 0 <= i < |t| ==> t[i].vnode in chain)
    decreases |chain|
  {
    if chain != [] {
      var n := |chain| - 1;
      TraceShape(chain[..n]);
      var prev := TraceOf(chain[..n]);
      if n > 0 {
        assert chain[..n][0] == chain[0];
      }
      forall i | 0 <= i < |TraceOf(chain)| ensures TraceOf(chain)[i].vnode in chain {
        if i < |prev| {
          assert prev[i].vnode in chain[..n];
        }
      }
    }
  }

  predicate Distinct(chain: seq<nat>)
  {
    forall i, j :: 0 <= i < j < |chain| ==> chain[i] != chain[j]
  }

  /** On a chain without repeated vnodes, as in a tree of distinct vnodes,
      the trace is the chain itself with no recursion counted. */
  lemma {:induction false} DistinctChainTrace(chain: seq<nat>)
    requires Distinct(chain)
    ensures |TraceOf(chain)| == |chain|
    ensures forall i :: 0 <= i < |chain| ==> TraceOf(chain)[i] == TraceEntry(chain[i], 0)
    decreases |chain|
  {
    if chain != [] {
      var n := |chain| - 1;
      assert Distinct(chain[..n]);
      DistinctChainTrace(chain[..n]);
      var prev := TraceOf(chain[..n]);
      if n > 0 {
        assert prev[0].vnode == chain[0] != chain[n];
      }
    }
  }
}
