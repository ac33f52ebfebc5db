/** The callback gate (src/native_backend_io_core.cpp): admission, per-thread nesting
    and revocation, over any number of gates and threads. */
module CallbackGate {
  datatype Option<T> = None | Some(value: T)

  datatype Gate = Gate(active: nat, accepting: bool)

  /** A revocation: the depth the thread itself has, and whether the gate is closed yet. */
  datatype Revocation = Revocation(gate: nat, ownDepth: nat, closed: bool)

  /** `stack` holds the gates of the calls a thread is inside, innermost last;
      `leaving` is one it has left but not yet counted down. */
  datatype Thread = Thread(stack: seq<nat>, leaving: Option<nat>, revoking: Option<Revocation>)

  datatype State = State(gates: seq<Gate>, threads: seq<Thread>)

  datatype Step = Enter(t: nat, gate: nat) | Pop(t: nat) | CountDown(t: nat)
                | BeginRevoke(t: nat, gate: nat) | Close(t: nat) | Return(t: nat)

  // ---- The lock-held blocks -----------------------------------------------------------

  function Entered(g: Gate): Gate {
    if g.accepting then g.(active := g.active + 1) else g
  }

  function CountedDown(g: Gate): Gate {
    if g.active > 0 then g.(active := g.active - 1) else g
  }

  /** How many calls of a stack go through a gate. */
  function Depth(stack: seq<nat>, gate: nat): nat {
    if stack == [] then 0
    else Depth(stack[..|stack| - 1], gate) + if stack[|stack| - 1] == gate then 1 else 0
  }

  class NativeGate {
    var activeCalls: nat
    var accepting: bool

    function State(): Gate
      reads this
    {
      Gate(activeCalls, accepting)
    }

    constructor ()
      ensures State() == Gate(0, true)
    {
      activeCalls, accepting := 0, true;
    }

    method Admit() returns (admitted: bool)
      modifies this
      ensures State() == Entered(old(State())) && admitted == old(accepting)
    {
      admitted := accepting;
      if accepting {
        activeCalls := activeCalls + 1;
      }
    }

    method Leave()
      requires activeCalls > 0
      modifies this
      ensures State() == CountedDown(old(State()))
    {
      activeCalls := activeCalls - 1;
    }

    method Revoke()
      modifies this
      ensures State() == old(State()).(accepting := false)
    {
      accepting := false;
    }

    /** A thread's nesting depth, counted along its invocations from the innermost out. */
    static method CurrentDepth(stack: seq<nat>, gate: nat) returns (depth: nat)
      ensures depth == Depth(stack, gate)
    {
      depth := 0;
      var k := |stack|;
      assert stack[..k] == stack;
      while k > 0
        invariant 0 <= k <= |stack| && depth + Depth(stack[..k], gate) == Depth(stack, gate)
      {
        k := k - 1;
        assert stack[..k + 1][..k] == stack[..k];
        if stack[k] == gate {
          depth := depth + 1;
        }
      }
    }
  }

  // ---- Steps -------------------------------------------------------------------------

  predicate Free(th: Thread) {
    th.leaving.None? && th.revoking.None?
  }

  predicate Can(s: State, step: Step) {
    && step.t < |s.threads|
    && var th := s.threads[step.t];
      match step
      case Enter(_, gate) => Free(th) && gate < |s.gates|
      case Pop(_) => Free(th) && th.stack != []
      case CountDown(_) => th.leaving.Some? && th.leaving.value < |s.gates|
      case BeginRevoke(_, gate) => Free(th) && gate < |s.gates|
      case Close(_) => th.revoking.Some? && !th.revoking.value.closed && th.revoking.value.gate < |s.gates|
      case Return(_) =>
        && th.revoking.Some? && th.revoking.value.closed && th.revoking.value.gate < |s.gates|
        && s.gates[th.revoking.value.gate].active == th.revoking.value.ownDepth
  }

  function After(s: State, step: Step): State
    requires Can(s, step)
  {
    var t := step.t;
    var th := s.threads[t];
    match step
    case Enter(_, gate) =>
      if s.gates[gate].accepting then
        State(s.gates[gate := Entered(s.gates[gate])], s.threads[t := th.(stack := th.stack + [gate])])
      else s
    case Pop(_) =>
      s.(threads := s.threads[t := th.(stack := th.stack[..|th.stack| - 1], leaving := Some(th.stack[|th.stack| - 1]))])
    case CountDown(_) =>
      State(s.gates[th.leaving.value := CountedDown(s.gates[th.leaving.value])], s.threads[t := th.(leaving := None)])
    case BeginRevoke(_, gate) =>
      s.(threads := s.threads[t := th.(revoking := Some(Revocation(gate, Depth(th.stack, gate), false)))])
    case Close(_) =>
      var gate := th.revoking.value.gate;
      State(s.gates[gate := s.gates[gate].(accepting := false)],
            s.threads[t := th.(revoking := Some(th.revoking.value.(closed := true)))])
    case Return(_) =>
      s.(threads := s.threads[t := th.(revoking := None)])
  }

  // ---- The count -----------------------------------------------------------------------

  /** Calls of one thread that count as active for a gate. */
  function Calls(th: Thread, gate: nat): nat {
    Depth(th.stack, gate) + if th.leaving == Some(gate) then 1 else 0
  }

  function AllCalls(threads: seq<Thread>, gate: nat): nat {
    if threads == [] then 0 else AllCalls(threads[..|threads| - 1], gate) + Calls(threads[|threads| - 1], gate)
  }

  /** Only gates there are. */
  predicate GatesKnown(th: Thread, gates: nat) {
    (forall k | 0 <= k < |th.stack| :: th.stack[k] < gates) && (th.leaving.Some? ==> th.leaving.value < gates)
  }

  ghost predicate Counted(s: State, g: nat)
    requires g < |s.gates|
  {
    s.gates[g].active == AllCalls(s.threads, g)
  }

  predicate RevocationOk(s: State, t: nat)
    requires t < |s.threads|
  {
    s.threads[t].revoking.Some? ==>
      var r := s.threads[t].revoking.value;
      && r.gate < |s.gates| && s.threads[t].leaving.None? && r.ownDepth == Depth(s.threads[t].stack, r.gate)
      && (r.closed ==> !s.gates[r.gate].accepting)
  }

  /** The gates and revocations of every thread are right, and every gate counts all
      calls that are in it. */
  ghost predicate Inv(s: State) {
    && (forall t: nat | t < |s.threads| :: GatesKnown(s.threads[t], |s.gates|) && RevocationOk(s, t))
    && (forall g: nat | g < |s.gates| :: Counted(s, g))
  }

  lemma {:induction false} AllCallsSet(threads: seq<Thread>, t: nat, th: Thread, gate: nat)
    requires t < |threads|
    ensures AllCalls(threads[t := th], gate) + Calls(threads[t], gate) == AllCalls(threads, gate) + Calls(th, gate)
  {
    var last, set_ := |threads| - 1, threads[t := th];
    if t < last {
      AllCallsSet(threads[..last], t, th, gate);
      assert set_[..last] == threads[..last][t := th];
    } else {
      assert set_[..last] == threads[..last];
    }
  }

  lemma {:induction false} CallsCount(threads: seq<Thread>, t: nat, gate: nat)
    requires t < |threads|
    ensures Calls(threads[t], gate) <= AllCalls(threads, gate)
    ensures forall u: nat | u < |threads| && u != t :: Calls(threads[t], gate) + Calls(threads[u], gate) <= AllCalls(threads, gate)
  {
    var last := |threads| - 1;
    if t < last {
      CallsCount(threads[..last], t, gate);
    }
    forall u: nat | u < |threads| && u != t
      ensures Calls(threads[t], gate) + Calls(threads[u], gate) <= AllCalls(threads, gate)
    {
      if u < last {
        if t == last {
          CallsCount(threads[..last], u, gate);
        }
        assert threads[..last][u] == threads[u];
      }
    }
  }

  lemma {:induction false} DepthPush(stack: seq<nat>, added: nat, gate: nat)
    ensures Depth(stack + [added], gate) == Depth(stack, gate) + if added == gate then 1 else 0
  {
    assert (stack + [added])[..|stack|] == stack;
  }

  lemma {:induction false} DepthPop(stack: seq<nat>, gate: nat)
    requires stack != []
    ensures Depth(stack, gate) == Depth(stack[..|stack| - 1], gate) + if stack[|stack| - 1] == gate then 1 else 0
  {
  }

  /** How a step changes the calls of its thread. */
  lemma {:induction false} StepCalls(s: State, step: Step, gate: nat)
    requires Can(s, step)
    ensures var th, after := s.threads[step.t], After(s, step).threads[step.t];
            match step
            case Enter(_, entered) =>
              Calls(after, gate) == Calls(th, gate) + if s.gates[entered].accepting && entered == gate then 1 else 0
            case CountDown(_) => Calls(after, gate) == Calls(th, gate) - if th.leaving.value == gate then 1 else 0
            case _ => Calls(after, gate) == Calls(th, gate)
  {
    hide Depth;
    var th := s.threads[step.t];
    if step.Enter? {
      DepthPush(th.stack, step.gate, gate);
    } else if step.Pop? {
      DepthPop(th.stack, gate);
    }
  }

  lemma {:induction false} CountKeeps(s: State, step: Step, g: nat)
    requires Can(s, step) && g < |s.gates| && Counted(s, g)
    ensures |After(s, step).gates| == |s.gates| && Counted(After(s, step), g)
  {
    hide AllCalls, Calls, Depth;
    var t, after := step.t, After(s, step);
    AllCallsSet(s.threads, t, after.threads[t], g);
    CallsCount(s.threads, t, g);
    StepCalls(s, step, g);
    CallsAtLeast(s.threads[t], g);
    assert s.threads[t := s.threads[t]] == s.threads;
  }

  lemma {:induction false} CallsAtLeast(th: Thread, gate: nat)
    ensures th.leaving == Some(gate) ==> Calls(th, gate) >= 1
  {
  }

  lemma {:induction false} ThreadKeeps(s: State, step: Step, u: nat)
    requires Can(s, step) && u < |s.threads| && GatesKnown(s.threads[u], |s.gates|) && RevocationOk(s, u)
    ensures |After(s, step).threads| == |s.threads| && |After(s, step).gates| == |s.gates|
    ensures GatesKnown(After(s, step).threads[u], |s.gates|) && RevocationOk(After(s, step), u)
  {
    hide Depth;
  }

  lemma {:induction false} StepKeeps(s: State, step: Step)
    requires Inv(s) && Can(s, step)
    ensures Inv(After(s, step))
  {
    hide Counted, GatesKnown, RevocationOk;
    var after := After(s, step);
    assert |after.gates| == |s.gates| && |after.threads| == |s.threads|;
    hide After;
    forall g: nat | g < |s.gates|
      ensures Counted(after, g)
    {
      CountKeeps(s, step, g);
    }
    forall u: nat | u < |s.threads|
      ensures GatesKnown(after.threads[u], |s.gates|) && RevocationOk(after, u)
    {
      ThreadKeeps(s, step, u);
    }
  }

  predicate Initial(s: State) {
    && (forall g: nat | g < |s.gates| :: s.gates[g] == Gate(0, true))
    && (forall t: nat | t < |s.threads| :: s.threads[t] == Thread([], None, None))
  }

  lemma {:induction false} NoCalls(threads: seq<Thread>, gate: nat)
    requires forall t: nat | t < |threads| :: threads[t] == Thread([], None, None)
    ensures AllCalls(threads, gate) == 0
  {
    if threads != [] {
      NoCalls(threads[..|threads| - 1], gate);
    }
  }

  lemma {:induction false} InitialInv(s: State)
    requires Initial(s)
    ensures Inv(s)
  {
    forall g: nat | g < |s.gates|
      ensures s.gates[g].active == AllCalls(s.threads, g)
    {
      NoCalls(s.threads, g);
    }
  }

  /** The count of active calls is never taken below zero. */
  lemma {:induction false} CountNeverUnderflows(s: State, t: nat)
    requires Inv(s) && Can(s, CountDown(t))
    ensures s.gates[s.threads[t].leaving.value].active > 0
  {
    CallsCount(s.threads, t, s.threads[t].leaving.value);
    assert Counted(s, s.threads[t].leaving.value);
  }

  // ---- Revocation ----------------------------------------------------------------------

  /** When a revocation returns, the calls still running through the gate are the
      revoking thread's own. */
  lemma {:induction false} OnlyOwnCallsAreLeft(s: State, t: nat, gate: nat)
    requires Inv(s) && Can(s, Return(t)) && s.threads[t].revoking.value.gate == gate
    ensures !s.gates[gate].accepting
    ensures forall u: nat | u < |s.threads| && u != t :: Calls(s.threads[u], gate) == 0
    ensures Calls(s.threads[t], gate) == Depth(s.threads[t].stack, gate) == s.gates[gate].active
  {
    CallsCount(s.threads, t, gate);
    assert Counted(s, gate) && RevocationOk(s, t);
  }

  ghost predicate IsRun(states: seq<State>, steps: seq<Step>) {
    && |states| == |steps| + 1
    && forall k | 0 <= k < |steps| :: Can(states[k], steps[k]) && states[k + 1] == After(states[k], steps[k])
  }

  lemma {:induction false} ClosedStep(s: State, step: Step, gate: nat, u: nat)
    requires Can(s, step) && gate < |s.gates| && !s.gates[gate].accepting && u < |s.threads|
    ensures var after := After(s, step);
            && |after.gates| == |s.gates| && |after.threads| == |s.threads| && !after.gates[gate].accepting
            && Depth(after.threads[u].stack, gate) <= Depth(s.threads[u].stack, gate)
            && Calls(after.threads[u], gate) <= Calls(s.threads[u], gate)
  {
    hide Depth;
    var th := s.threads[step.t];
    StepCalls(s, step, gate);
    if step.Enter? {
      DepthPush(th.stack, step.gate, gate);
    } else if step.Pop? {
      DepthPop(th.stack, gate);
    }
  }

  /** In any run, once a revocation has returned no call is ever admitted again: no
      other thread enters the gate, and the revoking thread only gets out of it. */
  lemma {:induction false} NothingIsAdmittedAfter(states: seq<State>, steps: seq<Step>, t: nat, gate: nat, u: nat)
    requires IsRun(states, steps) && Inv(states[0]) && |steps| > 0
    requires steps[0] == Return(t) && Can(states[0], Return(t)) && states[0].threads[t].revoking.value.gate == gate
    requires u < |states[0].threads|
    ensures var last := states[|states| - 1];
            && gate < |last.gates| && !last.gates[gate].accepting && |last.threads| == |states[0].threads|
            && Calls(last.threads[u], gate) <= Calls(states[0].threads[u], gate)
            && (u != t ==> Calls(last.threads[u], gate) == 0)
  {
    OnlyOwnCallsAreLeft(states[0], t, gate);
    StaysClosed(states, steps, gate, u, |steps|);
  }

  lemma {:induction false} StaysClosed(states: seq<State>, steps: seq<Step>, gate: nat, u: nat, k: nat)
    requires IsRun(states, steps) && k <= |steps|
    requires gate < |states[0].gates| && !states[0].gates[gate].accepting && u < |states[0].threads|
    ensures gate < |states[k].gates| && !states[k].gates[gate].accepting && |states[k].threads| == |states[0].threads|
    ensures Calls(states[k].threads[u], gate) <= Calls(states[0].threads[u], gate)
  {
    if k > 0 {
      StaysClosed(states, steps, gate, u, k - 1);
      ClosedStep(states[k - 1], steps[k - 1], gate, u);
    }
  }

  lemma {:induction false} RunKeeps(states: seq<State>, steps: seq<Step>, k: nat)
    requires IsRun(states, steps) && Inv(states[0]) && k < |states|
    ensures Inv(states[k])
  {
    if k > 0 {
      RunKeeps(states, steps, k - 1);
      StepKeeps(states[k - 1], steps[k - 1]);
    }
  }

  // ---- Revocations that wait for each other ---------------------------------------------

  predicate Revokes(s: State, t: nat) {
    t < |s.threads| && s.threads[t].revoking.Some?
  }

  /** `t` revokes a gate that another thread of the set is in. */
  predicate WaitsForOther(s: State, blocked: set<nat>, t: nat) {
    && Revokes(s, t)
    && exists u :: u in blocked && u != t && u < |s.threads| && Depth(s.threads[u].stack, s.threads[t].revoking.value.gate) > 0
  }

  /** Threads that wait for each other. */
  predicate BlockedSet(s: State, blocked: set<nat>) {
    forall t | t in blocked :: WaitsForOther(s, blocked, t)
  }

  ghost predicate Blocked(s: State, t: nat) {
    exists blocked: set<nat> :: t in blocked && BlockedSet(s, blocked)
  }

  /** A call of another thread keeps a revocation from returning. */
  lemma {:induction false} CallKeepsFromReturning(s: State, t: nat, u: nat)
    requires Inv(s) && Revokes(s, t) && u < |s.threads| && u != t
    requires Depth(s.threads[u].stack, s.threads[t].revoking.value.gate) > 0
    ensures !Can(s, Return(t))
  {
    hide AllCalls, Depth;
    var gate := s.threads[t].revoking.value.gate;
    CallsCount(s.threads, t, gate);
    assert RevocationOk(s, t) && Counted(s, gate);
    assert Calls(s.threads[t], gate) + Calls(s.threads[u], gate) <= AllCalls(s.threads, gate);
  }

  lemma {:induction false} BlockedCannotReturn(s: State, blocked: set<nat>, t: nat)
    requires Inv(s) && BlockedSet(s, blocked) && t in blocked
    ensures Revokes(s, t) && !Can(s, Return(t))
  {
    hide Inv, Can, Depth;
    assert WaitsForOther(s, blocked, t);
    var u :| u in blocked && u != t && u < |s.threads| && Depth(s.threads[u].stack, s.threads[t].revoking.value.gate) > 0;
    CallKeepsFromReturning(s, t, u);
  }

  /** A revoking thread that cannot return only closes its gate. */
  lemma {:induction false} RevokerStays(s: State, step: Step, t: nat)
    requires Inv(s) && Revokes(s, t) && !Can(s, Return(t)) && Can(s, step)
    ensures var after := After(s, step);
            |after.threads| == |s.threads| && Revokes(after, t) && after.threads[t].stack == s.threads[t].stack
            && after.threads[t].revoking.value.gate == s.threads[t].revoking.value.gate
  {
  }

  lemma {:induction false} SameWaits(s: State, after: State, blocked: set<nat>)
    requires |after.threads| == |s.threads|
    requires forall t | t in blocked ::
      Revokes(s, t) && Revokes(after, t) && after.threads[t].stack == s.threads[t].stack
      && after.threads[t].revoking.value.gate == s.threads[t].revoking.value.gate
    ensures BlockedSet(s, blocked) <==> BlockedSet(after, blocked)
  {
    hide Depth;
    forall t | t in blocked
      ensures WaitsForOther(s, blocked, t) <==> WaitsForOther(after, blocked, t)
    {
    }
  }

  /** No step of any thread frees a blocked set. */
  lemma {:induction false} BlockedStays(s: State, blocked: set<nat>, step: Step)
    requires Inv(s) && BlockedSet(s, blocked) && Can(s, step)
    ensures BlockedSet(After(s, step), blocked)
  {
    hide Inv, Can, After, BlockedSet;
    assert |After(s, step).threads| == |s.threads| by {
      SameThreads(s, step);
    }
    forall t | t in blocked
      ensures Revokes(s, t) && Revokes(After(s, step), t) && After(s, step).threads[t].stack == s.threads[t].stack
      ensures After(s, step).threads[t].revoking.value.gate == s.threads[t].revoking.value.gate
    {
      BlockedCannotReturn(s, blocked, t);
      RevokerStays(s, step, t);
    }
    SameWaits(s, After(s, step), blocked);
  }

  lemma {:induction false} SameThreads(s: State, step: Step)
    requires Can(s, step)
    ensures |After(s, step).threads| == |s.threads|
  {
  }

  /** A thread of a blocked set never returns, in any run. */
  lemma {:induction false} BlockedForEver(states: seq<State>, steps: seq<Step>, blocked: set<nat>, t: nat, k: nat)
    requires IsRun(states, steps) && Inv(states[0]) && BlockedSet(states[0], blocked) && t in blocked && k < |states|
    ensures BlockedSet(states[k], blocked) && !Can(states[k], Return(t))
  {
    hide Inv, Can, After, BlockedSet, Revokes;
    RunKeeps(states, steps, k);
    if k > 0 {
      BlockedForEver(states, steps, blocked, t, k - 1);
      RunKeeps(states, steps, k - 1);
      BlockedStays(states[k - 1], blocked, steps[k - 1]);
    }
    BlockedCannotReturn(states[k], blocked, t);
  }

  // ---- A revocation that is not blocked can return -----------------------------------------

  function Work(th: Thread): nat {
    2 * |th.stack| + (if th.leaving.Some? then 1 else 0)
    + (if th.revoking.None? then 0 else if th.revoking.value.closed then 1 else 2)
  }

  /** What the threads still have to do to get out of everything. */
  function AllWork(threads: seq<Thread>): nat {
    if threads == [] then 0 else AllWork(threads[..|threads| - 1]) + Work(threads[|threads| - 1])
  }

  lemma {:induction false} AllWorkSet(threads: seq<Thread>, t: nat, th: Thread)
    requires t < |threads|
    ensures AllWork(threads[t := th]) + Work(threads[t]) == AllWork(threads) + Work(th)
  {
    var last, set_ := |threads| - 1, threads[t := th];
    if t < last {
      AllWorkSet(threads[..last], t, th);
      assert set_[..last] == threads[..last][t := th];
    } else {
      assert set_[..last] == threads[..last];
    }
  }

  /** A step out of calls and revocations, rather than into more. */
  predicate GetsOut(step: Step) {
    step.Pop? || step.CountDown? || step.Close? || step.Return?
  }

  lemma {:induction false} GettingOutIsWork(s: State, step: Step)
    requires Can(s, step) && GetsOut(step)
    ensures AllWork(After(s, step).threads) < AllWork(s.threads)
  {
    AllWorkSet(s.threads, step.t, After(s, step).threads[step.t]);
  }

  /** Getting out makes nobody revoke who did not. */
  lemma {:induction false} RevokedBefore(s: State, step: Step, t: nat)
    requires Inv(s) && Can(s, step) && GetsOut(step) && Revokes(After(s, step), t)
    ensures Revokes(s, t) && s.threads[t].stack == After(s, step).threads[t].stack
    ensures s.threads[t].revoking.value.gate == After(s, step).threads[t].revoking.value.gate
  {
  }

  /** Getting out blocks nobody who was not blocked. */
  lemma {:induction false} GettingOutBlocksNobody(s: State, step: Step, t: nat)
    requires Inv(s) && Can(s, step) && GetsOut(step) && !Blocked(s, t)
    ensures !Blocked(After(s, step), t)
  {
    hide Inv, Can, After, BlockedSet;
    SameThreads(s, step);
    forall blocked: set<nat> | t in blocked
      ensures !BlockedSet(After(s, step), blocked)
    {
      if BlockedSet(After(s, step), blocked) {
        forall u | u in blocked
          ensures Revokes(After(s, step), u) && Revokes(s, u) && s.threads[u].stack == After(s, step).threads[u].stack
          ensures s.threads[u].revoking.value.gate == After(s, step).threads[u].revoking.value.gate
        {
          MemberRevokes(After(s, step), blocked, u);
          RevokedBefore(s, step, u);
        }
        SameWaits(s, After(s, step), blocked);
      }
    }
  }

  lemma {:induction false} MemberRevokes(s: State, blocked: set<nat>, t: nat)
    requires BlockedSet(s, blocked) && t in blocked
    ensures Revokes(s, t)
  {
    assert WaitsForOther(s, blocked, t);
  }

  lemma {:induction false} DepthOfEmpty(stack: seq<nat>, gate: nat)
    ensures stack == [] ==> Depth(stack, gate) == 0
  {
  }

  /** Some thread other than `t` has calls when there are more than `t`'s. */
  lemma {:induction false} SomeoneElse(threads: seq<Thread>, t: nat, gate: nat) returns (u: nat)
    requires t < |threads| && AllCalls(threads, gate) > Calls(threads[t], gate)
    ensures u < |threads| && u != t && Calls(threads[u], gate) > 0
  {
    var last := |threads| - 1;
    if t == last {
      u := Someone(threads[..last], gate);
    } else if Calls(threads[last], gate) > 0 {
      u := last;
    } else {
      u := SomeoneElse(threads[..last], t, gate);
    }
  }

  lemma {:induction false} Someone(threads: seq<Thread>, gate: nat) returns (u: nat)
    requires AllCalls(threads, gate) > 0
    ensures u < |threads| && Calls(threads[u], gate) > 0
  {
    var last := |threads| - 1;
    if Calls(threads[last], gate) > 0 {
      u := last;
    } else {
      u := Someone(threads[..last], gate);
    }
  }

  /** When no thread can get out of anything, all revoking threads block each other. */
  lemma {:induction false} StuckIsBlocked(s: State, t: nat)
    requires Inv(s) && Revokes(s, t) && forall step | GetsOut(step) :: !Can(s, step)
    ensures Blocked(s, t)
  {
    var blocked := set u: nat | u < |s.threads| && s.threads[u].revoking.Some?;
    forall u | u in blocked
      ensures WaitsForOther(s, blocked, u)
    {
      var r := s.threads[u].revoking.value;
      assert !Can(s, Close(u)) && !Can(s, Return(u));
      CallsCount(s.threads, u, r.gate);
      assert RevocationOk(s, u) && Counted(s, r.gate);
      var v := SomeoneElse(s.threads, u, r.gate);
      var th := s.threads[v];
      assert GatesKnown(th, |s.gates|) && !Can(s, CountDown(v)) && !Can(s, Pop(v));
      DepthOfEmpty(th.stack, r.gate);
      assert v in blocked;
    }
    assert t in blocked && BlockedSet(s, blocked);
  }

  ghost predicate CanReturnFrom(s: State, t: nat) {
    exists states: seq<State>, steps: seq<Step> :: IsRun(states, steps) && states[0] == s && Can(states[|steps|], Return(t))
  }

  lemma {:induction false} OneStepBefore(s: State, step: Step, t: nat)
    requires Can(s, step) && CanReturnFrom(After(s, step), t)
    ensures CanReturnFrom(s, t)
  {
    hide Can, After;
    var states, steps :| IsRun(states, steps) && states[0] == After(s, step) && Can(states[|steps|], Return(t));
    var allStates, allSteps := [s] + states, [step] + steps;
    assert forall k | 0 <= k < |allSteps| :: Can(allStates[k], allSteps[k]) && allStates[k + 1] == After(allStates[k], allSteps[k]);
    assert allStates[|allSteps|] == states[|steps|];
    assert IsRun(allStates, allSteps);
  }

  lemma {:induction false} UnblockedCanReturn(s: State, t: nat)
    requires Inv(s) && Revokes(s, t) && !Blocked(s, t)
    ensures CanReturnFrom(s, t)
    decreases AllWork(s.threads)
  {
    if Can(s, Return(t)) {
      var none: seq<Step> := [];
      assert IsRun([s], none) && Can([s][|none|], Return(t));
    } else {
      if forall step | GetsOut(step) :: !Can(s, step) {
        StuckIsBlocked(s, t);
      }
      var step :| GetsOut(step) && Can(s, step);
      StepKeeps(s, step);
      GettingOutIsWork(s, step);
      GettingOutBlocksNobody(s, step, t);
      UnblockedCanReturn(After(s, step), t);
      OneStepBefore(s, step, t);
    }
  }

  /** A revocation can return in some continuation if and only if it is not in a set
      of threads that each revoke a gate another of them is in. */
  lemma {:induction false} ReturnsUnlessBlocked(s: State, t: nat)
    requires Inv(s) && Revokes(s, t)
    ensures CanReturnFrom(s, t) <==> !Blocked(s, t)
  {
    if Blocked(s, t) {
      var blocked: set<nat> :| t in blocked && BlockedSet(s, blocked);
      forall states, steps | IsRun(states, steps) && states[0] == s
        ensures !Can(states[|steps|], Return(t))
      {
        BlockedForEver(states, steps, blocked, t, |steps|);
      }
    } else {
      UnblockedCanReturn(s, t);
    }
  }

  lemma {:induction false} EnterEffect(s: State, t: nat, gate: nat)
    requires t < |s.threads| && gate < |s.gates| && Free(s.threads[t]) && s.gates[gate].accepting
    ensures Can(s, Enter(t, gate))
    ensures After(s, Enter(t, gate)) ==
      State(s.gates[gate := Entered(s.gates[gate])], s.threads[t := s.threads[t].(stack := s.threads[t].stack + [gate])])
  {
  }

  lemma {:induction false} RevokeEffect(s: State, t: nat, gate: nat)
    requires t < |s.threads| && gate < |s.gates| && Free(s.threads[t])
    ensures Can(s, BeginRevoke(t, gate))
    ensures After(s, BeginRevoke(t, gate)) ==
      State(s.gates, s.threads[t := s.threads[t].(revoking := Some(Revocation(gate, Depth(s.threads[t].stack, gate), false)))])
  {
  }

  /** From the start: two threads enter one gate each, and each revokes the other's. */
  lemma {:induction false} BlockedIsReachable() returns (states: seq<State>, steps: seq<Step>)
    ensures IsRun(states, steps) && Initial(states[0])
    ensures var last := states[|steps|]; Revokes(last, 0) && Revokes(last, 1) && Blocked(last, 0) && Blocked(last, 1)
  {
    hide Can, After, Depth;
    var s0 := State([Gate(0, true), Gate(0, true)], [Thread([], None, None), Thread([], None, None)]);
    EnterEffect(s0, 0, 0);
    var s1 := After(s0, Enter(0, 0));
    EnterEffect(s1, 1, 1);
    var s2 := After(s1, Enter(1, 1));
    RevokeEffect(s2, 0, 1);
    var s3 := After(s2, BeginRevoke(0, 1));
    RevokeEffect(s3, 1, 0);
    var s4 := After(s3, BeginRevoke(1, 0));
    states, steps := [s0, s1, s2, s3, s4], [Enter(0, 0), Enter(1, 1), BeginRevoke(0, 1), BeginRevoke(1, 0)];
    DepthPush([], 0, 0);
    DepthPush([], 1, 1);
    assert WaitsForOther(s4, {0, 1}, 0) && WaitsForOther(s4, {0, 1}, 1);
    assert BlockedSet(s4, {0, 1});
  }

  predicate RevokesFromInside(s: State, t: nat, gate: nat) {
    Revokes(s, t) && s.threads[t].revoking.value.gate == gate && Depth(s.threads[t].stack, gate) > 0
  }

  /** Two threads that revoke one gate from inside its callbacks block each other. */
  lemma {:induction false} RevokersBlockEachOther(s: State, t: nat, u: nat, gate: nat)
    requires t != u && RevokesFromInside(s, t, gate) && RevokesFromInside(s, u, gate)
    ensures Blocked(s, t) && Blocked(s, u)
  {
    assert WaitsForOther(s, {t, u}, t) && WaitsForOther(s, {t, u}, u);
    assert BlockedSet(s, {t, u});
  }
}
