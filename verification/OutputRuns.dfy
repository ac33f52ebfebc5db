/** What holds in every state of every run of the paused-output protocol. */
module OutputRuns {
  import opened OutputBlocks
  import opened OutputProtocol

  ghost predicate IsRun(l: Limits, states: seq<State>, steps: seq<Step>) {
    && |states| == |steps| + 1 && states[0] == Initial()
    && forall k | 0 <= k < |steps| :: Can(l, states[k], steps[k]) && states[k + 1] == After(l, states[k], steps[k])
  }

  lemma {:induction false} RunKeeps(l: Limits, states: seq<State>, steps: seq<Step>, k: nat)
    requires IsRun(l, states, steps) && k < |states|
    ensures Inv(l, states[k])
  {
    hide Inv, After, Can;
    if k == 0 {
      InitialInv(l);
    } else {
      RunKeeps(l, states, steps, k - 1);
      StepKeeps(l, states[k - 1], steps[k - 1]);
    }
  }

  /** The one chunk that is between the FIFO, or the reader, and a callback's return. */
  ghost function ChunkInFlight(s: State): Bytes {
    if i :| i in s.frames && !s.frames[i].Looping? then s.frames[i].bytes else DirectBytes(s.reader)
  }

  /** While the callbacks are set nothing is lost, repeated or reordered, and the FIFO
      stays within its bound; it does so afterwards as well. */
  lemma {:induction false} NothingIsLost(l: Limits, states: seq<State>, steps: seq<Step>, k: nat)
    requires IsRun(l, states, steps) && k < |states|
    ensures var s := states[k];
            && |s.sh.fifo| <= l.high
            && s.delivered <= s.read
            && (s.sh.hasCallbacks ==> s.delivered + ChunkInFlight(s) + s.sh.fifo + Held(s.reader) == s.read)
  {
    hide After, Can;
    RunKeeps(l, states, steps, k);
    var s := states[k];
    if s.sh.hasCallbacks && s.frames != map[] {
      var i :| i in s.frames;
      assert s.delivered + InFlight(s.frames[i]) + s.sh.fifo + Held(s.reader) == s.read;
      assert ChunkInFlight(s) == InFlight(s.frames[i]);
    }
  }

  /** No two threads are inside the output callback, whatever was revoked. */
  lemma {:induction false} OneCallbackAtATime(l: Limits, states: seq<State>, steps: seq<Step>, k: nat, i: nat, j: nat)
    requires IsRun(l, states, steps) && k < |states|
    ensures i in states[k].frames && states[k].frames[i].Calling? ==>
      && !states[k].reader.Delivering?
      && (j in states[k].frames && states[k].frames[j].Calling? ==> i == j)
  {
    RunKeeps(l, states, steps, k);
  }

  /** The exit callback begins at most once, and only after every byte was delivered. */
  lemma {:induction false} ExitIsLast(l: Limits, states: seq<State>, steps: seq<Step>, k: nat)
    requires IsRun(l, states, steps) && k < |states|
    ensures states[k].exits <= 1
    ensures states[k].exits == 1 ==>
      states[k].delivered == states[k].read && states[k].sh.fifo == [] && states[k].frames == map[] && states[k].reader.Gone?
  {
    RunKeeps(l, states, steps, k);
  }

  /** An exit that was claimed while the callbacks stay set finds nothing undelivered. */
  lemma {:induction false} ExitFindsAllDelivered(l: Limits, states: seq<State>, steps: seq<Step>, k: nat)
    requires IsRun(l, states, steps) && k < |states|
    requires states[k].sh.hasCallbacks && (states[k].sh.exitReported || PastDrain(states[k].waiter))
    ensures states[k].delivered == states[k].read
  {
    RunKeeps(l, states, steps, k);
  }

  /** While output is paused and the process is not stopping, no step takes a chunk
      from the FIFO or sets out to deliver what was read. */
  lemma {:induction false} PauseHolds(l: Limits, s: State, step: Step)
    requires Can(l, s, step)
    requires var t := After(l, s, step); t.sh.paused && !t.sh.DrainStop()
    ensures var t := After(l, s, step);
            && (forall i | i in t.frames && t.frames[i].Taken? :: i in s.frames && s.frames[i] == t.frames[i])
            && (t.reader.Handing? ==> s.reader == t.reader)
            && (t.sh.fifo == s.sh.fifo || exists more: Bytes :: t.sh.fifo == s.sh.fifo + more)
  {
    if step.ReaderHandsOver? {
      assert After(l, s, step).sh.fifo == s.sh.fifo || After(l, s, step).sh.fifo == s.sh.fifo + s.reader.bytes;
    }
  }

  /** Each callback gets at least one byte and no more than a chunk or a read. */
  lemma {:induction false} CallbackSizes(l: Limits, states: seq<State>, steps: seq<Step>, k: nat)
    requires IsRun(l, states, steps) && k < |states|
    ensures forall i | i in states[k].frames && states[k].frames[i].Calling? :: 0 < |states[k].frames[i].bytes| <= l.chunk
    ensures states[k].reader.Delivering? ==> 0 < |states[k].reader.bytes| <= l.readChunk
  {
    RunKeeps(l, states, steps, k);
  }

  // ---- Somebody is in charge of queued bytes ---------------------------------------------

  /** While the callbacks are set, queued bytes wait for a resume or are being replayed. */
  predicate InCharge(s: State) {
    s.sh.hasCallbacks && s.sh.fifo != [] ==> s.sh.paused || s.sh.inProgress
  }

  lemma {:induction false} InChargeReader(l: Limits, s: State, step: Step)
    requires InCharge(s) && Can(l, s, step) && ReaderStep(step)
    ensures InCharge(After(l, s, step))
  {
    hide BytesToRead, MayHandOver, ReaderMayProceed;
  }

  lemma {:induction false} InChargeStart(l: Limits, s: State, step: Step)
    requires Bounded(l, s) && InCharge(s) && Can(l, s, step) && StartStep(step)
    ensures InCharge(After(l, s, step))
  {
    hide TakeSize;
  }

  lemma {:induction false} TurnInCharge(l: Limits, sh: Shared)
    requires sh.inProgress
    ensures var r := FinishTurn(l, sh).0; r.fifo != [] ==> r.paused || r.inProgress
  {
    hide TakeSize;
  }

  lemma {:induction false} TurnMoves(l: Limits, s: State, step: Step)
    requires Can(l, s, step) && step.NextTurn?
    ensures After(l, s, step).sh == FinishTurn(l, s.sh).0 && s.frames != map[]
  {
    hide FinishTurn;
  }

  lemma {:induction false} InChargeTurn(l: Limits, s: State, step: Step)
    requires Can(l, s, step) && step.NextTurn? && Exclusive(s)
    ensures InCharge(After(l, s, step))
  {
    hide Can, After, FinishTurn;
    TurnMoves(l, s, step);
    TurnInCharge(l, s.sh);
  }

  lemma {:induction false} InChargeStop(l: Limits, s: State, step: Step)
    requires Stages(s) && InCharge(s) && Can(l, s, step) && (step.ExitClaims? || step.Shutdown? || step.Revoke?)
    ensures InCharge(After(l, s, step))
  {
  }

  lemma {:induction false} InChargeStep(l: Limits, s: State, step: Step)
    requires Inv(l, s) && InCharge(s) && Can(l, s, step)
    ensures InCharge(After(l, s, step))
  {
    hide After, Can, Bounded, Exclusive, Stages, Accounted, OneLive, InOrder, Copies, InCharge;
    if ReaderStep(step) {
      InChargeReader(l, s, step);
    } else if StartStep(step) {
      InChargeStart(l, s, step);
    } else if step.NextTurn? {
      if s.sh.hasCallbacks {
        InChargeTurn(l, s, step);
      } else {
        StepBlock(l, s, step);
        NoCallbacksNoCharge(s, After(l, s, step));
      }
    } else if Private(step) {
      PrivateStep(l, s, step);
      SameCharge(s, After(l, s, step));
    } else {
      InChargeStop(l, s, step);
    }
  }

  lemma {:induction false} NoCallbacksNoCharge(s: State, t: State)
    requires !s.sh.hasCallbacks && Keeps(s.sh, t.sh)
    ensures InCharge(t)
  {
  }

  lemma {:induction false} SameCharge(s: State, t: State)
    requires InCharge(s) && t.sh == s.sh
    ensures InCharge(t)
  {
  }

  /** In every run: queued bytes are paused, or an activation is there that replays them. */
  lemma {:induction false} QueuedBytesAreInCharge(l: Limits, states: seq<State>, steps: seq<Step>, k: nat)
    requires IsRun(l, states, steps) && k < |states|
    ensures InCharge(states[k])
    ensures states[k].sh.hasCallbacks && states[k].sh.fifo != [] && !states[k].sh.paused ==> states[k].frames != map[]
  {
    hide After, Can;
    RunKeeps(l, states, steps, k);
    if k > 0 {
      QueuedBytesAreInCharge(l, states, steps, k - 1);
      RunKeeps(l, states, steps, k - 1);
      InChargeStep(l, states[k - 1], steps[k - 1]);
    }
  }

  /** Steps that bring bytes on: those of the reader and of the activations. */
  predicate Advances(step: Step) {
    ReaderStep(step) || step.CopyCallbacks? || step.CallbackBegins? || step.CallbackEnds? || step.NextTurn?
  }

  ghost predicate CanAdvance(l: Limits, s: State) {
    exists step :: Advances(step) && Can(l, s, step)
  }

  /** An activation can always go on. */
  lemma {:induction false} ActivationAdvances(l: Limits, s: State, call: nat)
    requires call in s.frames
    ensures CanAdvance(l, s)
  {
    var step := match s.frames[call] {
      case Taken(_) => CopyCallbacks(call)
      case Snapshotted(_, _) => CallbackBegins(call)
      case Calling(_) => CallbackEnds(call)
      case Looping => NextTurn(call)
    };
    assert Advances(step) && Can(l, s, step);
  }

  /** Until the reader is gone, bytes can be brought on in every reachable state with the
      callbacks set, unless output is paused and the FIFO has no room for the reader. */
  lemma {:induction false} BytesAdvance(l: Limits, states: seq<State>, steps: seq<Step>, k: nat)
    requires IsRun(l, states, steps) && k < |states|
    requires var s := states[k];
             && s.sh.hasCallbacks && !s.reader.Gone?
             && (s.sh.paused ==> |s.sh.fifo| + (if s.reader.Holding? then |s.reader.bytes| else 1) <= l.high && l.chunk > 0)
    ensures CanAdvance(l, states[k])
  {
    hide After;
    var s := states[k];
    RunKeeps(l, states, steps, k);
    QueuedBytesAreInCharge(l, states, steps, k);
    if call :| call in s.frames {
      ActivationAdvances(l, s, call);
    } else {
      assert s.frames == map[];
      var step := match s.reader {
        case Idle => ReaderAdmits
        case Reading(_) => ReadNothing
        case Holding(_) => ReaderHandsOver
        case Handing(_, _) => ReaderCallbackBegins
        case Delivering(_) => ReaderCallbackEnds
        case Leaving => ReaderLeaves
        case Gone => ReaderLeaves
      };
      assert Advances(step) && Can(l, s, step);
    }
  }

  /** The drain before the exit report can go on as soon as no activation is left. */
  lemma {:induction false} ExitDrainAdvances(l: Limits, states: seq<State>, steps: seq<Step>, k: nat)
    requires IsRun(l, states, steps) && k < |states|
    requires states[k].waiter.ExitDrain? && states[k].sh.hasCallbacks && states[k].frames == map[]
    ensures Can(l, states[k], ExitDrains)
  {
    hide After;
    RunKeeps(l, states, steps, k);
  }

  // ---- Exits that were not observed ------------------------------------------------------

  /** The waiter goes on towards its end, or is there, without an observed exit. */
  predicate WithoutExit(w: Waiter) {
    || w == RootDrain(true) || w == AwaitingReader(true) || w == ExitDrain(true) || w == Drained(true) || w == Done
  }

  lemma {:induction false} WithoutExitStep(l: Limits, s: State, step: Step)
    requires Can(l, s, step) && WithoutExit(s.waiter)
    ensures WithoutExit(After(l, s, step).waiter) && After(l, s, step).exits == s.exits
  {
    hide BytesToRead, FinishTurn, HandedOver, OutputBlocks.SetPaused, StopProcess;
  }

  /** An exit that could not be observed is never reported; one that was is claimed once all is
      drained, unless the exit was reported already. */
  lemma {:induction false} OnlyObservedExitsAreReported(l: Limits, states: seq<State>, steps: seq<Step>, j: nat, k: nat)
    requires IsRun(l, states, steps) && j < k < |states|
    ensures steps[j] == RootExits(true) ==> states[k].exits == 0 && WithoutExit(states[k].waiter)
    ensures steps[j] == ExitClaims && states[j].waiter == Drained(false) && !states[j].sh.exitReported ==>
      states[j + 1].waiter == Claimed && states[j + 1].sh.exitReported
  {
    hide Can, After;
    RunKeeps(l, states, steps, j);
    assert Can(l, states[j], steps[j]) && states[j + 1] == After(l, states[j], steps[j]);
    ExitSteps(l, states[j], steps[j]);
    if steps[j] == RootExits(true) && k > j + 1 {
      OnlyObservedExitsAreReported(l, states, steps, j, k - 1);
      assert Can(l, states[k - 1], steps[k - 1]) && states[k] == After(l, states[k - 1], steps[k - 1]);
      WithoutExitStep(l, states[k - 1], steps[k - 1]);
    }
  }

  lemma {:induction false} ExitSteps(l: Limits, s: State, step: Step)
    requires Inv(l, s) && Can(l, s, step)
    ensures step == RootExits(true) ==> After(l, s, step).exits == 0 && WithoutExit(After(l, s, step).waiter)
    ensures step == ExitClaims && s.waiter == Drained(false) && !s.sh.exitReported ==>
      After(l, s, step).waiter == Claimed && After(l, s, step).sh.exitReported
  {
    hide StopProcess;
  }

  /** The owner is never kept from stopping, and a pause or resume never waits for other calls. */
  lemma {:induction false} OwnerNeverWaits(l: Limits, s: State, paused: bool)
    ensures Can(l, s, Revoke) && Can(l, s, Shutdown)
    ensures exists call :: Can(l, s, SetPaused(call, paused))
  {
    var call := Above(s.frames.Keys);
    assert call !in s.frames.Keys;
    assert Can(l, s, SetPaused(call, paused));
  }

  lemma {:induction false} Above(calls: set<nat>) returns (call: nat)
    ensures call > 0 && forall other | other in calls :: other < call
  {
    if calls == {} {
      call := 1;
    } else {
      var one :| one in calls;
      call := Above(calls - {one});
      call := if one < call then call else one + 1;
      assert forall other | other in calls :: other == one || other in calls - {one};
    }
  }

  // ---- After the callbacks are cleared ---------------------------------------------------

  /** An activation with these bytes has entered the output callback, or still may. */
  ghost predicate LiveWith(s: State, bytes: Bytes) {
    || (LiveReader(s.reader) && s.reader.bytes == bytes)
    || exists i :: i in s.frames && LiveFrame(s.frames[i]) && s.frames[i].bytes == bytes
  }

  ghost predicate NoneLive(s: State) {
    !LiveReader(s.reader) && forall i | i in s.frames :: !LiveFrame(s.frames[i])
  }

  /** Since `first` nothing was delivered, and only what was live then is live; or just
      what was live then was delivered. */
  ghost predicate Ending(first: State, s: State) {
    && s.sh.stopping && !s.sh.hasCallbacks
    && (|| (s.delivered == first.delivered && LiveSince(first, s))
        || (NoneLive(s) && DeliveredOneMore(first, s)))
  }

  ghost predicate LiveSince(first: State, s: State) {
    && (LiveReader(s.reader) ==> LiveWith(first, s.reader.bytes))
    && forall i | i in s.frames && LiveFrame(s.frames[i]) :: LiveWith(first, s.frames[i].bytes)
  }

  ghost predicate DeliveredOneMore(first: State, s: State) {
    exists bytes: Bytes :: LiveWith(first, bytes) && s.delivered == first.delivered + bytes
  }

  predicate Delivers(step: Step) {
    step.ReaderCallbackEnds? || step.CallbackEnds?
  }

  ghost predicate SameLiveReader(r: Reader, before: Reader) {
    LiveReader(r) ==> LiveReader(before) && r.bytes == before.bytes
  }

  ghost predicate SameLiveFrames(frames: map<nat, Frame>, before: map<nat, Frame>) {
    forall i | i in frames && LiveFrame(frames[i]) :: i in before && LiveFrame(before[i]) && frames[i].bytes == before[i].bytes
  }

  lemma {:induction false} ReaderStepBlock(l: Limits, s: State, step: Step)
    requires Can(l, s, step) && ReaderStep(step)
    ensures Keeps(s.sh, After(l, s, step).sh)
    ensures !Delivers(step) ==> After(l, s, step).delivered == s.delivered
  {
    hide BytesToRead, MayHandOver, ReaderMayProceed, HandedOver, Keeps;
    FieldsKeep(s.sh, [], false);
    ReaderLeft(s.sh);
    if step.ReaderHandsOver? {
      OutputBlocks.HandOverKeeps(s.sh, s.reader.bytes);
    }
  }

  lemma {:induction false} StartStepBlock(l: Limits, s: State, step: Step)
    requires Can(l, s, step) && (StartStep(step) || step.NextTurn?)
    ensures Keeps(s.sh, After(l, s, step).sh) && After(l, s, step).delivered == s.delivered
  {
    hide OutputBlocks.SetPaused, StopProcess, FinishTurn, OutputBlocks.Taken, Chunk, Keeps, MayDrain, MayTerminate,
          CanTake, IsSuffix;
    FieldsKeep(s.sh, [], false);
    BlocksKeep(l, s.sh, step.SetPaused? && step.paused, []);
  }

  /** Steps that leave the shared state alone. */
  predicate Private(step: Step) {
    step.CopyCallbacks? || step.CallbackBegins? || step.CallbackEnds? || step.RootDrained? || step.ReaderAwaited?
    || step.ExitCopies? || step.ExitCallbackBegins? || step.ExitCallbackEnds? || step.CloseGate?
  }

  lemma {:induction false} PrivateStep(l: Limits, s: State, step: Step)
    requires Can(l, s, step) && Private(step)
    ensures After(l, s, step).sh == s.sh
    ensures !Delivers(step) ==> After(l, s, step).delivered == s.delivered
  {
  }

  lemma {:induction false} OtherStepBlock(l: Limits, s: State, step: Step)
    requires Can(l, s, step) && !ReaderStep(step) && !StartStep(step) && !step.NextTurn?
    ensures Keeps(s.sh, After(l, s, step).sh)
    ensures !Delivers(step) ==> After(l, s, step).delivered == s.delivered
  {
    hide OutputBlocks.Shutdown, Revoked, ExitClaimed, Keeps, IsSuffix;
    FieldsKeep(s.sh, [], false);
    BlocksKeep(l, s.sh, false, []);
    if Private(step) {
      PrivateStep(l, s, step);
      hide After, Can;
    }
  }

  /** Each step runs at most one block. */
  lemma {:induction false} StepBlock(l: Limits, s: State, step: Step)
    requires Can(l, s, step)
    ensures Keeps(s.sh, After(l, s, step).sh)
    ensures !Delivers(step) ==> After(l, s, step).delivered == s.delivered
  {
    hide Can, After, Keeps;
    if ReaderStep(step) {
      ReaderStepBlock(l, s, step);
    } else if StartStep(step) || step.NextTurn? {
      StartStepBlock(l, s, step);
    } else {
      OtherStepBlock(l, s, step);
    }
  }

  lemma {:induction false} ReaderLeft(sh: Shared)
    ensures Keeps(sh, sh.(readerFinished := true))
  {
  }

  lemma {:induction false} StaysStopped(l: Limits, s: State, step: Step)
    requires s.sh.stopping && !s.sh.hasCallbacks && Can(l, s, step)
    ensures After(l, s, step).sh.stopping && !After(l, s, step).sh.hasCallbacks
    ensures !Delivers(step) ==> After(l, s, step).delivered == s.delivered
  {
    hide After, Can;
    StepBlock(l, s, step);
  }

  lemma {:induction false} ReaderNotLive(l: Limits, s: State, step: Step)
    requires s.sh.stopping && !s.sh.hasCallbacks && Can(l, s, step)
    ensures SameLiveReader(After(l, s, step).reader, s.reader)
  {
    if ReaderStep(step) {
      hide BytesToRead, MayHandOver, ReaderMayProceed;
    } else {
      hide BytesToRead, OutputBlocks.SetPaused, StopProcess, FinishTurn, OutputBlocks.Taken, Chunk,
            OutputBlocks.Shutdown, Revoked,
           ExitClaimed, MayDrain, MayTerminate;
    }
  }

  lemma {:induction false} FramesNotLive(l: Limits, s: State, step: Step)
    requires s.sh.stopping && !s.sh.hasCallbacks && Can(l, s, step)
    ensures SameLiveFrames(After(l, s, step).frames, s.frames)
  {
    hide BytesToRead, TakeSize, CanTake, MayHandOver, ReaderMayProceed, MayDrain, MayTerminate, OutputBlocks.SetPaused,
         StopProcess, FinishTurn, OutputBlocks.Taken, Chunk, HandedOver, OutputBlocks.Shutdown, Revoked, ExitClaimed, IsSuffix;
  }

  /** Without callbacks, no step makes an activation live. */
  lemma {:induction false} NothingBecomesLive(l: Limits, s: State, step: Step)
    requires s.sh.stopping && !s.sh.hasCallbacks && Can(l, s, step) && !Delivers(step)
    ensures var after := After(l, s, step);
            after.sh.stopping && !after.sh.hasCallbacks && after.delivered == s.delivered
    ensures SameLiveReader(After(l, s, step).reader, s.reader)
    ensures SameLiveFrames(After(l, s, step).frames, s.frames)
  {
    hide After, Can, SameLiveReader, SameLiveFrames;
    StaysStopped(l, s, step);
    ReaderNotLive(l, s, step);
    FramesNotLive(l, s, step);
  }

  lemma {:induction false} EndingStep(l: Limits, first: State, s: State, step: Step)
    requires OneLive(s) && Ending(first, s) && Can(l, s, step)
    ensures Ending(first, After(l, s, step))
  {
    hide LiveWith;
    if Delivers(step) {
      DeliveryEnds(l, first, s, step);
    } else {
      NothingBecomesLive(l, s, step);
      hide After, Can, OneLive;
    }
  }

  lemma {:induction false} DeliveryEnds(l: Limits, first: State, s: State, step: Step)
    requires OneLive(s) && Ending(first, s) && Can(l, s, step) && Delivers(step)
    ensures Ending(first, After(l, s, step))
  {
    hide LiveWith;
    var bytes := if step.ReaderCallbackEnds? then s.reader.bytes else s.frames[step.call].bytes;
    assert s.delivered == first.delivered && LiveWith(first, bytes);
    assert DeliveredOneMore(first, After(l, s, step));
  }

  /** From the moment the backend has stopped and its callbacks are cleared, every run
      delivers at most the bytes of one callback that had begun, or had copied the
      callbacks, by then. */
  lemma {:induction false} AtMostOneMoreCallback(l: Limits, states: seq<State>, steps: seq<Step>, from: nat, k: nat)
    requires IsRun(l, states, steps) && from <= k < |states|
    requires states[from].sh.stopping && !states[from].sh.hasCallbacks
    ensures states[k].sh.stopping && !states[k].sh.hasCallbacks
    ensures states[k].delivered == states[from].delivered || DeliveredOneMore(states[from], states[k])
  {
    EndingRun(l, states, steps, from, k);
  }

  lemma {:induction false} EndingRun(l: Limits, states: seq<State>, steps: seq<Step>, from: nat, k: nat)
    requires IsRun(l, states, steps) && from <= k < |states|
    requires states[from].sh.stopping && !states[from].sh.hasCallbacks
    ensures Ending(states[from], states[k])
  {
    hide After, Can, Ending;
    if from == k {
      EndingFirst(states[k]);
    } else {
      EndingRun(l, states, steps, from, k - 1);
      RunKeeps(l, states, steps, k - 1);
      EndingStep(l, states[from], states[k - 1], steps[k - 1]);
    }
  }

  lemma {:induction false} EndingFirst(s: State)
    requires s.sh.stopping && !s.sh.hasCallbacks
    ensures Ending(s, s)
  {
  }
}
