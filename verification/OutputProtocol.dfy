/** Every interleaving of the reader, the owner's pause and resume, terminate, the
    wait thread, shutdown and callback revocation. A lock-held block is one step;
    a callback is a step that begins it and one that ends it. */
module OutputProtocol {
  import opened OutputBlocks

  /** An activation that replays the FIFO: it holds a chunk, has copied the
      callbacks, is inside the callback, or is about to take the next turn. */
  datatype Frame = Taken(bytes: Bytes) | Snapshotted(bytes: Bytes, has: bool) | Calling(bytes: Bytes) | Looping

  datatype Reader = Idle | Reading(limit: nat) | Holding(bytes: Bytes) | Handing(bytes: Bytes, has: bool)
                  | Delivering(bytes: Bytes) | Leaving | Gone

  /** The wait thread; `lost` when the exit could not be observed. */
  datatype Waiter = AwaitingRoot | RootDrain(lost: bool) | AwaitingReader(lost: bool) | ExitDrain(lost: bool)
                  | Drained(lost: bool) | Claimed | ExitSnapshot(has: bool) | ExitCalling | Done

  /** `read` and `delivered` are all bytes read and all bytes whose callback
      returned; `exits` counts exit callbacks begun. */
  datatype State = State(sh: Shared, reader: Reader, frames: map<nat, Frame>, waiter: Waiter, accepting: bool,
                         read: Bytes, delivered: Bytes, exits: nat)

  /** The wait thread's activation; any other number is some public call's. */
  const WAITER := 0

  datatype Step =
    | ReaderAdmits | ReadBytes(bytes: Bytes) | ReadNothing | ReadEnds
    | ReaderHandsOver | ReaderCallbackBegins | ReaderCallbackEnds | ReaderLeaves
    | SetPaused(call: nat, paused: bool) | Terminate(call: nat)
    | CopyCallbacks(call: nat) | CallbackBegins(call: nat) | CallbackEnds(call: nat) | NextTurn(call: nat)
    | RootExits(lost: bool) | RootDrained | ReaderAwaited | ExitDrains | ExitClaims | ExitCopies
    | ExitCallbackBegins | ExitCallbackEnds
    | Shutdown | Revoke | CloseGate

  predicate Can(l: Limits, s: State, step: Step) {
    match step
    case ReaderAdmits => s.reader.Idle? && ReaderMayProceed(l, s.sh)
    case ReadBytes(bytes) => s.reader.Reading? && 0 < |bytes| <= s.reader.limit
    case ReadNothing => s.reader.Reading?
    case ReadEnds => s.reader.Reading?
    case ReaderHandsOver => s.reader.Holding? && MayHandOver(l, s.sh, |s.reader.bytes|)
    case ReaderCallbackBegins => s.reader.Handing?
    case ReaderCallbackEnds => s.reader.Delivering?
    case ReaderLeaves => s.reader.Leaving?
    case SetPaused(call, _) => call != WAITER && call !in s.frames
    case Terminate(call) => call != WAITER && call !in s.frames && MayTerminate(s.sh)
    case CopyCallbacks(call) => call in s.frames && s.frames[call].Taken?
    case CallbackBegins(call) => call in s.frames && s.frames[call].Snapshotted?
    case CallbackEnds(call) => call in s.frames && s.frames[call].Calling?
    case NextTurn(call) => call in s.frames && s.frames[call].Looping?
    case RootExits(_) => s.waiter.AwaitingRoot?
    case RootDrained => s.waiter.RootDrain? && WAITER !in s.frames
    case ReaderAwaited => s.waiter.AwaitingReader? && s.sh.readerFinished
    case ExitDrains => s.waiter.ExitDrain? && WAITER !in s.frames && MayDrain(s.sh)
    case ExitClaims => s.waiter.Drained?
    case ExitCopies => s.waiter.Claimed?
    case ExitCallbackBegins => s.waiter.ExitSnapshot?
    case ExitCallbackEnds => s.waiter.ExitCalling?
    case Shutdown => true
    case Revoke => true
    case CloseGate => !s.sh.hasCallbacks
  }

  /** An activation that started a delivery goes on to deliver its chunk. */
  function Started(s: State, call: nat, block: (Shared, Option<Bytes>)): State {
    s.(sh := block.0, frames := if block.1.Some? then s.frames[call := Taken(block.1.value)] else s.frames)
  }

  function After(l: Limits, s: State, step: Step): State
    requires Can(l, s, step)
  {
    match step
    case ReaderAdmits => s.(reader := if s.sh.stopping then Leaving else Reading(BytesToRead(l, s.sh)))
    case ReadBytes(bytes) => s.(reader := Holding(bytes), read := s.read + bytes)
    case ReadNothing => s.(reader := Idle)
    case ReadEnds => s.(reader := Leaving)
    case ReaderHandsOver =>
      var (sh, how) := HandedOver(s.sh, s.reader.bytes);
      s.(sh := sh, reader := if how.Direct? then Handing(s.reader.bytes, how.hasCallbacks) else Idle)
    case ReaderCallbackBegins =>
      s.(reader := if s.reader.has && s.accepting then Delivering(s.reader.bytes) else Idle)
    case ReaderCallbackEnds => s.(reader := Idle, delivered := s.delivered + s.reader.bytes)
    case ReaderLeaves => s.(reader := Gone, sh := s.sh.(readerFinished := true))
    case SetPaused(call, paused) => Started(s, call, OutputBlocks.SetPaused(l, s.sh, paused))
    case Terminate(call) => Started(s, call, StopProcess(l, s.sh))
    case CopyCallbacks(call) => s.(frames := s.frames[call := Snapshotted(s.frames[call].bytes, s.sh.hasCallbacks)])
    case CallbackBegins(call) =>
      s.(frames := s.frames[call :=
          if s.frames[call].has && s.accepting then Calling(s.frames[call].bytes) else Looping])
    case CallbackEnds(call) =>
      s.(frames := s.frames[call := Looping], delivered := s.delivered + s.frames[call].bytes)
    case NextTurn(call) =>
      var (sh, more) := FinishTurn(l, s.sh);
      s.(sh := sh, frames := if more.Some? then s.frames[call := Taken(more.value)] else s.frames - {call})
    case RootExits(lost) => Started(s, WAITER, StopProcess(l, s.sh)).(waiter := RootDrain(lost))
    case RootDrained => s.(waiter := AwaitingReader(s.waiter.lost))
    case ReaderAwaited => s.(waiter := ExitDrain(s.waiter.lost))
    case ExitDrains =>
      if s.sh.fifo == [] then s.(waiter := Drained(s.waiter.lost))
      else Started(s, WAITER, (OutputBlocks.Taken(l, s.sh), Chunk(l, s.sh)))
    case ExitClaims =>
      if s.waiter.lost || s.sh.exitReported then s.(waiter := Done) else s.(waiter := Claimed, sh := ExitClaimed(s.sh))
    case ExitCopies => s.(waiter := ExitSnapshot(s.sh.hasCallbacks))
    case ExitCallbackBegins =>
      if s.waiter.has && s.accepting then s.(waiter := ExitCalling, exits := s.exits + 1) else s.(waiter := Done)
    case ExitCallbackEnds => s.(waiter := Done)
    case Shutdown => s.(sh := OutputBlocks.Shutdown(s.sh))
    case Revoke => s.(sh := Revoked(s.sh))
    case CloseGate => s.(accepting := false)
  }

  function Initial(): State {
    State(Fresh(), Idle, map[], AwaitingRoot, true, [], [], 0)
  }

  // ---- Invariants ---------------------------------------------------------------------

  function InFlight(f: Frame): Bytes {
    if f.Looping? then [] else f.bytes
  }

  function Held(r: Reader): Bytes {
    if r.Holding? then r.bytes else []
  }

  predicate OnItsWay(r: Reader) {
    r.Handing? || r.Delivering?
  }

  function DirectBytes(r: Reader): Bytes {
    if OnItsWay(r) then r.bytes else []
  }

  /** Delivered, in flight, queued and held bytes are the bytes read, in order. */
  predicate Accounted(s: State) {
    && (s.frames == map[] ==> s.delivered + DirectBytes(s.reader) + s.sh.fifo + Held(s.reader) == s.read)
    && (forall i | i in s.frames :: s.delivered + InFlight(s.frames[i]) + s.sh.fifo + Held(s.reader) == s.read)
  }

  /** One activation replays at a time, and never beside a direct delivery. */
  predicate Exclusive(s: State) {
    && (forall i, j | i in s.frames && j in s.frames :: i == j)
    && (s.sh.inProgress <==> s.frames != map[])
    && (OnItsWay(s.reader) ==> s.frames == map[] && s.sh.fifo == [])
  }

  predicate Bounded(l: Limits, s: State) {
    && |s.sh.fifo| <= l.high && (s.sh.fifo != [] ==> l.chunk > 0)
    && (forall i | i in s.frames && !s.frames[i].Looping? :: 0 < |s.frames[i].bytes| <= l.chunk)
    && (s.reader.Reading? ==> s.reader.limit <= l.readChunk)
    && (s.reader.Holding? || OnItsWay(s.reader) ==> 0 < |s.reader.bytes| <= l.readChunk)
  }

  predicate LiveFrame(f: Frame) {
    f.Calling? || (f.Snapshotted? && f.has)
  }

  predicate LiveReader(r: Reader) {
    r.Delivering? || (r.Handing? && r.has)
  }

  /** At most one thread has entered, or may still enter, the output callback. */
  predicate OneLive(s: State) {
    && (forall i, j | i in s.frames && j in s.frames && LiveFrame(s.frames[i]) && LiveFrame(s.frames[j]) :: i == j)
    && (LiveReader(s.reader) ==> forall i | i in s.frames :: !LiveFrame(s.frames[i]))
  }

  /** What was delivered, and what is being delivered, comes first of what was read;
      this holds after the callbacks are cleared as well. */
  predicate InOrder(s: State) {
    && s.delivered <= s.read
    && (forall i | i in s.frames && LiveFrame(s.frames[i]) :: s.delivered + s.frames[i].bytes <= s.read)
    && (LiveReader(s.reader) ==> s.delivered + s.reader.bytes <= s.read)
  }

  predicate Copies(s: State) {
    && (!s.accepting ==> !s.sh.hasCallbacks)
    && (s.sh.hasCallbacks ==> !(s.reader.Handing? && !s.reader.has))
    && (s.sh.hasCallbacks ==> forall i | i in s.frames :: !(s.frames[i].Snapshotted? && !s.frames[i].has))
  }

  predicate PastReader(w: Waiter) {
    w.ExitDrain? || PastDrain(w)
  }

  predicate PastDrain(w: Waiter) {
    w.Drained? || PastClaim(w) || w.Done?
  }

  predicate PastClaim(w: Waiter) {
    w.Claimed? || w.ExitSnapshot? || w.ExitCalling?
  }

  predicate Settled(s: State) {
    s.sh.fifo == [] && s.frames == map[] && s.reader.Gone? && s.delivered == s.read
  }

  predicate Stages(s: State) {
    && (s.sh.readerFinished <==> s.reader.Gone?)
    && (PastReader(s.waiter) ==> s.reader.Gone?)
    && (s.waiter.AwaitingRoot? || s.sh.processStopping)
    && (s.sh.hasCallbacks && PastDrain(s.waiter) ==> s.sh.fifo == [] && s.frames == map[])
    && (s.sh.exitReported ==> PastClaim(s.waiter) || s.waiter.Done?)
    && (s.sh.hasCallbacks && s.sh.stopping ==> s.sh.exitReported)
    && (s.waiter.ExitSnapshot? && s.waiter.has ==> Settled(s))
    && (s.exits > 0 ==> Settled(s) && (s.waiter.ExitCalling? || s.waiter.Done?))
    && s.exits <= 1
    && (WAITER in s.frames ==> s.waiter.RootDrain? || s.waiter.ExitDrain?)
  }

  predicate Inv(l: Limits, s: State) {
    && (s.sh.hasCallbacks ==> Accounted(s) && Exclusive(s))
    && Bounded(l, s) && OneLive(s) && InOrder(s) && Copies(s) && Stages(s)
  }

  lemma {:induction false} InitialInv(l: Limits)
    ensures Inv(l, Initial())
  {
  }

  // ---- Every step keeps every invariant ---------------------------------------------------

  predicate ReaderStep(step: Step) {
    step.ReaderAdmits? || step.ReadBytes? || step.ReadNothing? || step.ReadEnds? || step.ReaderHandsOver?
    || step.ReaderCallbackBegins? || step.ReaderCallbackEnds? || step.ReaderLeaves?
  }

  predicate StartStep(step: Step) {
    step.SetPaused? || step.Terminate? || step.RootExits? || step.ExitDrains?
  }

  lemma {:induction false} ReadKeeps(l: Limits, s: State, step: Step)
    requires Inv(l, s) && Can(l, s, step) && (step.ReaderAdmits? || step.ReadBytes? || step.ReadNothing?)
    ensures Inv(l, After(l, s, step))
  {
  }

  lemma {:induction false} ReaderEndKeeps(l: Limits, s: State, step: Step)
    requires Inv(l, s) && Can(l, s, step) && (step.ReadEnds? || step.ReaderLeaves?)
    ensures Inv(l, After(l, s, step))
  {
  }

  /** Bytes are queued behind what is pending, or delivered when nothing is. */
  lemma {:induction false} HandOverKeeps(l: Limits, s: State, step: Step)
    requires Inv(l, s) && Can(l, s, step) && step.ReaderHandsOver?
    ensures Inv(l, After(l, s, step))
  {
  }

  lemma {:induction false} ReaderCallbackKeeps(l: Limits, s: State, step: Step)
    requires Inv(l, s) && Can(l, s, step) && (step.ReaderCallbackBegins? || step.ReaderCallbackEnds?)
    ensures Inv(l, After(l, s, step))
  {
  }

  lemma {:induction false} ReaderStepKeeps(l: Limits, s: State, step: Step)
    requires Inv(l, s) && Can(l, s, step) && ReaderStep(step)
    ensures Inv(l, After(l, s, step))
  {
    hide Inv, After, Can;
    if step.ReadEnds? || step.ReaderLeaves? {
      ReaderEndKeeps(l, s, step);
    } else if step.ReaderHandsOver? {
      HandOverKeeps(l, s, step);
    } else if step.ReaderCallbackBegins? || step.ReaderCallbackEnds? {
      ReaderCallbackKeeps(l, s, step);
    } else {
      ReadKeeps(l, s, step);
    }
  }

  /** The state after `call` has taken the next chunk. */
  function TakenBy(l: Limits, s: State, call: nat): State
    requires CanTake(l, s.sh)
  {
    s.(sh := s.sh.(fifo := s.sh.fifo[TakeSize(l, s.sh)..], inProgress := true),
       frames := s.frames[call := Taken(s.sh.fifo[..TakeSize(l, s.sh)])])
  }

  lemma {:induction false} TakeAccounts(l: Limits, s: State, call: nat)
    requires Accounted(s) && Exclusive(s) && Bounded(l, s) && call !in s.frames && CanTake(l, s.sh)
    ensures Accounted(TakenBy(l, s, call)) && Exclusive(TakenBy(l, s, call))
  {
    hide Bounded;
    assert s.sh.fifo[..TakeSize(l, s.sh)] + s.sh.fifo[TakeSize(l, s.sh)..] == s.sh.fifo;
  }

  lemma {:induction false} TakeBounds(l: Limits, s: State, call: nat)
    requires Bounded(l, s) && CanTake(l, s.sh)
    ensures Bounded(l, TakenBy(l, s, call))
  {
  }

  lemma {:induction false} TakeOrders(l: Limits, s: State, call: nat)
    requires OneLive(s) && InOrder(s) && Copies(s) && CanTake(l, s.sh) && call !in s.frames
    ensures OneLive(TakenBy(l, s, call)) && InOrder(TakenBy(l, s, call)) && Copies(TakenBy(l, s, call))
  {
  }

  lemma {:induction false} TakeStages(l: Limits, s: State, call: nat)
    requires Stages(s) && CanTake(l, s.sh) && (call == WAITER ==> s.waiter.RootDrain? || s.waiter.ExitDrain?)
    ensures Stages(TakenBy(l, s, call))
  {
  }

  /** Taking a chunk moves it from the FIFO to the activation that delivers it. */
  lemma {:induction false} TakeKeeps(l: Limits, s: State, call: nat)
    requires Inv(l, s) && call !in s.frames
    requires call == WAITER ==> s.waiter.RootDrain? || s.waiter.ExitDrain?
    ensures Inv(l, Started(s, call, (OutputBlocks.Taken(l, s.sh), Chunk(l, s.sh))))
  {
    hide Accounted, Exclusive, Bounded, OneLive, InOrder, Copies, Stages;
    if CanTake(l, s.sh) {
      assert Started(s, call, (OutputBlocks.Taken(l, s.sh), Chunk(l, s.sh))) == TakenBy(l, s, call);
      if s.sh.hasCallbacks {
        TakeAccounts(l, s, call);
      }
      TakeBounds(l, s, call);
      TakeOrders(l, s, call);
      TakeStages(l, s, call);
    }
  }

  /** Pausing, resuming and stopping the process move no byte. */
  lemma {:induction false} FlagsKeep(l: Limits, s: State, paused: bool, processStopping: bool, waiter: Waiter)
    requires Inv(l, s) && (s.sh.processStopping ==> processStopping)
    requires waiter == s.waiter || (s.waiter.AwaitingRoot? && waiter.RootDrain? && processStopping)
    ensures Inv(l, s.(sh := s.sh.(paused := paused, processStopping := processStopping), waiter := waiter))
  {
  }

  lemma {:induction false} PauseKeeps(l: Limits, s: State, step: Step)
    requires Inv(l, s) && Can(l, s, step) && step.SetPaused?
    ensures Inv(l, After(l, s, step))
  {
    hide Inv, OutputBlocks.Taken, Chunk;
    var t := s.(sh := Repaused(s.sh, step.paused));
    FlagsKeep(l, s, t.sh.paused, s.sh.processStopping, s.waiter);
    if !t.sh.paused {
      TakeKeeps(l, t, step.call);
    }
  }

  lemma {:induction false} TerminateKeeps(l: Limits, s: State, step: Step)
    requires Inv(l, s) && Can(l, s, step) && step.Terminate?
    ensures Inv(l, After(l, s, step))
  {
    hide Inv, OutputBlocks.Taken, Chunk;
    FlagsKeep(l, s, false, true, s.waiter);
    TakeKeeps(l, s.(sh := s.sh.(processStopping := true, paused := false)), step.call);
  }

  lemma {:induction false} RootExitKeeps(l: Limits, s: State, step: Step)
    requires Inv(l, s) && Can(l, s, step) && step.RootExits?
    ensures Inv(l, After(l, s, step))
  {
    hide Inv, OutputBlocks.Taken, Chunk;
    var t := s.(sh := s.sh.(processStopping := true, paused := false), waiter := RootDrain(step.lost));
    FlagsKeep(l, s, false, true, RootDrain(step.lost));
    NoWaiterFrame(l, s);
    TakeKeeps(l, t, WAITER);
    assert After(l, s, step) == Started(t, WAITER, (OutputBlocks.Taken(l, t.sh), Chunk(l, t.sh)));
  }

  lemma {:induction false} ExitDrainKeeps(l: Limits, s: State, step: Step)
    requires Inv(l, s) && Can(l, s, step) && step.ExitDrains?
    ensures Inv(l, After(l, s, step))
  {
    hide Inv, OutputBlocks.Taken, Chunk;
    if s.sh.fifo == [] {
      DrainedKeeps(l, s);
    } else {
      TakeKeeps(l, s, WAITER);
    }
  }

  lemma {:induction false} StartStepKeeps(l: Limits, s: State, step: Step)
    requires Inv(l, s) && Can(l, s, step) && StartStep(step)
    ensures Inv(l, After(l, s, step))
  {
    hide Inv, After, Can;
    if step.SetPaused? {
      PauseKeeps(l, s, step);
    } else if step.Terminate? {
      TerminateKeeps(l, s, step);
    } else if step.RootExits? {
      RootExitKeeps(l, s, step);
    } else {
      ExitDrainKeeps(l, s, step);
    }
  }

  lemma {:induction false} NoWaiterFrame(l: Limits, s: State)
    requires Inv(l, s) && s.waiter.AwaitingRoot?
    ensures WAITER !in s.frames
  {
  }

  /** The drain before the exit report leaves nothing undelivered. */
  lemma {:induction false} DrainedKeeps(l: Limits, s: State)
    requires Inv(l, s) && Can(l, s, ExitDrains) && s.sh.fifo == []
    ensures Inv(l, s.(waiter := Drained(s.waiter.lost)))
    ensures s.sh.hasCallbacks ==> s.frames == map[] && s.delivered == s.read
  {
  }

  lemma {:induction false} CallbackBeginKeeps(l: Limits, s: State, step: Step)
    requires Inv(l, s) && Can(l, s, step) && step.CallbackBegins?
    ensures Inv(l, After(l, s, step))
  {
  }

  lemma {:induction false} CallbackEndKeeps(l: Limits, s: State, step: Step)
    requires Inv(l, s) && Can(l, s, step) && step.CallbackEnds?
    ensures Inv(l, After(l, s, step))
  {
  }

  /** Only a callback that is still set is copied as one to call. */
  lemma {:induction false} CopyKeeps(l: Limits, s: State, step: Step)
    requires Inv(l, s) && Can(l, s, step) && step.CopyCallbacks?
    ensures Inv(l, After(l, s, step))
  {
  }

  predicate InvOfBytes(l: Limits, s: State) {
    (s.sh.hasCallbacks ==> Accounted(s) && Exclusive(s)) && Bounded(l, s)
  }

  predicate InvOfCalls(s: State) {
    OneLive(s) && InOrder(s) && Copies(s) && Stages(s)
  }

  lemma {:induction false} NextChunkKeepsBytes(l: Limits, s: State, call: nat)
    requires InvOfBytes(l, s) && call in s.frames && s.frames[call].Looping? && s.sh.fifo != []
    ensures InvOfBytes(l, s.(sh := s.sh.(fifo := s.sh.fifo[TakeSize(l, s.sh)..]),
                             frames := s.frames[call := Taken(s.sh.fifo[..TakeSize(l, s.sh)])]))
  {
    assert s.sh.fifo[..TakeSize(l, s.sh)] + s.sh.fifo[TakeSize(l, s.sh)..] == s.sh.fifo;
  }

  lemma {:induction false} NextChunkKeepsCalls(l: Limits, s: State, call: nat)
    requires InvOfCalls(s) && call in s.frames && s.frames[call].Looping? && s.sh.fifo != []
    ensures InvOfCalls(s.(sh := s.sh.(fifo := s.sh.fifo[TakeSize(l, s.sh)..]),
                          frames := s.frames[call := Taken(s.sh.fifo[..TakeSize(l, s.sh)])]))
  {
  }

  lemma {:induction false} NextChunkKeeps(l: Limits, s: State, step: Step)
    requires Inv(l, s) && Can(l, s, step) && step.NextTurn? && FinishTurn(l, s.sh).1.Some?
    ensures Inv(l, After(l, s, step))
  {
    hide Accounted, Exclusive, Bounded, OneLive, InOrder, Copies, Stages;
    NextChunkKeepsBytes(l, s, step.call);
    NextChunkKeepsCalls(l, s, step.call);
  }

  lemma {:induction false} LastTurnKeeps(l: Limits, s: State, step: Step)
    requires Inv(l, s) && Can(l, s, step) && step.NextTurn? && FinishTurn(l, s.sh).1.None?
    ensures Inv(l, After(l, s, step))
  {
    if s.sh.hasCallbacks {
      assert s.frames - {step.call} == map[];
    }
  }

  lemma {:induction false} NextTurnKeeps(l: Limits, s: State, step: Step)
    requires Inv(l, s) && Can(l, s, step) && step.NextTurn?
    ensures Inv(l, After(l, s, step))
  {
    hide Inv, After, Can, FinishTurn;
    if FinishTurn(l, s.sh).1.Some? {
      NextChunkKeeps(l, s, step);
    } else {
      LastTurnKeeps(l, s, step);
    }
  }

  predicate StopStep(step: Step) {
    step.Shutdown? || step.Revoke? || step.CloseGate?
  }

  lemma {:induction false} StopStepKeeps(l: Limits, s: State, step: Step)
    requires Inv(l, s) && Can(l, s, step) && StopStep(step)
    ensures Inv(l, After(l, s, step))
  {
  }

  lemma {:induction false} WaitStepKeeps(l: Limits, s: State, step: Step)
    requires Inv(l, s) && Can(l, s, step) && (step.RootDrained? || step.ReaderAwaited?)
    ensures Inv(l, After(l, s, step))
  {
  }

  /** The exit is claimed once, with nothing left to deliver. */
  lemma {:induction false} ExitClaimKeeps(l: Limits, s: State, step: Step)
    requires Inv(l, s) && Can(l, s, step) && (step.ExitClaims? || step.ExitCopies?)
    ensures Inv(l, After(l, s, step))
  {
  }

  lemma {:induction false} ExitCallbackKeeps(l: Limits, s: State, step: Step)
    requires Inv(l, s) && Can(l, s, step) && (step.ExitCallbackBegins? || step.ExitCallbackEnds?)
    ensures Inv(l, After(l, s, step))
  {
  }

  lemma {:induction false} StepKeeps(l: Limits, s: State, step: Step)
    requires Inv(l, s) && Can(l, s, step)
    ensures Inv(l, After(l, s, step))
  {
    hide Inv, After, Can;
    if ReaderStep(step) {
      ReaderStepKeeps(l, s, step);
    } else if StartStep(step) {
      StartStepKeeps(l, s, step);
    } else if step.CopyCallbacks? {
      CopyKeeps(l, s, step);
    } else if step.NextTurn? {
      NextTurnKeeps(l, s, step);
    } else if step.CallbackBegins? {
      CallbackBeginKeeps(l, s, step);
    } else if step.CallbackEnds? {
      CallbackEndKeeps(l, s, step);
    } else if StopStep(step) {
      StopStepKeeps(l, s, step);
    } else if step.RootDrained? || step.ReaderAwaited? {
      WaitStepKeeps(l, s, step);
    } else if step.ExitClaims? || step.ExitCopies? {
      ExitClaimKeeps(l, s, step);
    } else {
      ExitCallbackKeeps(l, s, step);
    }
  }
}
