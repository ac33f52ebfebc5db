/** The lock-held blocks of the paused-output protocol (src/native_backend_io_core.h,
    src/native_backend_io_core.cpp and src/posix_pty_backend.cpp), each a function on the
    state the backend mutex guards, and the object whose methods run them. */
module OutputBlocks {
  type Bytes = string

  datatype Option<T> = None | Some(value: T)

  /** Most bytes the FIFO holds, one replayed chunk has, and one read takes. */
  datatype Limits = Limits(high: nat, chunk: nat, readChunk: nat)

  datatype Shared = Shared(
    fifo: Bytes,
    paused: bool,
    inProgress: bool,
    processStopping: bool,
    stopping: bool,
    shutdownStarted: bool,
    hasCallbacks: bool,
    running: bool,
    exitReported: bool,
    readerFinished: bool)
  {
    predicate DrainStop() { processStopping || stopping }

    predicate Pending() { paused || inProgress || fifo != [] }
  }

  // ---- Delivery limits -------------------------------------------------------------

  const READ_CHUNK_BYTES := 16 * 1024

  datatype QueueLimits = QueueLimits(highWater: nat, hardLimit: nat)

  const DEFAULT_LIMITS := QueueLimits(64 * 1024, 256 * 1024)

  function LimitsOr(configured: Option<QueueLimits>): QueueLimits {
    if configured.Some? then configured.value else DEFAULT_LIMITS
  }

  function Min(a: nat, b: nat): (r: nat)
    ensures r <= a && r <= b && (r == a || r == b)
  {
    if a < b then a else b
  }

  function ReadChunk(limits: QueueLimits): (r: nat)
    ensures 1 <= r <= READ_CHUNK_BYTES
  {
    var headroom := if limits.hardLimit > limits.highWater then limits.hardLimit - limits.highWater else 1;
    if headroom <= 1 then 1 else Min(READ_CHUNK_BYTES, headroom - 1)
  }

  function PausedBudget(limits: QueueLimits, readChunk: nat): nat {
    if limits.hardLimit <= limits.highWater then readChunk
    else
      var headroom := limits.hardLimit - limits.highWater;
      if headroom <= readChunk then 1 else headroom - readChunk
  }

  function DeriveLimits(configured: Option<QueueLimits>, ceiling: Option<nat>): Limits {
    var limits := LimitsOr(configured);
    var readChunk := ReadChunk(limits);
    var budget := PausedBudget(limits, readChunk);
    var chunk := if budget == 0 then 0 else Min(budget, if limits.highWater != 0 then limits.highWater else budget);
    match ceiling
    case None => Limits(budget, chunk, readChunk)
    case Some(most) => Limits(Min(budget, most), Min(chunk, most), readChunk)
  }

  /** The FIFO and one read fit together between the two queue limits, if and only
      if these are at least two bytes apart; a chunk never exceeds the FIFO's bound,
      and replay is off only under a ceiling of zero. */
  lemma {:induction false} DerivedLimitsFit(configured: Option<QueueLimits>, ceiling: Option<nat>)
    ensures var r, limits := DeriveLimits(configured, ceiling), LimitsOr(configured);
            && 1 <= r.readChunk && r.chunk <= r.high
            && (r.chunk == 0 <==> ceiling == Some(0))
            && (limits.highWater != 0 ==> r.chunk <= limits.highWater)
    ensures ceiling.None? ==>
      var r, limits := DeriveLimits(configured, ceiling), LimitsOr(configured);
      limits.highWater + r.high + r.readChunk <= limits.hardLimit <==> limits.highWater + 2 <= limits.hardLimit
  {
  }

  /** The limits use all the room there is: a read is as long as 16 KiB and one byte of FIFO
      allow, the FIFO has the rest, a chunk what the consumer's high water takes, and a
      ceiling cuts both down. Limits too close for that leave one byte each. */
  lemma {:induction false} LimitsUseAllRoom(configured: Option<QueueLimits>, ceiling: Option<nat>)
    ensures var r, limits := DeriveLimits(configured, None), LimitsOr(configured);
            if limits.highWater + 2 <= limits.hardLimit then
              && limits.highWater + r.high + r.readChunk == limits.hardLimit
              && r.readChunk <= 16384 && (r.readChunk == 16384 || r.high == 1)
            else r.high == 1 && r.readChunk == 1
    ensures var r, limits := DeriveLimits(configured, None), LimitsOr(configured);
            r.chunk <= r.high && (r.chunk == r.high || r.chunk == limits.highWater)
    ensures ceiling.Some? ==>
      var r, open := DeriveLimits(configured, ceiling), DeriveLimits(configured, None);
      && r.readChunk == open.readChunk && r.high <= ceiling.value && r.chunk <= ceiling.value
      && (r.high == open.high || (r.high == ceiling.value && ceiling.value < open.high))
      && (r.chunk == open.chunk || (r.chunk == ceiling.value && ceiling.value < open.chunk))
    ensures configured.None? ==> LimitsOr(configured) == QueueLimits(65536, 262144)
    ensures configured.Some? ==> LimitsOr(configured) == configured.value
  {
  }

  /** Limits that are not two bytes apart: the FIFO's one byte and one read of one byte
      do not fit between them. */
  lemma {:induction false} LimitsTooClose()
    ensures var r := DeriveLimits(Some(QueueLimits(0, 0)), None);
            r == Limits(1, 1, 1) && 0 + r.high + r.readChunk > 0
  {
  }

  // ---- Blocks -----------------------------------------------------------------------

  /** How much of the FIFO one delivery takes. */
  function TakeSize(l: Limits, sh: Shared): (r: nat)
    ensures r <= |sh.fifo| && r <= l.chunk
  {
    Min(|sh.fifo|, l.chunk)
  }

  predicate CanTake(l: Limits, sh: Shared) {
    l.chunk > 0 && !sh.inProgress && sh.fifo != []
  }

  function Taken(l: Limits, sh: Shared): Shared {
    if CanTake(l, sh) then sh.(fifo := sh.fifo[TakeSize(l, sh)..], inProgress := true) else sh
  }

  function Chunk(l: Limits, sh: Shared): Option<Bytes> {
    if CanTake(l, sh) then Some(sh.fifo[..TakeSize(l, sh)]) else None
  }

  /** The owner's wish, which a stop overrides. */
  function Repaused(sh: Shared, paused: bool): Shared {
    sh.(paused := paused && !sh.DrainStop())
  }

  /** What set_output_paused leaves, and the chunk it has to deliver. */
  function SetPaused(l: Limits, sh: Shared, paused: bool): (r: (Shared, Option<Bytes>)) {
    var s := Repaused(sh, paused);
    if s.paused then (s, None) else (Taken(l, s), Chunk(l, s))
  }

  function StopProcess(l: Limits, sh: Shared): (Shared, Option<Bytes>) {
    var s := sh.(processStopping := true, paused := false);
    (Taken(l, s), Chunk(l, s))
  }

  predicate MayTerminate(sh: Shared) {
    sh.running && !sh.DrainStop()
  }

  /** One turn of the replay loop: the next chunk, or the end of the delivery. */
  function FinishTurn(l: Limits, sh: Shared): (Shared, Option<Bytes>) {
    if (!sh.paused || sh.DrainStop()) && sh.fifo != [] then
      (sh.(fifo := sh.fifo[TakeSize(l, sh)..]), Some(sh.fifo[..TakeSize(l, sh)]))
    else (sh.(inProgress := false), None)
  }

  predicate CanBuffer(l: Limits, sh: Shared, size: nat) {
    l.chunk > 0 && |sh.fifo| <= l.high && size <= l.high - |sh.fifo|
  }

  /** When a reader that holds bytes need not park any longer. */
  predicate MayHandOver(l: Limits, sh: Shared, size: nat) {
    sh.stopping || !sh.Pending() || CanBuffer(l, sh, size)
  }

  datatype HandOver = Discarded | Buffered | Direct(hasCallbacks: bool)

  function HandedOver(sh: Shared, bytes: Bytes): (Shared, HandOver) {
    if sh.stopping then (sh, Discarded)
    else if sh.Pending() then (sh.(fifo := sh.fifo + bytes), Buffered)
    else (sh, Direct(sh.hasCallbacks))
  }

  predicate ReaderMayProceed(l: Limits, sh: Shared) {
    sh.stopping || (!sh.inProgress && ((!sh.paused && sh.fifo == []) || |sh.fifo| < l.high))
  }

  function BytesToRead(l: Limits, sh: Shared): nat {
    if (sh.paused || sh.fifo != []) && |sh.fifo| < l.high then Min(l.readChunk, l.high - |sh.fifo|) else l.readChunk
  }

  /** When the drain before the exit report may go on. */
  predicate MayDrain(sh: Shared) {
    !sh.inProgress && (sh.fifo == [] || !sh.paused || sh.DrainStop())
  }

  function Shutdown(sh: Shared): Shared {
    if sh.shutdownStarted then sh
    else
      sh.(shutdownStarted := true, stopping := true, processStopping := true, paused := false, inProgress := false,
          hasCallbacks := false)
  }

  function Revoked(sh: Shared): Shared {
    sh.(stopping := true, paused := false, hasCallbacks := false)
  }

  function ExitClaimed(sh: Shared): Shared {
    if sh.exitReported then sh
    else sh.(exitReported := true, running := false, stopping := true, paused := false, processStopping := true)
  }

  // ---- What the guards are for ---------------------------------------------------------

  /** The reader parks with its bytes exactly when they would have to be queued and do not
      fit, or could not be replayed. */
  lemma {:induction false} ParksWhenFull(l: Limits, sh: Shared, bytes: Bytes)
    ensures var (after, how) := HandedOver(sh, bytes);
            !MayHandOver(l, sh, |bytes|) <==> how.Buffered? && (l.high < |after.fifo| || l.chunk == 0)
    ensures var (after, how) := HandedOver(sh, bytes);
            how.Buffered? <==> !sh.stopping && (sh.paused || sh.inProgress || sh.fifo != [])
  {
  }

  /** The reader goes on to read exactly when nothing is being replayed and it could hand
      over one byte; it then reads at most as many bytes as it could hand over, or a read has. */
  lemma {:induction false} ReadsWhatFits(l: Limits, sh: Shared, size: nat)
    requires !sh.stopping && 0 < l.readChunk && (l.chunk == 0 ==> l.high == 0 && sh.fifo == [])
    ensures ReaderMayProceed(l, sh) <==> !sh.inProgress && MayHandOver(l, sh, 1)
    ensures ReaderMayProceed(l, sh) && size <= l.readChunk ==> (size <= BytesToRead(l, sh) <==> size == 0 || MayHandOver(l, sh, size))
    ensures BytesToRead(l, sh) <= l.readChunk
  {
  }

  /** With bytes queued the drain before the exit report goes on exactly when it can take them. */
  lemma {:induction false} DrainsWhenItCanTake(l: Limits, sh: Shared)
    requires l.chunk > 0
    ensures MayDrain(sh) <==> if sh.fifo == [] then !sh.inProgress else SetPaused(l, sh, sh.paused).1.Some?
  {
  }

  // ---- What a stop settles for good ----------------------------------------------------

  /** Bytes are dropped, the reader never parks, and nothing can pause or stop again. */
  ghost predicate StopsForGood(l: Limits, sh: Shared) {
    && (forall bytes: Bytes :: HandedOver(sh, bytes) == (sh, Discarded))
    && ReaderMayProceed(l, sh) && (forall size: nat :: MayHandOver(l, sh, size))
    && (forall paused: bool :: !Repaused(sh, paused).paused) && !MayTerminate(sh)
    && (!sh.inProgress ==> MayDrain(sh))
  }

  /** No later block undoes a stop, a revocation, a shutdown or a claimed exit. */
  ghost predicate Keeps(before: Shared, after: Shared) {
    && (before.stopping ==> after.stopping) && (before.processStopping ==> after.processStopping)
    && (!before.hasCallbacks ==> !after.hasCallbacks) && (!before.running ==> !after.running)
    && (before.shutdownStarted ==> after.shutdownStarted) && (before.exitReported ==> after.exitReported)
  }

  lemma {:induction false} StoppedForGood(l: Limits, sh: Shared)
    requires sh.stopping
    ensures StopsForGood(l, sh)
  {
  }

  lemma {:induction false} FieldsKeep(sh: Shared, fifo: Bytes, inProgress: bool)
    ensures Keeps(sh, sh) && Keeps(sh, sh.(fifo := fifo, inProgress := inProgress))
    ensures Keeps(sh, sh.(fifo := fifo)) && Keeps(sh, sh.(inProgress := inProgress))
  {
  }

  lemma {:induction false} TakenKeeps(l: Limits, sh: Shared)
    ensures Keeps(sh, Taken(l, sh)) && IsSuffix(Taken(l, sh).fifo, sh.fifo)
  {
    hide IsSuffix, TakeSize, Keeps;
    var rest := sh.fifo[TakeSize(l, sh)..];
    FieldsKeep(sh, rest, true);
    RestIsSuffix(sh.fifo, 0);
    RestIsSuffix(sh.fifo, TakeSize(l, sh));
    WholeFromStart(sh.fifo);
  }

  lemma {:induction false} TurnKeeps(l: Limits, sh: Shared)
    ensures Keeps(sh, FinishTurn(l, sh).0) && IsSuffix(FinishTurn(l, sh).0.fifo, sh.fifo)
  {
    hide IsSuffix, TakeSize, Keeps;
    var rest := sh.fifo[TakeSize(l, sh)..];
    FieldsKeep(sh, rest, false);
    RestIsSuffix(sh.fifo, 0);
    RestIsSuffix(sh.fifo, TakeSize(l, sh));
    WholeFromStart(sh.fifo);
  }

  lemma {:induction false} WholeFromStart(bytes: Bytes)
    ensures bytes[0..] == bytes
  {
  }

  lemma {:induction false} NothingToTake(l: Limits, sh: Shared)
    ensures sh.inProgress || sh.fifo == [] ==> Taken(l, sh) == sh && Chunk(l, sh) == None
  {
  }

  lemma {:induction false} SetPausedTakes(l: Limits, sh: Shared, paused: bool)
    ensures var s := Repaused(sh, paused);
            SetPaused(l, sh, paused) ==
              if s.paused || s.inProgress || s.fifo == [] then (s, None) else (Taken(l, s), Chunk(l, s))
  {
    NothingToTake(l, Repaused(sh, paused));
  }

  predicate IsSuffix(part: Bytes, whole: Bytes) {
    |part| <= |whole| && part == whole[|whole| - |part|..]
  }

  lemma {:induction false} RestIsSuffix(whole: Bytes, from: nat)
    requires from <= |whole|
    ensures IsSuffix(whole[from..], whole)
  {
  }

  lemma {:induction false} StartsKeep(l: Limits, sh: Shared, paused: bool)
    ensures Keeps(sh, SetPaused(l, sh, paused).0) && IsSuffix(SetPaused(l, sh, paused).0.fifo, sh.fifo)
    ensures Keeps(sh, StopProcess(l, sh).0) && IsSuffix(StopProcess(l, sh).0.fifo, sh.fifo)
  {
    hide Taken, IsSuffix;
    RestIsSuffix(sh.fifo, 0);
    WholeFromStart(sh.fifo);
    TakenKeeps(l, Repaused(sh, paused));
    TakenKeeps(l, sh.(processStopping := true, paused := false));
  }

  lemma {:induction false} HandOverKeeps(sh: Shared, bytes: Bytes)
    ensures Keeps(sh, HandedOver(sh, bytes).0) && (sh.stopping ==> HandedOver(sh, bytes) == (sh, Discarded))
  {
  }

  /** What was settled stays settled under every block, and none but the hand-over of a
      backend that is not stopping queues anything. */
  lemma {:induction false} BlocksKeep(l: Limits, sh: Shared, paused: bool, bytes: Bytes)
    ensures Keeps(sh, SetPaused(l, sh, paused).0) && IsSuffix(SetPaused(l, sh, paused).0.fifo, sh.fifo)
    ensures Keeps(sh, StopProcess(l, sh).0) && IsSuffix(StopProcess(l, sh).0.fifo, sh.fifo)
    ensures Keeps(sh, Taken(l, sh)) && IsSuffix(Taken(l, sh).fifo, sh.fifo)
    ensures Keeps(sh, FinishTurn(l, sh).0) && IsSuffix(FinishTurn(l, sh).0.fifo, sh.fifo)
    ensures Keeps(sh, HandedOver(sh, bytes).0) && (sh.stopping ==> HandedOver(sh, bytes) == (sh, Discarded))
    ensures Keeps(sh, Shutdown(sh)) && Keeps(sh, Revoked(sh)) && Keeps(sh, ExitClaimed(sh))
    ensures Shutdown(sh).fifo == sh.fifo && Revoked(sh).fifo == sh.fifo && ExitClaimed(sh).fifo == sh.fifo
  {
    hide Taken, FinishTurn, HandedOver, SetPaused, StopProcess, IsSuffix;
    StartsKeep(l, sh, paused);
    TakenKeeps(l, sh);
    TurnKeeps(l, sh);
    HandOverKeeps(sh, bytes);
  }

  /** A started backend: nothing queued, its callbacks set, its process running. */
  function Fresh(): Shared {
    Shared([], false, false, false, false, false, true, true, false, false)
  }

  // ---- The backend object -----------------------------------------------------------

  class Backend {
    const limits: Limits
    var pausedOutput: Bytes
    var outputPaused: bool
    var deliveryInProgress: bool
    var processStopping: bool
    var stopping: bool
    var shutdownStarted: bool
    var hasCallbacks: bool
    var running: bool
    var exitReported: bool
    var readerFinished: bool

    function State(): Shared
      reads this
    {
      Shared(pausedOutput, outputPaused, deliveryInProgress, processStopping, stopping, shutdownStarted,
             hasCallbacks, running, exitReported, readerFinished)
    }

    /** What a shutdown and a claimed exit settled. */
    ghost predicate Valid()
      reads this
    {
      && (shutdownStarted ==> stopping && processStopping && !hasCallbacks)
      && (exitReported ==> stopping && processStopping && !running)
    }

    /** A started backend. */
    constructor (limits: Limits)
      ensures Valid() && this.limits == limits && State() == Fresh()
    {
      this.limits := limits;
      pausedOutput, outputPaused, deliveryInProgress := [], false, false;
      processStopping, stopping, shutdownStarted := false, false, false;
      hasCallbacks, running, exitReported, readerFinished := true, true, false, false;
    }

    /** What was taken is the front of the FIFO, a whole chunk or all there was. */
    predicate FrontTaken(before: Bytes, after: Bytes, taken: bool, chunk: Bytes) {
      && chunk + after == before && |chunk| <= limits.chunk
      && (taken ==> after == [] || |chunk| == limits.chunk)
      && (!taken ==> chunk == [])
    }

    /** Takes a chunk off the front of the FIFO. */
    method TakeFront() returns (chunk: Bytes)
      requires Valid() && pausedOutput != []
      modifies this`pausedOutput
      ensures Valid() && chunk == old(pausedOutput)[..TakeSize(limits, old(State()))]
      ensures pausedOutput == old(pausedOutput)[TakeSize(limits, old(State()))..]
      ensures FrontTaken(old(pausedOutput), pausedOutput, true, chunk)
    {
      var size := Min(|pausedOutput|, limits.chunk);
      assert pausedOutput[..|pausedOutput|] == pausedOutput && pausedOutput[|pausedOutput|..] == [];
      assert pausedOutput[..size] + pausedOutput[size..] == pausedOutput;
      if size == |pausedOutput| {
        chunk, pausedOutput := pausedOutput, [];
      } else {
        chunk, pausedOutput := pausedOutput[..size], pausedOutput[size..];
      }
    }

    method TakeForDelivery() returns (started: bool, chunk: Bytes)
      requires Valid()
      modifies this`pausedOutput, this`deliveryInProgress
      ensures Valid()
      ensures State() == Taken(limits, old(State()))
      ensures (if started then Some(chunk) else None) == Chunk(limits, old(State()))
      ensures started <==> limits.chunk > 0 && !old(deliveryInProgress) && old(pausedOutput) != []
      ensures deliveryInProgress <==> old(deliveryInProgress) || started
      ensures FrontTaken(old(pausedOutput), pausedOutput, started, chunk) && (started ==> chunk != [])
    {
      hide FrontTaken;
      started, chunk := false, [];
      assert FrontTaken(pausedOutput, pausedOutput, false, []) by {
        NothingTaken();
      }
      if limits.chunk <= 0 || deliveryInProgress || pausedOutput == [] {
        return;
      }
      chunk := TakeFront();
      deliveryInProgress := true;
      started := true;
    }

    lemma {:induction false} NothingTaken()
      ensures FrontTaken(pausedOutput, pausedOutput, false, [])
    {
    }

    method SetOutputPaused(paused: bool) returns (started: bool, chunk: Bytes)
      requires Valid()
      modifies this`outputPaused, this`pausedOutput, this`deliveryInProgress
      ensures Valid()
      ensures (State(), if started then Some(chunk) else None) == SetPaused(limits, old(State()), paused)
      ensures outputPaused <==> paused && !processStopping && !stopping
      ensures started <==> !outputPaused && !old(deliveryInProgress) && old(pausedOutput) != [] && limits.chunk > 0
      ensures deliveryInProgress <==> old(deliveryInProgress) || started
      ensures FrontTaken(old(pausedOutput), pausedOutput, started, chunk)
    {
      hide Taken, Chunk, FrontTaken, TakeSize, SetPaused, Keeps;
      SetPausedTakes(limits, State(), paused);
      NothingTaken();
      started, chunk := false, [];
      outputPaused := if processStopping || stopping then false else paused;
      assert State() == Repaused(old(State()), paused);
      if !outputPaused && !deliveryInProgress && pausedOutput != [] {
        started, chunk := TakeForDelivery();
      }
    }

    method Terminate() returns (accepted: bool, started: bool, chunk: Bytes)
      requires Valid()
      modifies this`outputPaused, this`processStopping, this`pausedOutput, this`deliveryInProgress
      ensures Valid()
      ensures accepted <==> MayTerminate(old(State()))
      ensures accepted <==> running && !old(processStopping) && !stopping
      ensures accepted ==> processStopping && !outputPaused
      ensures started <==> accepted && !old(deliveryInProgress) && old(pausedOutput) != [] && limits.chunk > 0
      ensures deliveryInProgress <==> old(deliveryInProgress) || started
      ensures FrontTaken(old(pausedOutput), pausedOutput, started, chunk)
      ensures accepted ==> (State(), if started then Some(chunk) else None) == StopProcess(limits, old(State()))
      ensures !accepted ==> State() == old(State()) && !started
    {
      hide Taken, Chunk, FrontTaken;
      NothingTaken();
      NothingToTake(limits, State().(processStopping := true, paused := false));
      started, chunk := false, [];
      if !running || processStopping || stopping {
        return false, false, [];
      }
      accepted := true;
      processStopping, outputPaused := true, false;
      if !deliveryInProgress && pausedOutput != [] {
        started, chunk := TakeForDelivery();
      }
    }

    method FinishDeliveryTurn() returns (more: bool, chunk: Bytes)
      requires Valid()
      modifies this`pausedOutput, this`deliveryInProgress
      ensures Valid()
      ensures (State(), if more then Some(chunk) else None) == FinishTurn(limits, old(State()))
      ensures more <==> (!outputPaused || processStopping || stopping) && old(pausedOutput) != []
      ensures deliveryInProgress <==> old(deliveryInProgress) && more
      ensures FrontTaken(old(pausedOutput), pausedOutput, more, chunk)
    {
      hide FrontTaken;
      NothingTaken();
      chunk := [];
      if (!outputPaused || processStopping || stopping) && pausedOutput != [] {
        chunk := TakeFront();
        more := true;
      } else {
        deliveryInProgress, more := false, false;
      }
    }

    /** What the reader's block does once it may hand over. */
    method DeliverOrBuffer(bytes: Bytes) returns (direct: bool, callbacks: bool)
      requires Valid() && MayHandOver(limits, State(), |bytes|) && |pausedOutput| <= limits.high
      modifies this`pausedOutput
      ensures Valid()
      ensures State() == HandedOver(old(State()), bytes).0 && |pausedOutput| <= limits.high
      ensures direct <==> HandedOver(old(State()), bytes).1.Direct?
      ensures direct <==> !stopping && !outputPaused && !deliveryInProgress && old(pausedOutput) == []
      ensures pausedOutput == if stopping || direct then old(pausedOutput) else old(pausedOutput) + bytes
      ensures direct ==> callbacks == hasCallbacks && pausedOutput == [] && !outputPaused && !deliveryInProgress
    {
      direct, callbacks := false, false;
      if stopping {
        return;
      }
      if outputPaused || deliveryInProgress || pausedOutput != [] {
        pausedOutput := if pausedOutput == [] then bytes else pausedOutput + bytes;
        return;
      }
      direct, callbacks := true, hasCallbacks;
    }

    /** Clears the callbacks; nothing read from now on is handed to them. */
    method Revoke()
      requires Valid()
      modifies this`stopping, this`outputPaused, this`hasCallbacks
      ensures Valid()
      ensures State() == Revoked(old(State())) == Revoked(State())
      ensures StopsForGood(limits, State()) && stopping && !outputPaused && !hasCallbacks && pausedOutput == old(pausedOutput)
    {
      stopping, outputPaused, hasCallbacks := true, false, false;
    }

    /** Shuts down once: the second call is told so and changes nothing. */
    method BeginShutdown() returns (first: bool)
      requires Valid()
      modifies this
      ensures Valid()
      ensures State() == Shutdown(old(State())) == Shutdown(State())
      ensures first <==> !old(shutdownStarted)
      ensures !first ==> State() == old(State())
      ensures StopsForGood(limits, State()) && shutdownStarted && processStopping && !hasCallbacks && pausedOutput == old(pausedOutput)
      ensures first ==> MayDrain(State()) && !outputPaused && !deliveryInProgress
      ensures running == old(running) && exitReported == old(exitReported) && readerFinished == old(readerFinished)
    {
      if shutdownStarted {
        return false;
      }
      shutdownStarted, stopping, processStopping := true, true, true;
      outputPaused, deliveryInProgress, hasCallbacks := false, false, false;
      first := true;
    }

    /** Whether this caller is the one to report the exit. */
    method ClaimExit() returns (claimed: bool)
      requires Valid()
      modifies this
      ensures Valid()
      ensures State() == ExitClaimed(old(State())) == ExitClaimed(State())
      ensures claimed <==> !old(exitReported)
      ensures !claimed ==> State() == old(State())
      ensures StopsForGood(limits, State()) && exitReported && processStopping && !running
      ensures hasCallbacks == old(hasCallbacks) && pausedOutput == old(pausedOutput)
      ensures deliveryInProgress == old(deliveryInProgress) && (claimed ==> !outputPaused)
      ensures shutdownStarted == old(shutdownStarted) && readerFinished == old(readerFinished)
    {
      if exitReported {
        return false;
      }
      exitReported, running, stopping, outputPaused, processStopping := true, false, true, false, true;
      claimed := true;
    }
  }
}
