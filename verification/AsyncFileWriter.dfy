/**
 AsyncFileWriter as an interleaving of two threads: the producer, which calls write, flush and
 close, and the worker, which handles the messages of a FIFO queue.  One step is one access to
 shared state: a flag, the ring, the queue or the file.
 */
module AsyncFileWriterProtocol {
  import opened Results
  import opened FileWriters

  datatype Msg = MsgWrite | MsgFlush | MsgClose

  /** scheduleWrite: check mWorkerClosed, remove pending WRITEs, send one. */
  datatype SchedStage = SchedCheck | SchedRemove | SchedSend

  /** close followed by sendCloseMsg: each flag is read, then set, then CLOSE is sent. */
  datatype CloseStage = CheckClosed | SetClosed | CheckWorker | SetWorker | SendClose

  datatype ProducerPc =
    | PIdle
    | PLoop(rest: seq<Byte>)                                       // top of the write loop
    | PCopy(rest: seq<Byte>, writable: nat)                        // free space has been read
    | PSched(sched: SchedStage, rest: seq<Byte>)
    | PFlush(passed: bool)                                         // flush: first check done, second check passed
    | PClosing(stage: CloseStage, rest: seq<Byte>, inWrite: bool)  // close, from the user or on a write mismatch

  /** draining is true while handleWrite runs inside the loop of handleClose. */
  datatype WorkerPc =
    | WIdle
    | WAvail(draining: bool)
    | WRead(draining: bool, avail: nat)
    | WFile(draining: bool, data: seq<Byte>)
    | WRecheck(draining: bool)
    | WSched(sched: SchedStage, draining: bool)
    | WFlush
    | WDrain
    | WFinalFlush
    | WFinally
    | WRingClose
    | WQuit
    | WClosing(stage: CloseStage, draining: bool)                  // handleWorkerError
    | WDead                                                        // the looper has ended

  datatype State = State(
    cap: nat, chunk: nat,
    ring: seq<Byte>, ringOpen: bool,
    queue: seq<Msg>, quitting: bool,
    closed: bool, workerClosed: bool,
    file: FileState,
    p: ProducerPc, w: WorkerPc,
    requested: seq<Byte>,            // history: every byte passed to a write that was let in
    accepted: seq<Byte>)             // history: every byte the ring has taken

  datatype Call = CallWrite(data: seq<Byte>) | CallFlush | CallClose | CallNothing

  /**
   What the environment decides in one step: the file I/O, what a call on the released ring
   returns, and whether the looper is ended by quit instead of quitSafely.
   */
  datatype Chance = Chance(io: Io, junkLen: nat, junk: seq<Byte>, legacyQuit: bool)

  function Min(a: nat, b: nat): nat {
    if a < b then a else b
  }

  function Without(q: seq<Msg>, m: Msg): seq<Msg> {
    if q == [] then [] else if q[0] == m then Without(q[1..], m) else [q[0]] + Without(q[1..], m)
  }

  function Send(s: State, m: Msg): State {
    if s.quitting then s else s.(queue := s.queue + [m])
  }

  function DoSched(s: State, stage: SchedStage): (State, Option<SchedStage>) {
    match stage
    case SchedCheck => (s, if s.workerClosed then None else Some(SchedRemove))
    case SchedRemove => (s.(queue := Without(s.queue, MsgWrite)), Some(SchedSend))
    case SchedSend => (Send(s, MsgWrite), None)
  }

  function DoClose(s: State, stage: CloseStage): (State, Option<CloseStage>) {
    match stage
    case CheckClosed => (s, if s.closed then None else Some(SetClosed))
    case SetClosed => (s.(closed := true), Some(CheckWorker))
    case CheckWorker => (s, if s.workerClosed then None else Some(SetWorker))
    case SetWorker => (s.(workerClosed := true), Some(SendClose))
    case SendClose => (Send(s, MsgClose), None)
  }

  // ---------- the producer ----------

  function ProducerStep(s: State, call: Call, ch: Chance): State {
    match s.p
    case PIdle =>
      (match call
       case CallWrite(data) => if s.closed then s else s.(p := PLoop(data), requested := s.requested + data)
       case CallFlush => if s.closed then s else s.(p := PFlush(false))
       case CallClose => s.(p := PClosing(CheckClosed, [], false))
       case CallNothing => s)
    case PLoop(rest) =>
      var free := if s.ringOpen then (if s.cap > |s.ring| then s.cap - |s.ring| else 0) else ch.junkLen;
      var writable := Min(free, |rest|);
      if rest == [] then s.(p := PIdle) else if writable > 0 then s.(p := PCopy(rest, writable)) else s
    case PCopy(rest, writable) =>
      RingWrite(s, rest, writable, ch)
    case PSched(stage, rest) =>
      var (t, next) := DoSched(s, stage);
      t.(p := if next.Some? then PSched(next.value, rest) else PLoop(rest))
    case PFlush(passed) =>
      if passed then Send(s, MsgFlush).(p := PIdle)
      else s.(p := if s.workerClosed then PIdle else PFlush(true))
    case PClosing(stage, rest, inWrite) =>
      var (t, next) := DoClose(s, stage);
      t.(p := if next.Some? then PClosing(next.value, rest, inWrite)
              else if inWrite then PSched(SchedCheck, rest) else PIdle)
  }

  /** The ring takes as much as fits; a short count sends the producer through handleWorkerError. */
  function RingWrite(s: State, rest: seq<Byte>, writable: nat, ch: Chance): State {
    var want := Min(writable, |rest|);
    var written := Min(want, if s.ringOpen then (if s.cap > |s.ring| then s.cap - |s.ring| else 0) else ch.junkLen);
    var t := if s.ringOpen then s.(ring := s.ring + rest[..written], accepted := s.accepted + rest[..written]) else s;
    t.(p := if written != writable then PClosing(CheckClosed, rest[written..], true)
            else PSched(SchedCheck, rest[written..]))
  }

  // ---------- the worker ----------

  function Resume(draining: bool): WorkerPc {
    if draining then WDrain else WIdle
  }

  function Available(s: State, ch: Chance): nat {
    if s.ringOpen then |s.ring| else ch.junkLen
  }

  function WorkerStep(s: State, ch: Chance): State {
    match s.w
    case WIdle => NextMessage(s)
    case WAvail(d) =>
      var avail := Available(s, ch);
      s.(w := if avail == 0 then Resume(d) else WRead(d, avail))
    case WRead(d, avail) => RingRead(s, d, avail, ch)
    case WFile(d, data) =>
      var (f, threw) := s.file.Write(data, ch.io);
      s.(file := f, w := if threw then WClosing(CheckClosed, d) else WRecheck(d))
    case WRecheck(d) =>
      s.(w := if Available(s, ch) > 0 then WSched(SchedCheck, d) else Resume(d))
    case WSched(stage, d) =>
      var (t, next) := DoSched(s, stage);
      t.(w := if next.Some? then WSched(next.value, d) else Resume(d))
    case WFlush =>
      var (f, threw) := s.file.Flush(ch.io);
      s.(file := f, w := if threw then WClosing(CheckClosed, false) else WIdle)
    case WDrain =>
      s.(w := if Available(s, ch) > 0 then WAvail(true) else WFinalFlush)
    case WFinalFlush =>
      var (f, threw) := s.file.Flush(ch.io);
      s.(file := f, w := if threw then WClosing(CheckClosed, true) else WFinally)
    case WFinally => s.(file := s.file.Close(ch.io), w := WRingClose)
    case WRingClose => s.(ringOpen := false, w := WQuit)
    case WQuit => s.(quitting := true, queue := if ch.legacyQuit then [] else s.queue, w := WIdle)
    case WClosing(stage, d) =>
      var (t, next) := DoClose(s, stage);
      t.(w := if next.Some? then WClosing(next.value, d) else if d then WFinally else WIdle)
    case WDead => s
  }

  function NextMessage(s: State): State {
    if s.queue == [] then (if s.quitting then s.(w := WDead) else s)
    else
      var t := s.(queue := s.queue[1..]);
      match s.queue[0]
      case MsgWrite => t.(w := WAvail(false))
      case MsgFlush => t.(w := WFlush)
      case MsgClose => t.(w := WDrain)
  }

  /** At most one chunk leaves the ring. */
  function RingRead(s: State, d: bool, avail: nat, ch: Chance): State {
    var want := Min(avail, s.chunk);
    var data := if s.ringOpen then s.ring[..Min(want, |s.ring|)] else ch.junk[..Min(want, |ch.junk|)];
    var t := if s.ringOpen then s.(ring := s.ring[|data|..]) else s;
    t.(w := if data != [] then WFile(d, data) else WRecheck(d))
  }

  // ---------- runs ----------

  datatype Action = ByProducer(call: Call, ch: Chance) | ByWorker(ch: Chance)

  function Step(s: State, a: Action): State {
    match a
    case ByProducer(call, ch) => ProducerStep(s, call, ch)
    case ByWorker(ch) => WorkerStep(s, ch)
  }

  /** A fresh writer; the ring's real capacity is whatever the library made of the request. */
  function Start(cap: nat, chunk: nat): State {
    State(cap, chunk, [], true, [], false, false, false, FRESH_FILE, PIdle, WIdle, [], [])
  }

  function Run(s: State, acts: seq<Action>): State
    decreases |acts|
  {
    if acts == [] then s else Run(Step(s, acts[0]), acts[1..])
  }

  /** The worker alone. */
  function WorkerRun(s: State, chs: seq<Chance>): State
    decreases |chs|
  {
    if chs == [] then s else WorkerRun(WorkerStep(s, chs[0]), chs[1..])
  }

  // ---------- the invariant ----------

  /** The thread has set mClosed and not yet mWorkerClosed. */
  predicate HandingOver(stage: CloseStage) {
    stage.CheckWorker? || stage.SetWorker?
  }

  predicate ProducerHandsOver(s: State) {
    s.p.PClosing? && HandingOver(s.p.stage)
  }

  predicate WorkerHandsOver(s: State) {
    s.w.WClosing? && HandingOver(s.w.stage)
  }

  /** Inside handleClose, up to the release of the ring. */
  predicate Draining(w: WorkerPc) {
    match w
    case WAvail(d) => d
    case WRead(d, _) => d
    case WFile(d, _) => d
    case WRecheck(d) => d
    case WSched(_, d) => d
    case WClosing(_, d) => d
    case _ => w.WDrain? || w.WFinalFlush? || w.WFinally? || w.WRingClose?
  }

  predicate InHandleWrite(w: WorkerPc) {
    w.WAvail? || w.WRead? || w.WFile? || w.WRecheck? || w.WSched?
  }

  /** Snapshots of ring lengths are never too large, and no copy is ever short while the ring is open. */
  predicate Bounds(s: State) {
    && 0 < s.cap && 0 < s.chunk && |s.ring| <= s.cap
    && (s.p.PCopy? ==> 0 < s.p.writable <= |s.p.rest| && (s.ringOpen ==> s.p.writable <= s.cap - |s.ring|))
    && (s.w.WRead? ==> 0 < s.w.avail && (s.ringOpen ==> s.w.avail <= |s.ring|))
    && (s.w.WAvail? && s.w.draining && s.ringOpen ==> s.ring != [])
    && (s.p.PClosing? && s.p.inWrite ==> !s.ringOpen)
  }

  /** How the two close flags, the CLOSE message and the end of the worker follow one another. */
  predicate Flags(s: State) {
    && s.file.Consistent()
    && (s.workerClosed ==> s.closed)
    && (s.closed && !s.workerClosed ==> ProducerHandsOver(s) || WorkerHandsOver(s))
    && (s.p.PClosing? ==> (HandingOver(s.p.stage) ==> s.closed) && (s.p.stage.SendClose? ==> s.workerClosed))
    && (s.w.WClosing? ==> (HandingOver(s.w.stage) ==> s.closed) && (s.w.stage.SendClose? ==> s.workerClosed))
    && (MsgClose in s.queue || Draining(s.w) || !s.ringOpen ==> s.workerClosed)
    && (s.quitting || s.w.WQuit? <==> !s.ringOpen)
    && (!s.ringOpen || s.w.WRingClose? <==> s.file.closed)
    && (s.w.WDead? ==> s.quitting && s.queue == [])
  }

  /** Each thread about to send a WRITE has removed the earlier ones. */
  predicate FewWrites(s: State) {
    multiset(s.queue)[MsgWrite]
      + (if s.p.PSched? && s.p.sched.SchedSend? then 1 else 0)
      + (if s.w.WSched? && s.w.sched.SchedSend? then 1 else 0) <= 2
  }

  /** Bytes in the ring always have somebody who will look at them. */
  predicate NotStranded(s: State) {
    s.ring != [] && !s.workerClosed ==>
      MsgWrite in s.queue || s.p.PSched? || ProducerHandsOver(s) || InHandleWrite(s.w) || s.w.WClosing?
  }

  predicate NoFailure(s: State) {
    !s.file.hasError
  }

  function Tokens(s: State): nat {
    multiset(s.queue)[MsgClose]
      + (if s.p.PClosing? && s.p.stage.SendClose? then 1 else 0)
      + (if Draining(s.w) || !s.ringOpen then 1 else 0)
  }

  function InFlight(w: WorkerPc): seq<Byte> {
    if w.WFile? then w.data else []
  }

  predicate Writing(p: ProducerPc) {
    p.PLoop? || p.PCopy? || p.PSched? || (p.PClosing? && p.inWrite)
  }

  /** Without I/O failure: who may close, and exactly one CLOSE is ever under way. */
  predicate CleanFlags(s: State) {
    && (s.closed ==> !Writing(s.p))
    && (s.p.PClosing? && s.p.stage.SetClosed? ==> !s.closed)
    && (s.p.PClosing? && HandingOver(s.p.stage) ==> !s.workerClosed)
    && (s.w.WClosing? ==> s.w.stage.CheckClosed? && !s.ringOpen && !s.w.draining)
    && (Draining(s.w) ==> s.ringOpen)
    && Tokens(s) == (if s.workerClosed then 1 else 0)
  }

  /** What the current write call still has to copy. */
  function StillToCopy(p: ProducerPc): seq<Byte> {
    match p
    case PLoop(rest) => rest
    case PCopy(rest, _) => rest
    case PSched(_, rest) => rest
    case PClosing(_, rest, inWrite) => if inWrite then rest else []
    case _ => []
  }

  /** Without I/O failure: file, chunk in hand and ring hold the accepted bytes, in order. */
  predicate CleanBytes(s: State) {
    && s.accepted + StillToCopy(s.p) == s.requested
    && (s.ringOpen ==> s.file.disk + s.file.pending + InFlight(s.w) + s.ring == s.accepted)
    && (s.w.WFinalFlush? || s.w.WFinally? || s.w.WRingClose? || !s.ringOpen ==> s.ring == [])
    && (s.w.WFinally? || s.w.WRingClose? || !s.ringOpen ==> s.file.pending == [] && s.file.disk == s.accepted)
  }

  predicate Inv(s: State) {
    Bounds(s) && Flags(s) && FewWrites(s) && NotStranded(s)
    && (NoFailure(s) ==> CleanFlags(s) && CleanBytes(s))
  }

  // ---------- every step keeps the invariant ----------

  lemma {:induction false} WithoutFacts(q: seq<Msg>)
    ensures var r := Without(q, MsgWrite);
      |r| <= |q| && MsgWrite !in r && multiset(r)[MsgWrite] == 0
      && multiset(r)[MsgClose] == multiset(q)[MsgClose] && (MsgClose in r <==> MsgClose in q)
  {
    if q != [] {
      WithoutFacts(q[1..]);
      assert q == [q[0]] + q[1..];
    }
  }

  lemma QueueTail(q: seq<Msg>)
    requires q != []
    ensures multiset(q)[MsgWrite] == multiset(q[1..])[MsgWrite] + if q[0] == MsgWrite then 1 else 0
    ensures multiset(q)[MsgClose] == multiset(q[1..])[MsgClose] + if q[0] == MsgClose then 1 else 0
    ensures MsgWrite in q && q[0] != MsgWrite ==> MsgWrite in q[1..]
    ensures MsgClose in q[1..] ==> MsgClose in q
  {
    assert q == [q[0]] + q[1..];
  }

  lemma CallKeeps(s: State, call: Call, ch: Chance)
    requires Inv(s) && s.p.PIdle?
    ensures Inv(ProducerStep(s, call, ch))
  {
  }

  lemma LoopKeeps(s: State, call: Call, ch: Chance)
    requires Inv(s) && s.p.PLoop?
    ensures Inv(ProducerStep(s, call, ch))
  {
    hide Without, RingWrite;
  }

  lemma CopyKeeps(s: State, call: Call, ch: Chance)
    requires Inv(s) && s.p.PCopy?
    ensures Inv(ProducerStep(s, call, ch))
  {
    hide Without, DoSched, DoClose;
  }

  lemma ProducerSchedKeeps(s: State, call: Call, ch: Chance)
    requires Inv(s) && s.p.PSched? && !s.p.sched.SchedRemove?
    ensures Inv(ProducerStep(s, call, ch))
  {
  }

  lemma ProducerRemoveKeeps(s: State, call: Call, ch: Chance)
    requires Inv(s) && s.p.PSched? && s.p.sched.SchedRemove?
    ensures Inv(ProducerStep(s, call, ch))
  {
    WithoutFacts(s.queue);
  }

  lemma FlushCheckKeeps(s: State, call: Call, ch: Chance)
    requires Inv(s) && s.p.PFlush? && !s.p.passed
    ensures Inv(ProducerStep(s, call, ch))
  {
    hide Without, RingWrite, DoSched, DoClose;
  }

  lemma FlushSendKeeps(s: State, call: Call, ch: Chance)
    requires Inv(s) && s.p.PFlush? && s.p.passed
    ensures Inv(ProducerStep(s, call, ch))
  {
    hide Without, RingWrite, DoSched, DoClose;
    if !s.quitting { assert multiset(s.queue + [MsgFlush]) == multiset(s.queue) + multiset{MsgFlush}; }
  }

  lemma ProducerCloseKeeps(s: State, call: Call, ch: Chance)
    requires Inv(s) && s.p.PClosing? && (s.p.stage.CheckClosed? || s.p.stage.SetClosed?)
    ensures Inv(ProducerStep(s, call, ch))
  {
  }

  lemma ProducerHandOverKeeps(s: State, call: Call, ch: Chance)
    requires Inv(s) && s.p.PClosing? && HandingOver(s.p.stage)
    ensures Inv(ProducerStep(s, call, ch))
  {
  }

  lemma ProducerSendCloseKeeps(s: State, call: Call, ch: Chance)
    requires Inv(s) && s.p.PClosing? && s.p.stage.SendClose?
    ensures Inv(ProducerStep(s, call, ch))
  {
  }

  lemma EmptyQueueKeeps(s: State, ch: Chance)
    requires Inv(s) && s.w.WIdle? && s.queue == []
    ensures Inv(WorkerStep(s, ch))
  {
  }

  lemma TakeWriteKeeps(s: State, ch: Chance)
    requires Inv(s) && s.w.WIdle? && s.queue != [] && s.queue[0] == MsgWrite
    ensures Inv(WorkerStep(s, ch))
  {
    QueueTail(s.queue);
  }

  lemma TakeFlushKeeps(s: State, ch: Chance)
    requires Inv(s) && s.w.WIdle? && s.queue != [] && s.queue[0] == MsgFlush
    ensures Inv(WorkerStep(s, ch))
  {
    QueueTail(s.queue);
  }

  lemma TakeCloseKeeps(s: State, ch: Chance)
    requires Inv(s) && s.w.WIdle? && s.queue != [] && s.queue[0] == MsgClose
    ensures Inv(WorkerStep(s, ch))
  {
    QueueTail(s.queue);
  }

  lemma AvailKeeps(s: State, ch: Chance)
    requires Inv(s) && s.w.WAvail?
    ensures Inv(WorkerStep(s, ch))
  {
  }

  lemma ReadKeeps(s: State, ch: Chance)
    requires Inv(s) && s.w.WRead?
    ensures Inv(WorkerStep(s, ch))
  {
  }

  lemma FileKeeps(s: State, ch: Chance)
    requires Inv(s) && s.w.WFile?
    ensures Inv(WorkerStep(s, ch))
  {
    WriteKeepsBytes(s.file, s.w.data, ch.io);
  }

  lemma RecheckKeeps(s: State, ch: Chance)
    requires Inv(s) && s.w.WRecheck?
    ensures Inv(WorkerStep(s, ch))
  {
  }

  lemma WorkerSchedKeeps(s: State, ch: Chance)
    requires Inv(s) && s.w.WSched? && s.w.sched.SchedCheck?
    ensures Inv(WorkerStep(s, ch))
  {
  }

  lemma WorkerRemoveKeeps(s: State, ch: Chance)
    requires Inv(s) && s.w.WSched? && s.w.sched.SchedRemove?
    ensures Inv(WorkerStep(s, ch))
  {
    hide Without;
    WithoutFacts(s.queue);
  }

  lemma WorkerSendKeeps(s: State, ch: Chance)
    requires Inv(s) && s.w.WSched? && s.w.sched.SchedSend?
    ensures Inv(WorkerStep(s, ch))
  {
  }

  lemma FlushKeeps(s: State, ch: Chance)
    requires Inv(s) && (s.w.WFlush? || s.w.WFinalFlush?)
    ensures Inv(WorkerStep(s, ch))
  {
    FlushKeepsBytes(s.file, ch.io);
  }

  lemma DrainKeeps(s: State, ch: Chance)
    requires Inv(s) && s.w.WDrain?
    ensures Inv(WorkerStep(s, ch))
  {
  }

  lemma EndKeeps(s: State, ch: Chance)
    requires Inv(s) && (s.w.WFinally? || s.w.WRingClose? || s.w.WQuit?)
    ensures Inv(WorkerStep(s, ch))
  {
  }

  lemma WorkerCloseKeeps(s: State, ch: Chance)
    requires Inv(s) && s.w.WClosing? && (s.w.stage.CheckClosed? || s.w.stage.SetClosed?)
    ensures Inv(WorkerStep(s, ch))
  {
  }

  lemma WorkerHandOverKeeps(s: State, ch: Chance)
    requires Inv(s) && s.w.WClosing? && HandingOver(s.w.stage)
    ensures Inv(WorkerStep(s, ch))
  {
  }

  lemma WorkerSendCloseKeeps(s: State, ch: Chance)
    requires Inv(s) && s.w.WClosing? && s.w.stage.SendClose?
    ensures Inv(WorkerStep(s, ch))
  {
  }

  lemma ProducerStepKeeps(s: State, call: Call, ch: Chance)
    requires Inv(s)
    ensures Inv(ProducerStep(s, call, ch))
  {
    match s.p
    case PIdle => CallKeeps(s, call, ch);
    case PLoop(_) => LoopKeeps(s, call, ch);
    case PCopy(_, _) => CopyKeeps(s, call, ch);
    case PSched(stage, _) =>
      if stage.SchedRemove? { ProducerRemoveKeeps(s, call, ch); } else { ProducerSchedKeeps(s, call, ch); }
    case PFlush(passed) => if passed { FlushSendKeeps(s, call, ch); } else { FlushCheckKeeps(s, call, ch); }
    case PClosing(stage, _, _) =>
      if HandingOver(stage) { ProducerHandOverKeeps(s, call, ch); }
      else if stage.SendClose? { ProducerSendCloseKeeps(s, call, ch); }
      else { ProducerCloseKeeps(s, call, ch); }
  }

  lemma WorkerStepKeeps(s: State, ch: Chance)
    requires Inv(s)
    ensures Inv(WorkerStep(s, ch))
  {
    match s.w
    case WIdle =>
      if s.queue == [] { EmptyQueueKeeps(s, ch); }
      else if s.queue[0] == MsgWrite { TakeWriteKeeps(s, ch); }
      else if s.queue[0] == MsgFlush { TakeFlushKeeps(s, ch); }
      else { TakeCloseKeeps(s, ch); }
    case WAvail(_) => AvailKeeps(s, ch);
    case WRead(_, _) => ReadKeeps(s, ch);
    case WFile(_, _) => FileKeeps(s, ch);
    case WRecheck(_) => RecheckKeeps(s, ch);
    case WSched(stage, _) =>
      if stage.SchedCheck? { WorkerSchedKeeps(s, ch); }
      else if stage.SchedRemove? { WorkerRemoveKeeps(s, ch); }
      else { WorkerSendKeeps(s, ch); }
    case WFlush => FlushKeeps(s, ch);
    case WFinalFlush => FlushKeeps(s, ch);
    case WDrain => DrainKeeps(s, ch);
    case WClosing(stage, _) =>
      if HandingOver(stage) { WorkerHandOverKeeps(s, ch); }
      else if stage.SendClose? { WorkerSendCloseKeeps(s, ch); }
      else { WorkerCloseKeeps(s, ch); }
    case WDead =>
    case _ => EndKeeps(s, ch);
  }

  // ---------- what holds in every interleaving ----------

  /** Every state of every run, whatever the calls, the scheduling and the I/O failures. */
  lemma {:induction false} AlwaysInv(s: State, acts: seq<Action>)
    requires Inv(s)
    ensures Inv(Run(s, acts))
    decreases |acts|
  {
    if acts != [] {
      match acts[0] {
        case ByProducer(call, ch) => ProducerStepKeeps(s, call, ch);
        case ByWorker(ch) => WorkerStepKeeps(s, ch);
      }
      AlwaysInv(Step(s, acts[0]), acts[1..]);
    }
  }

  /**
   Safety of every run from a fresh writer: the ring never overflows, at most two WRITEs are
   pending, the write-mismatch branch needs a released ring, and bytes left in the ring while the
   worker is open have a WRITE queued, a producer about to send one, a worker that is still busy
   with them, or a producer about to hand over to CLOSE.
   */
  lemma RunsAreSafe(cap: nat, chunk: nat, acts: seq<Action>)
    requires 0 < cap && 0 < chunk
    ensures var s := Run(Start(cap, chunk), acts);
      && |s.ring| <= s.cap
      && multiset(s.queue)[MsgWrite] <= 2
      && (s.p.PClosing? && s.p.inWrite ==> !s.ringOpen)
      && (s.ring != [] && !s.workerClosed ==>
            MsgWrite in s.queue || s.p.PSched? || ProducerHandsOver(s) || InHandleWrite(s.w) || s.w.WClosing?)
  {
    AlwaysInv(Start(cap, chunk), acts);
  }

  /**
   As long as no I/O call has failed: while the ring is open, file, buffer, chunk in hand and ring
   together are exactly the bytes taken from the callers, in order; once it is released, the file is;
   what a write call has not copied yet is exactly what is missing; and before close the only ones who
   may owe the ring a look are a queued WRITE, the producer between its ring write and its send, and a
   worker inside handleWrite.
   */
  lemma BytesAreConserved(cap: nat, chunk: nat, acts: seq<Action>)
    requires 0 < cap && 0 < chunk
    requires NoFailure(Run(Start(cap, chunk), acts))
    ensures var s := Run(Start(cap, chunk), acts);
      && s.accepted + StillToCopy(s.p) == s.requested
      && (s.ringOpen ==> s.file.disk + s.file.pending + InFlight(s.w) + s.ring == s.accepted)
      && (!s.ringOpen ==> s.file.disk == s.accepted)
      && (s.ring != [] && !s.closed ==> MsgWrite in s.queue || s.p.PSched? || InHandleWrite(s.w))
  {
    AlwaysInv(Start(cap, chunk), acts);
  }
}
