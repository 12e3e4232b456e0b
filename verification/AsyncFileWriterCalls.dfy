/**
 What the three calls of AsyncFileWriter bring about, however the two threads take turns: an open writer
 lets a write in and the write returns, a flush reaches the file, a close closes.
 */
module AsyncFileWriterCalls {
  import opened FileWriters
  import opened AsyncFileWriterProtocol
  import opened AsyncFileWriterProgress

  // ---------- calls are let in ----------

  /** Between calls: an open writer starts the call it is given, a closed one refuses write and flush. */
  lemma CallsStart(s: State, data: seq<Byte>, ch: Chance)
    requires s.p.PIdle?
    ensures var t := ProducerStep(s, CallWrite(data), ch);
      if s.closed then t == s
      else Writing(t.p) && StillToCopy(t.p) == data && t.requested == s.requested + data
    ensures var t := ProducerStep(s, CallFlush, ch);
      if s.closed then t == s else t.p == PFlush(false)
    ensures ProducerStep(s, CallClose, ch).p.PClosing?
  {
  }

  // ---------- a write call returns ----------

  function Free(s: State, ch: Chance): nat {
    if s.ringOpen then (if s.cap > |s.ring| then s.cap - |s.ring| else 0) else ch.junkLen
  }

  /** At every look the ring has room; after its release it also takes a byte at every copy. */
  predicate RoomAtLooks(s: State, acts: seq<Action>)
    decreases |acts|
  {
    acts == []
    || ((acts[0].ByProducer? && (s.p.PLoop? || (s.p.PCopy? && !s.ringOpen)) ==> Free(s, acts[0].ch) > 0)
        && RoomAtLooks(Step(s, acts[0]), acts[1..]))
  }

  lemma QueueLeavesCall(s: State, ch: Chance)
    requires s.w.WIdle? || s.w.WSched?
    ensures WorkerStep(s, ch).p == s.p
  {
    hide Without;
  }

  lemma CloseLeavesCall(s: State, ch: Chance)
    requires s.w.WClosing?
    ensures WorkerStep(s, ch).p == s.p
  {
  }

  lemma WorkerLeavesCall(s: State, ch: Chance)
    ensures WorkerStep(s, ch).p == s.p
  {
    match s.w
    case WIdle => QueueLeavesCall(s, ch);
    case WSched(_, _) => QueueLeavesCall(s, ch);
    case WClosing(_, _) => CloseLeavesCall(s, ch);
    case _ => hide FileState.Write, FileState.Flush, FileState.Close, NextMessage, DoSched, DoClose;
  }

  lemma StepKeepsSound(s: State, a: Action)
    requires Sound(s)
    ensures Sound(Step(s, a))
  {
    match a
    case ByProducer(call, ch) => ProducerStepKeeps(s, call, ch); ProducerKeepsClose(s, call, ch);
    case ByWorker(ch) => WorkerKeepsSound(s, ch);
  }

  /** A producer step with room brings the write nearer to its end. */
  lemma WriteStep(s: State, call: Call, ch: Chance)
    requires Sound(s) && Writing(s.p)
    requires s.p.PLoop? || (s.p.PCopy? && !s.ringOpen) ==> Free(s, ch) > 0
    ensures var t := ProducerStep(s, call, ch);
      !Writing(t.p) || WriteLeft(t.p) < WriteLeft(s.p)
  {
    hide FewWrites, NotStranded, CleanFlags, CleanBytes, Without;
  }

  /** With room at every look, WriteLeft producer steps end the write, however the threads take turns. */
  lemma {:induction false} WriteReturns(s: State, acts: seq<Action>) returns (n: nat)
    requires Sound(s) && Writing(s.p) && RoomAtLooks(s, acts) && ProducerSteps(acts) >= WriteLeft(s.p)
    ensures n <= |acts| && !Writing(Run(s, acts[..n]).p)
    decreases |acts|
  {
    var t := Step(s, acts[0]);
    StepKeepsSound(s, acts[0]);
    match acts[0] {
      case ByProducer(call, ch) => WriteStep(s, call, ch);
      case ByWorker(ch) => WorkerLeavesCall(s, ch);
    }
    if !Writing(t.p) {
      n := 1;
      assert acts[..1] == [acts[0]] && Run(t, []) == t;
    } else {
      var m := WriteReturns(t, acts[1..]);
      n := m + 1;
      assert acts[..n][1..] == acts[1..][..m] && acts[..n][0] == acts[0];
    }
  }

  // ---------- a close call closes ----------

  predicate InClose(s: State) {
    s.p.PClosing? && !s.p.inWrite
  }

  lemma CloseStep(s: State, call: Call, ch: Chance)
    requires Sound(s) && InClose(s)
    ensures var t := ProducerStep(s, call, ch);
      (InClose(t) && StagesLeft(t.p.stage) < StagesLeft(s.p.stage)) || (t.p.PIdle? && t.closed)
  {
    hide FewWrites, NotStranded, CleanFlags, CleanBytes, Without;
  }

  /** At most five producer steps end a close call, and then the writer is closed. */
  lemma {:induction false} CloseReturns(s: State, acts: seq<Action>) returns (n: nat)
    requires Sound(s) && InClose(s) && ProducerSteps(acts) > StagesLeft(s.p.stage)
    ensures n <= |acts| && var t := Run(s, acts[..n]); t.p.PIdle? && t.closed
    decreases |acts|
  {
    var t := Step(s, acts[0]);
    StepKeepsSound(s, acts[0]);
    match acts[0] {
      case ByProducer(call, ch) => CloseStep(s, call, ch);
      case ByWorker(ch) => WorkerLeavesCall(s, ch);
    }
    if !InClose(t) {
      n := 1;
      assert acts[..1] == [acts[0]] && Run(t, []) == t;
    } else {
      var m := CloseReturns(t, acts[1..]);
      n := m + 1;
      assert acts[..n][1..] == acts[1..][..m] && acts[..n][0] == acts[0];
    }
  }

  // ---------- a flush call reaches the file ----------

  /** Index of the first message that is not WRITE. */
  function Barrier(q: seq<Msg>): (b: nat)
    ensures b <= |q|
  {
    if q == [] || !q[0].MsgWrite? then 0 else 1 + Barrier(q[1..])
  }

  lemma {:induction false} BarrierAppend(q: seq<Msg>, m: Msg)
    ensures Barrier(q) < |q| ==>
      Barrier(q + [m]) == Barrier(q) && (q + [m])[Barrier(q)] == q[Barrier(q)]
    ensures Barrier(q) == |q| && !m.MsgWrite? ==> Barrier(q + [m]) == |q|
  {
    if q != [] && q[0].MsgWrite? {
      assert (q + [m])[1..] == q[1..] + [m];
      BarrierAppend(q[1..], m);
    }
  }

  lemma {:induction false} BarrierWithout(q: seq<Msg>)
    requires Barrier(q) < |q|
    ensures var r := Without(q, MsgWrite); Barrier(r) == 0 && r != [] && r[0] == q[Barrier(q)]
  {
    if q[0].MsgWrite? { BarrierWithout(q[1..]); }
  }

  lemma {:induction false} BarrierOfFlush(q: seq<Msg>)
    ensures MsgFlush in q || MsgClose in q <==> Barrier(q) < |q|
  {
    if q != [] {
      BarrierOfFlush(q[1..]);
      assert q == [q[0]] + q[1..];
    }
  }

  /** A FLUSH or CLOSE is queued or being handled. */
  predicate FlushComes(s: State) {
    Barrier(s.queue) < |s.queue| || s.w.WFlush? || Draining(s.w)
  }

  /** Nothing in the stream's buffer needs saving any more, or saving has failed. */
  predicate Settled(s: State) {
    s.file.hasError || !s.ringOpen || s.w.WFinally? || s.w.WRingClose?
  }

  function WorkerStage(w: WorkerPc): nat {
    match w
    case WAvail(d) => if d then 8 else 7
    case WRead(d, _) => if d then 7 else 6
    case WFile(d, _) => if d then 15 else 5
    case WRecheck(d) => if d then 14 else 4
    case WSched(stage, d) =>
      (if d then 10 else 0) + (match stage case SchedCheck => 3 case SchedRemove => 2 case SchedSend => 1)
    case WDrain => 9
    case WFinalFlush => 1
    case _ => 0
  }

  /** Worker steps until the stream buffer of now is in the file; only WRITEs are ahead of the barrier. */
  function FlushLeft(s: State): nat {
    if Settled(s) then 0
    else if Draining(s.w) then 16 * |s.ring| + WorkerStage(s.w)
    else if s.w.WFlush? then 1
    else
      var b := Barrier(s.queue);
      8 * b + WorkerStage(s.w) + if b < |s.queue| && s.queue[b].MsgClose? then 16 * |s.ring| + 10 else 2
  }

  /** saved is in the file, or will be once FLUSH or CLOSE has been handled. */
  predicate Saving(s: State, saved: seq<Byte>) {
    Sound(s) && (s.file.hasError || saved <= s.file.disk || (FlushComes(s) && saved <= s.file.disk + s.file.pending))
  }

  predicate Saved(s: State, saved: seq<Byte>) {
    s.file.hasError || saved <= s.file.disk
  }

  /** When everything is settled, so is what was to be saved. */
  lemma SettledIsSaved(s: State, saved: seq<Byte>)
    requires Saving(s, saved) && Settled(s)
    ensures Saved(s, saved)
  {
    if NoFailure(s) { assert s.file.pending == [] && s.file.disk + [] == s.file.disk; }
  }

  /** What one step does for bytes to be saved: the worker brings them nearer, the producer does not hinder. */
  predicate NearerSaved(s: State, t: State, saved: seq<Byte>, worker: bool) {
    Saved(t, saved)
    || (FlushComes(t) && saved <= t.file.disk + t.file.pending
        && if worker then FlushLeft(t) < FlushLeft(s) else FlushLeft(t) <= FlushLeft(s))
  }

  predicate Unsaved(s: State, saved: seq<Byte>) {
    Sound(s) && !Settled(s) && FlushComes(s) && saved <= s.file.disk + s.file.pending
  }

  lemma SavingTakes(s: State, ch: Chance, saved: seq<Byte>)
    requires Unsaved(s, saved) && s.w.WIdle?
    ensures NearerSaved(s, WorkerStep(s, ch), saved, true)
  {
    hide FewWrites, NotStranded;
  }

  lemma SavingScheds(s: State, ch: Chance, saved: seq<Byte>)
    requires Unsaved(s, saved) && s.w.WSched?
    ensures NearerSaved(s, WorkerStep(s, ch), saved, true)
  {
    hide FewWrites, NotStranded, CleanBytes;
    if Barrier(s.queue) < |s.queue| { BarrierWithout(s.queue); }
    BarrierAppend(s.queue, MsgWrite);
  }

  lemma PrefixGrows(a: seq<Byte>, b: seq<Byte>, c: seq<Byte>)
    requires a <= b
    ensures a <= b + c
  {
  }

  lemma SavingWrites(s: State, ch: Chance, saved: seq<Byte>)
    requires Unsaved(s, saved) && s.w.WFile?
    ensures NearerSaved(s, WorkerStep(s, ch), saved, true)
  {
    hide FewWrites, NotStranded, CleanBytes;
    WriteKeepsBytes(s.file, s.w.data, ch.io);
    PrefixGrows(saved, s.file.disk + s.file.pending, s.w.data);
  }

  lemma SavingFlushes(s: State, ch: Chance, saved: seq<Byte>)
    requires Unsaved(s, saved) && (s.w.WFlush? || s.w.WFinalFlush?)
    ensures NearerSaved(s, WorkerStep(s, ch), saved, true)
  {
    hide FewWrites, NotStranded, CleanBytes;
    FlushKeepsBytes(s.file, ch.io);
    var (f, threw) := s.file.Flush(ch.io);
    if !threw { assert f.pending == [] && f.disk + [] == f.disk; }
  }

  lemma SavingMoves(s: State, ch: Chance, saved: seq<Byte>)
    requires Unsaved(s, saved)
    requires !s.w.WIdle? && !s.w.WSched? && !s.w.WFile? && !s.w.WFlush? && !s.w.WFinalFlush?
    ensures NearerSaved(s, WorkerStep(s, ch), saved, true)
  {
    hide FewWrites, NotStranded, CleanBytes;
  }

  lemma SavingWorker(s: State, ch: Chance, saved: seq<Byte>)
    requires Unsaved(s, saved)
    ensures NearerSaved(s, WorkerStep(s, ch), saved, true)
  {
    match s.w
    case WIdle => SavingTakes(s, ch, saved);
    case WSched(_, _) => SavingScheds(s, ch, saved);
    case WFile(_, _) => SavingWrites(s, ch, saved);
    case WFlush => SavingFlushes(s, ch, saved);
    case WFinalFlush => SavingFlushes(s, ch, saved);
    case _ => SavingMoves(s, ch, saved);
  }

  lemma SavingRemoves(s: State, call: Call, ch: Chance, saved: seq<Byte>)
    requires Unsaved(s, saved) && s.p.PSched? && s.p.sched.SchedRemove?
    ensures NearerSaved(s, ProducerStep(s, call, ch), saved, false)
  {
    hide Inv, CloseComes, Without;
    if Barrier(s.queue) < |s.queue| { BarrierWithout(s.queue); }
  }

  lemma UnsavedFacts(s: State, saved: seq<Byte>)
    requires Unsaved(s, saved)
    ensures FlushComes(s) && saved <= s.file.disk + s.file.pending
  {
  }

  /** Only messages have been sent. */
  predicate Sent(s: State, t: State, m: Msg) {
    t.w == s.w && t.ring == s.ring && t.ringOpen == s.ringOpen && t.file == s.file
    && (t.queue == s.queue || t.queue == s.queue + [m])
  }

  lemma SendingIsHarmless(s: State, t: State, m: Msg, saved: seq<Byte>)
    requires FlushComes(s) && saved <= s.file.disk + s.file.pending && Sent(s, t, m)
    ensures NearerSaved(s, t, saved, false)
  {
    BarrierAppend(s.queue, m);
  }

  lemma SavingSchedules(s: State, call: Call, ch: Chance, saved: seq<Byte>)
    requires Unsaved(s, saved) && s.p.PSched? && !s.p.sched.SchedRemove?
    ensures NearerSaved(s, ProducerStep(s, call, ch), saved, false)
  {
    assert Sent(s, ProducerStep(s, call, ch), MsgWrite) by { hide Inv, CloseComes, Without; }
    UnsavedFacts(s, saved);
    hide *;
    SendingIsHarmless(s, ProducerStep(s, call, ch), MsgWrite, saved);
  }

  lemma SavingSends(s: State, call: Call, ch: Chance, saved: seq<Byte>)
    requires Unsaved(s, saved) && (s.p.PFlush? || s.p.PClosing?)
    ensures NearerSaved(s, ProducerStep(s, call, ch), saved, false)
  {
    var m := if s.p.PFlush? then MsgFlush else MsgClose;
    assert Sent(s, ProducerStep(s, call, ch), m) by { hide Inv, CloseComes, Without; }
    UnsavedFacts(s, saved);
    hide *;
    SendingIsHarmless(s, ProducerStep(s, call, ch), m, saved);
  }

  lemma SavingProducer(s: State, call: Call, ch: Chance, saved: seq<Byte>)
    requires Unsaved(s, saved) && !s.p.PSched? && !s.p.PFlush? && !s.p.PClosing?
    ensures NearerSaved(s, ProducerStep(s, call, ch), saved, false)
  {
    hide FewWrites, NotStranded, CleanBytes;
    BarrierOfFlush(s.queue);
    if Barrier(s.queue) < |s.queue| && s.queue[Barrier(s.queue)].MsgClose? {
      assert MsgClose in s.queue;
    }
  }

  /**
   However the threads take turns: once FLUSH (or CLOSE) is queued, FlushLeft worker steps bring what the
   file and its buffer held then into the file, unless an I/O call has failed.
   */
  lemma {:induction false} FlushIsServed(s: State, acts: seq<Action>, saved: seq<Byte>) returns (n: nat)
    requires Saving(s, saved) && WorkerSteps(acts) >= FlushLeft(s)
    ensures n <= |acts| && Saved(Run(s, acts[..n]), saved)
    decreases |acts|
  {
    if Saved(s, saved) || Settled(s) {
      SettledOrSaved(s, saved);
      n := 0;
      assert acts[..0] == [];
      return;
    }
    FlushLeftPositive(s);
    var t := Step(s, acts[0]);
    StepKeepsSound(s, acts[0]);
    match acts[0] {
      case ByProducer(call, ch) =>
        if s.p.PSched? && s.p.sched.SchedRemove? { SavingRemoves(s, call, ch, saved); }
        else if s.p.PSched? { SavingSchedules(s, call, ch, saved); }
        else if s.p.PFlush? || s.p.PClosing? { SavingSends(s, call, ch, saved); }
        else { SavingProducer(s, call, ch, saved); }
      case ByWorker(ch) => SavingWorker(s, ch, saved);
    }
    if Saved(t, saved) {
      n := 1;
      assert acts[..1] == [acts[0]] && Run(t, []) == t;
    } else {
      var m := FlushIsServed(t, acts[1..], saved);
      n := m + 1;
      assert acts[..n][1..] == acts[1..][..m] && acts[..n][0] == acts[0];
    }
  }

  lemma SettledOrSaved(s: State, saved: seq<Byte>)
    requires Saving(s, saved) && (Saved(s, saved) || Settled(s))
    ensures Saved(s, saved)
  {
    if !Saved(s, saved) { SettledIsSaved(s, saved); }
  }

  lemma FlushLeftPositive(s: State)
    requires Sound(s) && !Settled(s)
    ensures FlushLeft(s) > 0
  {
  }

  /**
   A flush call that has passed its check of mWorkerClosed puts FLUSH at the end of the queue, unless the
   looper is quitting; from then on FlushLeft worker steps save what the stream's buffer holds.
   */
  lemma FlushCall(cap: nat, chunk: nat, acts: seq<Action>, call: Call, ch: Chance, later: seq<Action>)
    returns (n: nat)
    requires 0 < cap && 0 < chunk
    requires var s := Run(Start(cap, chunk), acts);
      s.p == PFlush(true) && !s.quitting && WorkerSteps(later) >= FlushLeft(ProducerStep(s, call, ch))
    ensures var s := Run(Start(cap, chunk), acts);
      var t := ProducerStep(s, call, ch);
      && t.p.PIdle? && t.queue == s.queue + [MsgFlush]
      && n <= |later| && Saved(Run(t, later[..n]), s.file.disk + s.file.pending)
  {
    CloseAlwaysComes(Start(cap, chunk), acts);
    var s := Run(Start(cap, chunk), acts);
    var t := ProducerStep(s, call, ch);
    StepKeepsSound(s, ByProducer(call, ch));
    BarrierOfFlush(t.queue);
    assert MsgFlush in t.queue;
    n := FlushIsServed(t, later, s.file.disk + s.file.pending);
  }

  /** The check: a flush goes on to send exactly if mWorkerClosed is not set. */
  lemma FlushChecks(s: State, call: Call, ch: Chance)
    requires s.p == PFlush(false)
    ensures ProducerStep(s, call, ch) == s.(p := if s.workerClosed then PIdle else PFlush(true))
  {
  }
}
