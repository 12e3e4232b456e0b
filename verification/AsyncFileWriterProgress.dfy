/**
 Progress of AsyncFileWriter under any I/O failures: a writer that waits for room gets it or sees the
 ring released, CLOSE is always on its way once mWorkerClosed is set, and the looper ends.
 */
module AsyncFileWriterProgress {
  import opened FileWriters
  import opened AsyncFileWriterProtocol

  // ---------- CLOSE is on its way ----------

  /** Once mWorkerClosed is set, and until the ring is released, somebody will drain. */
  predicate CloseComes(s: State) {
    s.workerClosed && s.ringOpen ==>
      || MsgClose in s.queue
      || Draining(s.w)
      || (s.p.PClosing? && s.p.stage.SendClose?)
      || (s.w.WClosing? && s.w.stage.SendClose?)
  }

  predicate Sound(s: State) {
    Inv(s) && CloseComes(s)
  }

  lemma ProducerSchedKeepsClose(s: State, call: Call, ch: Chance)
    requires Sound(s) && s.p.PSched?
    ensures CloseComes(ProducerStep(s, call, ch))
  {
    WithoutFacts(s.queue);
  }

  lemma ProducerClosingKeepsClose(s: State, call: Call, ch: Chance)
    requires Sound(s) && s.p.PClosing?
    ensures CloseComes(ProducerStep(s, call, ch))
  {
  }

  lemma ProducerKeepsClose(s: State, call: Call, ch: Chance)
    requires Sound(s)
    ensures CloseComes(ProducerStep(s, call, ch))
  {
    match s.p
    case PSched(_, _) => ProducerSchedKeepsClose(s, call, ch);
    case PClosing(_, _, _) => ProducerClosingKeepsClose(s, call, ch);
    case _ =>
  }

  lemma SchedKeepsClose(s: State, ch: Chance)
    requires Sound(s) && s.w.WSched?
    ensures CloseComes(WorkerStep(s, ch))
  {
    WithoutFacts(s.queue);
  }

  lemma TakeKeepsClose(s: State, ch: Chance)
    requires Sound(s) && s.w.WIdle?
    ensures CloseComes(WorkerStep(s, ch))
  {
    if s.queue != [] { assert s.queue == [s.queue[0]] + s.queue[1..]; }
  }

  lemma RestKeepsClose(s: State, ch: Chance)
    requires Sound(s) && !s.w.WSched? && !s.w.WIdle?
    ensures CloseComes(WorkerStep(s, ch))
  {
    hide Bounds, FewWrites, NotStranded, CleanFlags, CleanBytes;
  }

  lemma WorkerKeepsSound(s: State, ch: Chance)
    requires Sound(s)
    ensures Sound(WorkerStep(s, ch))
  {
    WorkerStepKeeps(s, ch);
    match s.w
    case WSched(_, _) => SchedKeepsClose(s, ch);
    case WIdle => TakeKeepsClose(s, ch);
    case _ => RestKeepsClose(s, ch);
  }

  /** In every run, with any failures: after mWorkerClosed, CLOSE is sent, queued or being handled. */
  lemma {:induction false} CloseAlwaysComes(s: State, acts: seq<Action>)
    requires Sound(s)
    ensures Sound(Run(s, acts))
    decreases |acts|
  {
    if acts != [] {
      match acts[0] {
        case ByProducer(call, ch) => ProducerStepKeeps(s, call, ch); ProducerKeepsClose(s, call, ch);
        case ByWorker(ch) => WorkerKeepsSound(s, ch);
      }
      CloseAlwaysComes(Step(s, acts[0]), acts[1..]);
    }
  }

  // ---------- a writer that waits for room ----------

  function StagesLeft(stage: CloseStage): nat {
    match stage
    case CheckClosed => 4
    case SetClosed => 3
    case CheckWorker => 2
    case SetWorker => 1
    case SendClose => 0
  }

  /** Worker steps until it takes bytes out of the ring or releases it, whatever fails meanwhile. */
  function Patience(s: State): nat {
    3 * |s.queue| + (if s.file.hasError then 0 else 11) +
    match s.w
    case WRead(_, _) => 1
    case WAvail(_) => 2
    case WIdle => 3
    case WFlush => 4
    case WSched(stage, _) => (match stage case SchedSend => 7 case SchedRemove => 8 case SchedCheck => 9)
    case WRecheck(_) => 10
    case WFile(_, _) => 12
    case WRingClose => 1
    case WFinally => 2
    case WFinalFlush => 3
    case WDrain => 3
    case WClosing(stage, _) => 7 + StagesLeft(stage)
    case WQuit => 0
    case WDead => 0
  }

  /** A writer at the top of its loop, bytes in an open ring. */
  predicate Waiting(s: State) {
    Sound(s) && s.p.PLoop? && s.ring != [] && s.ringOpen
  }

  /** What one worker step does for a waiting writer. */
  predicate Nearer(s: State, t: State) {
    && t.p == s.p && t.cap == s.cap
    && (|t.ring| < |s.ring| || !t.ringOpen || (t.ring == s.ring && Patience(t) < Patience(s)))
  }

  lemma WaitingTakes(s: State, ch: Chance)
    requires Waiting(s) && s.w.WIdle?
    ensures Nearer(s, WorkerStep(s, ch))
  {
    assert s.queue != [];
  }

  lemma WaitingScheds(s: State, ch: Chance)
    requires Waiting(s) && s.w.WSched?
    ensures Nearer(s, WorkerStep(s, ch))
  {
    WithoutFacts(s.queue);
  }

  lemma WaitingCloses(s: State, ch: Chance)
    requires Waiting(s) && s.w.WClosing?
    ensures Nearer(s, WorkerStep(s, ch))
  {
  }

  lemma WaitingMoves(s: State, ch: Chance)
    requires Waiting(s) && !s.w.WIdle? && !s.w.WSched? && !s.w.WClosing?
    ensures Nearer(s, WorkerStep(s, ch))
  {
  }

  lemma WaitingStep(s: State, ch: Chance)
    requires Waiting(s)
    ensures Sound(WorkerStep(s, ch)) && Nearer(s, WorkerStep(s, ch))
  {
    WorkerKeepsSound(s, ch);
    match s.w
    case WIdle => WaitingTakes(s, ch);
    case WSched(_, _) => WaitingScheds(s, ch);
    case WClosing(_, _) => WaitingCloses(s, ch);
    case _ => WaitingMoves(s, ch);
  }

  /**
   Whatever the worker's I/O does, within Patience worker steps the ring gets shorter or is released;
   released only if some I/O call has failed.
   */
  lemma {:induction false} WaitingProducerIsServed(s: State, chs: seq<Chance>) returns (n: nat)
    requires Waiting(s) && |chs| >= Patience(s)
    ensures n <= Patience(s) && n <= |chs|
    ensures var t := WorkerRun(s, chs[..n]);
      && t.p == s.p && t.cap == s.cap
      && (|t.ring| < |s.ring| || !t.ringOpen)
      && (!t.ringOpen ==> t.file.hasError)
    decreases |chs|
  {
    var t := WorkerStep(s, chs[0]);
    WaitingStep(s, chs[0]);
    if |t.ring| < |s.ring| || !t.ringOpen {
      n := 1;
      assert chs[..1] == [chs[0]] && WorkerRun(t, []) == t;
    } else {
      var m := WaitingProducerIsServed(t, chs[1..]);
      n := m + 1;
      assert chs[..n][1..] == chs[1..][..m] && chs[..n][0] == chs[0];
    }
  }

  /** Actions of the worker among acts. */
  function WorkerSteps(acts: seq<Action>): nat {
    if acts == [] then 0 else (if acts[0].ByWorker? then 1 else 0) + WorkerSteps(acts[1..])
  }

  /** A writer before a full open ring. */
  predicate Blocked(s: State) {
    Sound(s) && s.p.PLoop? && s.p.rest != [] && s.ringOpen && |s.ring| == s.cap
  }

  lemma BlockedWaits(s: State, call: Call, ch: Chance)
    requires Blocked(s)
    ensures ProducerStep(s, call, ch) == s
  {
  }

  /** However the two threads take turns: Patience worker steps make room, or release the ring after a failure. */
  lemma {:induction false} BlockedIsServed(s: State, acts: seq<Action>) returns (n: nat)
    requires Blocked(s) && WorkerSteps(acts) >= Patience(s)
    ensures n <= |acts|
    ensures var t := Run(s, acts[..n]);
      t.p == s.p && t.cap == s.cap && (|t.ring| < t.cap || (!t.ringOpen && t.file.hasError))
    decreases |acts|
  {
    var t := Step(s, acts[0]);
    match acts[0] {
      case ByProducer(call, ch) => BlockedWaits(s, call, ch);
      case ByWorker(ch) => WaitingStep(s, ch);
    }
    if |t.ring| < |s.ring| || !t.ringOpen {
      n := 1;
      assert acts[..1] == [acts[0]] && Run(t, []) == t;
    } else {
      var m := BlockedIsServed(t, acts[1..]);
      n := m + 1;
      assert acts[..n][1..] == acts[1..][..m] && acts[..n][0] == acts[0];
    }
  }

  /** From any run, failures included, that leaves the writer before a full open ring. */
  lemma NoDeadlock(cap: nat, chunk: nat, acts: seq<Action>, later: seq<Action>) returns (n: nat)
    requires 0 < cap && 0 < chunk
    requires var s := Run(Start(cap, chunk), acts);
      s.p.PLoop? && s.p.rest != [] && s.ringOpen && |s.ring| == s.cap && WorkerSteps(later) >= Patience(s)
    ensures n <= |later|
    ensures var s := Run(Start(cap, chunk), acts);
      var t := Run(s, later[..n]);
      t.p == s.p && (|t.ring| < t.cap || (!t.ringOpen && t.file.hasError))
  {
    CloseAlwaysComes(Start(cap, chunk), acts);
    n := BlockedIsServed(Run(Start(cap, chunk), acts), later);
  }

  // ---------- a writer before a released ring ----------

  /** A write call is running on the released ring; no other can begin. */
  predicate Orphaned(s: State) {
    !s.ringOpen && s.closed && Writing(s.p) && (s.p.PCopy? ==> 0 < s.p.writable <= |s.p.rest|)
  }

  /** In any run, that is what a write call on the released ring is. */
  lemma ReleaseOrphans(cap: nat, chunk: nat, acts: seq<Action>)
    requires 0 < cap && 0 < chunk
    ensures var s := Run(Start(cap, chunk), acts); !s.ringOpen && Writing(s.p) ==> Orphaned(s)
  {
    AlwaysInv(Start(cap, chunk), acts);
  }

  /** No write call is running, and none can begin. */
  predicate Over(s: State) {
    !s.ringOpen && s.closed && !Writing(s.p)
  }

  lemma WorkerLeavesWriter(s: State, ch: Chance)
    requires !s.ringOpen && s.closed
    ensures var t := WorkerStep(s, ch); !t.ringOpen && t.closed && t.p == s.p
  {
    match s.w
    case WIdle =>
    case WSched(_, _) =>
    case WClosing(_, _) =>
    case WRead(_, _) =>
    case _ =>
  }

  /** At the top of its loop the writer moves on exactly if the released ring reports room. */
  lemma ReleasedStep(s: State, a: Action)
    requires Orphaned(s) && s.p.PLoop? && s.p.rest != []
    ensures Step(s, a).p == s.p <==> a.ByWorker? || a.ch.junkLen == 0
  {
    if a.ByWorker? { WorkerLeavesWriter(s, a.ch); }
  }

  /** One step of a write with bytes left: it keeps them all unless a copy takes some. */
  lemma OrphanStep(s: State, a: Action)
    requires Orphaned(s) && StillToCopy(s.p) != []
    ensures var t := Step(s, a);
      && Orphaned(t) && |StillToCopy(t.p)| <= |StillToCopy(s.p)|
      && (StillToCopy(t.p) == StillToCopy(s.p) <==> !(a.ByProducer? && s.p.PCopy? && a.ch.junkLen > 0))
  {
    if a.ByWorker? { WorkerLeavesWriter(s, a.ch); }
  }

  lemma ClosedStays(s: State, a: Action)
    requires !s.ringOpen && s.closed && (Orphaned(s) || Over(s))
    ensures var t := Step(s, a); (Orphaned(t) || Over(t)) && |StillToCopy(t.p)| <= |StillToCopy(s.p)|
    ensures Over(s) ==> Over(Step(s, a))
  {
    if a.ByWorker? { WorkerLeavesWriter(s, a.ch); }
  }

  lemma {:induction false} BytesLeftShrink(s: State, acts: seq<Action>)
    requires Orphaned(s) || Over(s)
    ensures |StillToCopy(Run(s, acts).p)| <= |StillToCopy(s.p)|
    ensures Over(s) ==> Over(Run(s, acts))
    decreases |acts|
  {
    if acts != [] {
      ClosedStays(s, acts[0]);
      BytesLeftShrink(Step(s, acts[0]), acts[1..]);
    }
  }

  /** Every copy into the released ring takes nothing. */
  predicate TakesNothing(s: State, acts: seq<Action>)
    decreases |acts|
  {
    acts == []
    || ((acts[0].ByProducer? && s.p.PCopy? ==> acts[0].ch.junkLen == 0) && TakesNothing(Step(s, acts[0]), acts[1..]))
  }

  /**
   The write loop never looks at mClosed again: after the release, and through any actions of both
   threads, a write is still running with the same bytes left exactly if no copy has taken any.
   */
  lemma {:induction false} StuckExactly(s: State, acts: seq<Action>)
    requires Orphaned(s) && StillToCopy(s.p) != []
    ensures var t := Run(s, acts);
      Writing(t.p) && StillToCopy(t.p) == StillToCopy(s.p) <==> TakesNothing(s, acts)
    decreases |acts|
  {
    if acts != [] {
      var t := Step(s, acts[0]);
      OrphanStep(s, acts[0]);
      if StillToCopy(t.p) == StillToCopy(s.p) {
        StuckExactly(t, acts[1..]);
      } else {
        ShorterMeansFewer(s, t, acts[0]);
        BytesLeftShrink(t, acts[1..]);
      }
    }
  }

  /** A copy that takes bytes leaves fewer. */
  lemma ShorterMeansFewer(s: State, t: State, a: Action)
    requires Orphaned(s) && t == Step(s, a) && StillToCopy(t.p) != StillToCopy(s.p)
    requires a.ByProducer? && s.p.PCopy? && a.ch.junkLen > 0
    ensures |StillToCopy(t.p)| < |StillToCopy(s.p)|
  {
  }

  // ---------- a write that does get rid of its bytes ends ----------

  function ProducerSteps(acts: seq<Action>): nat {
    if acts == [] then 0 else (if acts[0].ByProducer? then 1 else 0) + ProducerSteps(acts[1..])
  }

  /** The released ring reports room at every look and takes at least a byte at every copy. */
  predicate AlwaysRoom(acts: seq<Action>) {
    forall i :: 0 <= i < |acts| && acts[i].ByProducer? ==> acts[i].ch.junkLen > 0
  }

  /** A bound on the producer's steps until its write call returns. */
  function WriteLeft(p: ProducerPc): nat {
    10 * |StillToCopy(p)| +
    match p
    case PIdle => 0
    case PCopy(_, _) => 0
    case PLoop(_) => 1
    case PSched(stage, _) => (match stage case SchedSend => 2 case SchedRemove => 3 case SchedCheck => 4)
    case PClosing(stage, _, _) => 5 + StagesLeft(stage)
    case PFlush(_) => 0
  }

  lemma WriteGoesOn(s: State, a: Action)
    requires Orphaned(s) && (a.ByProducer? ==> a.ch.junkLen > 0)
    ensures var t := Step(s, a);
      Orphaned(t) ==> if a.ByProducer? then WriteLeft(t.p) < WriteLeft(s.p) else t.p == s.p
  {
    if a.ByWorker? { WorkerLeavesWriter(s, a.ch); }
  }

  /** However the threads take turns: with room at every look and copy, WriteLeft producer steps end the write. */
  lemma {:induction false} WriteEnds(s: State, acts: seq<Action>)
    requires Orphaned(s) && AlwaysRoom(acts) && ProducerSteps(acts) >= WriteLeft(s.p)
    ensures Over(Run(s, acts))
    decreases |acts|
  {
    var t := Step(s, acts[0]);
    ClosedStays(s, acts[0]);
    WriteGoesOn(s, acts[0]);
    if Over(t) {
      BytesLeftShrink(t, acts[1..]);
    } else {
      assert AlwaysRoom(acts[1..]) by { assert forall i :: 0 <= i < |acts[1..]| ==> acts[1..][i] == acts[i + 1]; }
      WriteEnds(t, acts[1..]);
    }
  }

  // ---------- a write that is stuck ----------

  function Repeat(a: Action, n: nat): seq<Action> {
    if n == 0 then [] else [a] + Repeat(a, n - 1)
  }

  lemma {:induction false} RunAppend(s: State, first: seq<Action>, second: seq<Action>)
    ensures Run(s, first + second) == Run(Run(s, first), second)
    decreases |first|
  {
    if first == [] {
      assert first + second == second;
    } else {
      assert (first + second)[1..] == first[1..] + second;
      RunAppend(Step(s, first[0]), first[1..], second);
    }
  }

  function Iterate(s: State, a: Action, n: nat): State
    decreases n
  {
    if n == 0 then s else Iterate(Step(s, a), a, n - 1)
  }

  lemma {:induction false} RunRepeat(s: State, a: Action, n: nat)
    ensures Run(s, Repeat(a, n)) == Iterate(s, a, n)
    decreases n
  {
    if n > 0 {
      assert Repeat(a, n)[1..] == Repeat(a, n - 1);
      RunRepeat(Step(s, a), a, n - 1);
    }
  }

  /** A run from a fresh writer, continued by n times the same action. */
  lemma Continued(acts: seq<Action>, a: Action, n: nat) returns (longer: seq<Action>)
    ensures Run(Start(1, 1), longer) == Iterate(Run(Start(1, 1), acts), a, n)
  {
    longer := acts + Repeat(a, n);
    RunAppend(Start(1, 1), acts, Repeat(a, n));
    RunRepeat(Run(Start(1, 1), acts), a, n);
  }

  const ALL_FAILS := Chance(Bad([]), 0, [], false)
  const BROKEN := FileState([], [], false, true, false)

  const LOOPING := Start(1, 1).(ring := [1], queue := [MsgWrite], p := PLoop([2]), requested := [1, 2], accepted := [1])
  const FAILING := LOOPING.(ring := [], queue := [], w := WClosing(CheckClosed, false), file := BROKEN)
  const CLOSING := FAILING.(queue := [MsgClose], closed := true, workerClosed := true, w := WIdle)
  const RELEASED := CLOSING.(queue := [], file := BROKEN.(closed := true), ringOpen := false, w := WQuit)

  lemma WriterFillsRing()
    ensures Iterate(Start(1, 1), ByProducer(CallWrite([1, 2]), ALL_FAILS), 6) == LOOPING
  {
  }

  lemma FileFails()
    ensures Iterate(LOOPING, ByWorker(ALL_FAILS), 4) == FAILING
  {
  }

  lemma WorkerSendsClose()
    ensures Iterate(FAILING, ByWorker(ALL_FAILS), 5) == CLOSING
  {
  }

  lemma WorkerReleases()
    ensures Iterate(CLOSING, ByWorker(ALL_FAILS), 5) == RELEASED
  {
  }

  /** The released ring never reports room and takes nothing. */
  predicate NoRoom(acts: seq<Action>) {
    forall i :: 0 <= i < |acts| && acts[i].ByProducer? ==> acts[i].ch.junkLen == 0
  }

  lemma {:induction false} NoRoomTakesNothing(s: State, acts: seq<Action>)
    requires NoRoom(acts)
    ensures TakesNothing(s, acts)
    decreases |acts|
  {
    if acts != [] {
      assert forall i :: 0 <= i < |acts[1..]| ==> acts[1..][i] == acts[i + 1];
      NoRoomTakesNothing(Step(s, acts[0]), acts[1..]);
    }
  }

  /**
   A reachable one: the worker's first file write fails while a write still has a byte to copy.  With a
   ring that has no room, that byte is never copied and the write never returns.
   */
  lemma StuckWriter() returns (acts: seq<Action>)
    ensures var s := Run(Start(1, 1), acts);
      && s.p == PLoop([2]) && !s.ringOpen
      && forall more :: NoRoom(more) ==> Writing(Run(s, more).p) && StillToCopy(Run(s, more).p) == [2]
  {
    var write, work := ByProducer(CallWrite([1, 2]), ALL_FAILS), ByWorker(ALL_FAILS);
    WriterFillsRing();
    FileFails();
    WorkerSendsClose();
    WorkerReleases();
    RunRepeat(Start(1, 1), write, 6);
    acts := Repeat(write, 6);
    acts := Continued(acts, work, 4);
    acts := Continued(acts, work, 5);
    acts := Continued(acts, work, 5);
    forall more | NoRoom(more)
      ensures Writing(Run(RELEASED, more).p) && StillToCopy(Run(RELEASED, more).p) == [2]
    {
      NoRoomTakesNothing(RELEASED, more);
      StuckExactly(RELEASED, more);
    }
  }

  /** Room reported once is not enough: the copy takes nothing, and everything is as it was. */
  lemma RoomWithoutCopy()
    ensures var look := ByProducer(CallNothing, Chance(Good(0), 1, [], false));
      var copy := ByProducer(CallNothing, ALL_FAILS);
      Step(RELEASED, look).p == PCopy([2], 1) && Iterate(Step(RELEASED, look), copy, 3) == RELEASED
  {
  }

  // ---------- two CLOSE messages ----------

  const COPIED := Start(1, 1).(ring := [1], p := PSched(SchedCheck, []), requested := [1], accepted := [1])
  const WRITTEN := COPIED.(queue := [MsgWrite], p := PIdle)
  const FIRST_CLOSES := WRITTEN.(p := PClosing(SetClosed, [], false))
  const BOTH_CLOSE := FIRST_CLOSES.(ring := [], queue := [], w := WClosing(SetClosed, false), file := BROKEN)
  const BOTH_SEND := BOTH_CLOSE.(closed := true, workerClosed := true,
                                 p := PClosing(SendClose, [], false), w := WClosing(SendClose, false))

  lemma ByteIsCopied()
    ensures Iterate(Start(1, 1), ByProducer(CallWrite([1]), ALL_FAILS), 3) == COPIED
  {
    var a := ByProducer(CallWrite([1]), ALL_FAILS);
    var looped := Start(1, 1).(p := PLoop([1]), requested := [1]);
    var looked := looped.(p := PCopy([1], 1));
    assert Step(Start(1, 1), a) == looped;
    assert Step(looped, a) == looked;
    var copied := Step(looked, a);
    assert copied.ring == [1] && copied.accepted == [1] && copied.p == PSched(SchedCheck, []);
    assert copied == COPIED;
    assert Iterate(looked, a, 1) == copied;
  }

  lemma ByteIsAnnounced()
    ensures Iterate(COPIED, ByProducer(CallWrite([1]), ALL_FAILS), 4) == WRITTEN
  {
  }

  lemma CloseStarts()
    ensures Iterate(WRITTEN, ByProducer(CallClose, ALL_FAILS), 2) == FIRST_CLOSES
  {
  }

  lemma FailureCloses()
    ensures Iterate(FIRST_CLOSES, ByWorker(ALL_FAILS), 5) == BOTH_CLOSE
  {
  }

  /** Both threads have read mWorkerClosed as false. */
  lemma BothPass()
    ensures var close, work := ByProducer(CallClose, ALL_FAILS), ByWorker(ALL_FAILS);
      Iterate(Iterate(Iterate(Iterate(BOTH_CLOSE, close, 2), work, 2), close, 1), work, 1) == BOTH_SEND
  {
  }

  lemma BothSend()
    ensures var close, work := ByProducer(CallClose, ALL_FAILS), ByWorker(ALL_FAILS);
      Iterate(Iterate(BOTH_SEND, close, 1), work, 1).queue == [MsgClose, MsgClose]
  {
  }

  /** The user's close and a failing worker pass each other's checks: a run in which CLOSE is queued twice. */
  lemma TwoCloses() returns (acts: seq<Action>)
    ensures Run(Start(1, 1), acts).queue == [MsgClose, MsgClose]
  {
    var close, work := ByProducer(CallClose, ALL_FAILS), ByWorker(ALL_FAILS);
    ByteIsCopied();
    ByteIsAnnounced();
    CloseStarts();
    FailureCloses();
    BothPass();
    BothSend();
    acts := Continued([], ByProducer(CallWrite([1]), ALL_FAILS), 3);
    acts := Continued(acts, ByProducer(CallWrite([1]), ALL_FAILS), 4);
    acts := Continued(acts, close, 2);
    acts := Continued(acts, work, 5);
    acts := Continued(acts, close, 2);
    acts := Continued(acts, work, 2);
    acts := Continued(acts, close, 1);
    acts := Continued(acts, work, 1);
    acts := Continued(acts, close, 1);
    acts := Continued(acts, work, 1);
  }

  // ---------- close ends the worker ----------

  /** A bound on the worker steps left once the writer is closed. */
  function WorkLeft(s: State): nat {
    if s.w.WDead? then 0
    else 16 * |s.ring| + 20 * |s.queue| + if s.ringOpen then OpenStage(s.w) else ReleasedStage(s.w)
  }

  function OpenStage(w: WorkerPc): nat {
    match w
    case WDead => 0
    case WIdle => 1
    case WQuit => 2
    case WRingClose => 3
    case WFinally => 4
    case WFinalFlush => 6
    case WDrain => 9
    case WFlush => 18
    case WAvail(d) => if d then 8 else 16
    case WRead(d, _) => if d then 7 else 15
    case WFile(d, _) => if d then 12 else 14
    case WRecheck(d) => if d then 11 else 12
    case WSched(stage, d) =>
      if stage.SchedCheck? then (if d then 10 else 11) else if stage.SchedRemove? then 36 else 35
    case WClosing(stage, _) =>
      if stage.CheckClosed? then 5 else 25 + StagesLeft(stage)
  }

  function ReleasedStage(w: WorkerPc): nat {
    match w
    case WDead => 0
    case WIdle => 1
    case WQuit => 2
    case WFlush => 2
    case WRingClose => 3
    case WFinally => 4
    case WFinalFlush => 5
    case WClosing(stage, _) => 5 + StagesLeft(stage)
    case WFile(_, _) => 10
    case WDrain => 13
    case WSched(stage, _) => (match stage case SchedSend => 14 case SchedRemove => 15 case SchedCheck => 16)
    case WRecheck(_) => 17
    case WRead(_, _) => 18
    case WAvail(_) => 19
  }

  /** The user's call of close has returned. */
  predicate Closed(s: State) {
    Sound(s) && s.p.PIdle? && s.closed
  }

  /** What one worker step does after close. */
  predicate Ends(s: State, t: State) {
    t.p == s.p && t.closed && t.requested == s.requested && (s.w.WDead? || WorkLeft(t) < WorkLeft(s))
  }

  lemma EndsTakes(s: State, ch: Chance)
    requires Closed(s) && s.w.WIdle?
    ensures Ends(s, WorkerStep(s, ch))
  {
  }

  lemma EndsChecks(s: State, ch: Chance)
    requires Closed(s) && s.w.WSched? && s.w.sched.SchedCheck?
    ensures Ends(s, WorkerStep(s, ch))
  {
  }

  lemma EndsScheds(s: State, ch: Chance)
    requires Closed(s) && s.w.WSched? && !s.w.sched.SchedCheck?
    ensures Ends(s, WorkerStep(s, ch))
  {
    hide Bounds, FewWrites, NotStranded, CleanFlags, CleanBytes, CloseComes, Without;
    WithoutFacts(s.queue);
  }

  lemma EndsReads(s: State, ch: Chance)
    requires Closed(s) && (s.w.WAvail? || s.w.WRead? || s.w.WRecheck?)
    ensures Ends(s, WorkerStep(s, ch))
  {
  }

  lemma EndsCloses(s: State, ch: Chance)
    requires Closed(s) && s.w.WClosing?
    ensures Ends(s, WorkerStep(s, ch))
  {
  }

  lemma EndsMoves(s: State, ch: Chance)
    requires Closed(s) && !s.w.WIdle? && !s.w.WSched? && !s.w.WAvail? && !s.w.WRead? && !s.w.WRecheck? && !s.w.WClosing?
    requires s.w.WDrain? && !s.ringOpen ==> ch.junkLen == 0
    ensures Ends(s, WorkerStep(s, ch))
  {
  }

  lemma ClosedStep(s: State, ch: Chance)
    requires Closed(s)
    requires s.w.WDrain? && !s.ringOpen ==> ch.junkLen == 0
    ensures Closed(WorkerStep(s, ch)) && Ends(s, WorkerStep(s, ch))
  {
    WorkerKeepsSound(s, ch);
    match s.w
    case WIdle => EndsTakes(s, ch);
    case WSched(stage, _) => if stage.SchedCheck? { EndsChecks(s, ch); } else { EndsScheds(s, ch); }
    case WAvail(_) => EndsReads(s, ch);
    case WRead(_, _) => EndsReads(s, ch);
    case WRecheck(_) => EndsReads(s, ch);
    case WClosing(_, _) => EndsCloses(s, ch);
    case _ => EndsMoves(s, ch);
  }

  /**
   Once the user's close has returned, whatever fails: within WorkLeft worker steps the ring is released,
   and then the file is complete unless an I/O call has failed.
   */
  lemma {:induction false} CloseReleases(s: State, chs: seq<Chance>) returns (n: nat)
    requires Closed(s) && s.ringOpen && |chs| >= WorkLeft(s)
    ensures n <= WorkLeft(s) && n <= |chs|
    ensures var t := WorkerRun(s, chs[..n]);
      !t.ringOpen && t.file.closed && (NoFailure(t) ==> t.file.disk == s.requested)
    decreases |chs|
  {
    var t := WorkerStep(s, chs[0]);
    ClosedStep(s, chs[0]);
    if !t.ringOpen {
      n := 1;
      assert chs[..1] == [chs[0]] && WorkerRun(t, []) == t;
    } else {
      var m := CloseReleases(t, chs[1..]);
      n := m + 1;
      assert chs[..n][1..] == chs[1..][..m] && chs[..n][0] == chs[0];
    }
  }

  // ---------- a second CLOSE, handled on the released ring ----------

  /** A round of the drain loop: the look at its top, the look inside handleWrite, the read. */
  predicate RoundEnds(top: Chance, inner: Chance, read: Chance) {
    top.junkLen == 0 || (inner.junkLen > 0 && read.junk != [])
  }

  /**
   On the released ring a round of the drain loop leaves the loop for good, on the way to quitting,
   exactly if the first look reports nothing, or both report something and the read delivers a byte;
   otherwise the worker is back where it was, and nothing at all has changed.
   */
  lemma DrainRound(s: State, chs: seq<Chance>) returns (n: nat)
    requires Sound(s) && !s.ringOpen && s.w.WDrain? && |chs| == 5
    ensures 0 < n <= 5
    ensures var t := WorkerRun(s, chs[..n]);
      if RoundEnds(chs[0], chs[1], chs[2])
      then t.w.WFinalFlush? || t.w == WClosing(CheckClosed, true)
      else t == s
  {
    var s1 := WorkerStep(s, chs[0]);
    RunOne(s, chs, 0);
    if chs[0].junkLen == 0 { return 1; }
    var s2 := WorkerStep(s1, chs[1]);
    RunOne(s, chs, 1);
    if chs[1].junkLen == 0 { return 2; }
    var s3 := WorkerStep(s2, chs[2]);
    RunOne(s, chs, 2);
    var s4 := WorkerStep(s3, chs[3]);
    RunOne(s, chs, 3);
    if chs[2].junk != [] || chs[3].junkLen == 0 { return 4; }
    RunOne(s, chs, 4);
    return 5;
  }

  lemma {:induction false} RunOne(s: State, chs: seq<Chance>, n: nat)
    requires n < |chs|
    ensures WorkerRun(s, chs[..n + 1]) == WorkerStep(WorkerRun(s, chs[..n]), chs[n])
    decreases n
  {
    if n > 0 {
      RunOne(WorkerStep(s, chs[0]), chs[1..], n - 1);
      assert chs[..n + 1][1..] == chs[1..][..n] && chs[..n][1..] == chs[1..][..n - 1];
    } else {
      assert chs[..1][1..] == [];
    }
  }

  /** Wherever a round of the drain loop may start, it ends. */
  predicate RoundsEnd(chs: seq<Chance>) {
    forall i :: 0 <= i < |chs| - 2 ==> RoundEnds(chs[i], chs[i + 1], chs[i + 2])
  }

  lemma ErrorStays(s: State, ch: Chance)
    requires s.file.hasError
    ensures WorkerStep(s, ch).file.hasError
  {
    match s.w
    case WSched(_, _) =>
    case WClosing(_, _) =>
    case WIdle =>
    case _ =>
  }

  lemma {:induction false} ErrorStaysInRun(s: State, chs: seq<Chance>)
    requires s.file.hasError
    ensures WorkerRun(s, chs).file.hasError
    decreases |chs|
  {
    if chs != [] {
      ErrorStays(s, chs[0]);
      ErrorStaysInRun(WorkerStep(s, chs[0]), chs[1..]);
    }
  }

  /** The three steps of a round that reads a byte from the released ring. */
  lemma JunkRound(s: State, chs: seq<Chance>) returns (t: State)
    requires Closed(s) && !s.ringOpen && s.w.WDrain? && 3 <= |chs|
    requires chs[0].junkLen > 0 && RoundsEnd(chs)
    ensures RoundsEnd(chs[3..])
    ensures t == WorkerStep(WorkerStep(WorkerStep(s, chs[0]), chs[1]), chs[2])
    ensures Closed(t) && t.requested == s.requested && WorkLeft(t) + 3 <= WorkLeft(s)
    ensures WorkerRun(s, chs) == WorkerRun(t, chs[3..])
  {
    assert RoundEnds(chs[0], chs[1], chs[2]);
    var s1 := WorkerStep(s, chs[0]);
    var s2 := WorkerStep(s1, chs[1]);
    t := WorkerStep(s2, chs[2]);
    WorkerKeepsSound(s, chs[0]);
    WorkerKeepsSound(s1, chs[1]);
    WorkerKeepsSound(s2, chs[2]);
    assert chs[1..][1..] == chs[2..] && chs[2..][1..] == chs[3..];
    assert WorkerRun(s, chs) == WorkerRun(s1, chs[1..]);
    assert WorkerRun(s1, chs[1..]) == WorkerRun(s2, chs[2..]);
  }

  /**
   The looper ends within WorkLeft worker steps after close, with any I/O failures, if no drain round on
   the released ring can turn for ever; without a failure there is no such round.
   */
  lemma {:induction false} LooperEnds(s: State, chs: seq<Chance>)
    requires Closed(s) && |chs| >= WorkLeft(s)
    requires RoundsEnd(chs) || NoFailure(WorkerRun(s, chs))
    ensures var t := WorkerRun(s, chs);
      t.w.WDead? && !t.ringOpen && t.file.closed && (NoFailure(t) ==> t.file.disk == s.requested)
    decreases |chs|
  {
    if chs == [] {
      assert s.w.WDead?;
    } else if s.w.WDrain? && !s.ringOpen && chs[0].junkLen > 0 {
      if NoFailure(s) {
        assert false;
      } else {
        ErrorStaysInRun(s, chs);
        var t := JunkRound(s, chs);
        LooperEnds(t, chs[3..]);
      }
    } else {
      ClosedStep(s, chs[0]);
      assert RoundsEnd(chs) ==> RoundsEnd(chs[1..]);
      LooperEnds(WorkerStep(s, chs[0]), chs[1..]);
    }
  }

  /** From any run in which the user's close has returned. */
  lemma RunsEndComplete(cap: nat, chunk: nat, acts: seq<Action>, chs: seq<Chance>)
    requires 0 < cap && 0 < chunk
    requires var s := Run(Start(cap, chunk), acts);
      s.p.PIdle? && s.closed && |chs| >= WorkLeft(s) && (RoundsEnd(chs) || NoFailure(WorkerRun(s, chs)))
    ensures var s := Run(Start(cap, chunk), acts);
      var t := WorkerRun(s, chs);
      t.w.WDead? && t.file.closed && (NoFailure(t) ==> t.file.disk == s.requested)
  {
    CloseAlwaysComes(Start(cap, chunk), acts);
    LooperEnds(Run(Start(cap, chunk), acts), chs);
  }
}
