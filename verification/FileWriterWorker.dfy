/**
 The worker object of AsyncFileWriter, run without interference: handleWrite moves one chunk from
 the ring to the file, handleClose drains the ring, then closes file and ring and ends the looper.
 Every I/O call may fail.
 */
module FileWriterWorkers {
  import opened FileWriters
  import P = AsyncFileWriterProtocol

  lemma {:induction false} WithoutTwice(q: seq<P.Msg>, m: P.Msg)
    ensures P.Without(P.Without(q, m), m) == P.Without(q, m)
  {
    if q != [] { WithoutTwice(q[1..], m); }
  }

  lemma {:induction false} WithoutLast(q: seq<P.Msg>, m: P.Msg)
    ensures P.Without(q + [m], m) == P.Without(q, m)
  {
    if q == [] {
      assert q + [m] == [m];
    } else {
      assert (q + [m])[1..] == q[1..] + [m];
      WithoutLast(q[1..], m);
    }
  }

  class FileWriterWorker {
    var ring: seq<Byte>
    var ringOpen: bool
    var queue: seq<P.Msg>
    var mClosed: bool
    var mWorkerClosed: bool
    var quitting: bool
    const chunk: nat
    const mFileWriter: FileWriter

    ghost predicate Valid()
      reads this, mFileWriter
    {
      0 < chunk && mFileWriter.Valid() && (!quitting <==> ringOpen)
    }

    /** CLOSE messages queued, and the one that a first close may still add. */
    ghost function Closes(): nat
      reads this
    {
      multiset(queue)[P.MsgClose] + if mClosed then 0 else 1
    }

    /** File, stream buffer and ring, in this order. */
    ghost function Bytes(): seq<Byte>
      reads this, mFileWriter
    {
      mFileWriter.disk + mFileWriter.pending + ring
    }

    constructor (chunkSize: nat)
      requires 0 < chunkSize
      ensures Valid() && ringOpen && Bytes() == [] && mFileWriter.State() == FRESH_FILE
      ensures fresh(mFileWriter) && chunk == chunkSize && queue == [] && !mClosed && !mWorkerClosed
    {
      ring, ringOpen, queue := [], true, [];
      mClosed, mWorkerClosed, quitting := false, false, false;
      chunk := chunkSize;
      mFileWriter := new FileWriter();
    }

    /**
     Afterwards exactly one WRITE is pending, behind everything else, and no other message is lost,
     added or moved; after close nothing is sent.
     */
    method ScheduleWrite()
      requires Valid()
      modifies `queue
      ensures Valid()
      ensures P.Without(queue, P.MsgWrite) == P.Without(old(queue), P.MsgWrite)
      ensures !mWorkerClosed && !quitting ==>
        multiset(queue)[P.MsgWrite] == 1 && queue != [] && queue[|queue| - 1] == P.MsgWrite
      ensures !mWorkerClosed && quitting ==> P.MsgWrite !in queue
      ensures mWorkerClosed ==> queue == old(queue)
    {
      if mWorkerClosed { return; }
      P.WithoutFacts(queue);
      WithoutTwice(queue, P.MsgWrite);
      queue := P.Without(queue, P.MsgWrite);
      if !quitting {
        WithoutLast(queue, P.MsgWrite);
        queue := queue + [P.MsgWrite];
      }
    }

    /**
     close, as called by handleWorkerError.  Without interference only the first close sends CLOSE:
     Closes() never grows, over any number of errors.
     */
    method CloseOnError()
      requires Valid()
      modifies `mClosed, `mWorkerClosed, `queue
      ensures Valid() && mClosed && Closes() <= old(Closes())
      ensures old(queue) <= queue && P.Without(queue, P.MsgClose) == P.Without(old(queue), P.MsgClose)
      ensures old(mClosed) ==> queue == old(queue) && mWorkerClosed == old(mWorkerClosed)
      ensures !old(mClosed) ==> mWorkerClosed
      ensures !old(mClosed) && !old(mWorkerClosed) && !quitting ==> P.MsgClose in queue
      ensures old(mWorkerClosed) || quitting ==> queue == old(queue)
    {
      if mClosed { return; }
      mClosed := true;
      if mWorkerClosed { return; }
      mWorkerClosed := true;
      if !quitting {
        WithoutLast(queue, P.MsgClose);
        queue := queue + [P.MsgClose];
      }
    }

    /** The ring always gives up one chunk; the bytes reach the file unless the call throws. */
    method HandleWrite() returns (threw: bool)
      requires Valid() && ringOpen
      modifies `ring, `queue, mFileWriter
      ensures Valid()
      ensures ring == old(ring)[P.Min(old(|ring|), chunk)..]
      ensures mFileWriter.mClosed == old(mFileWriter.mClosed)
      ensures old(ring) != [] ==> (threw <==> mFileWriter.mHasError || mFileWriter.mClosed)
      ensures old(ring) == [] ==> !threw && mFileWriter.State() == old(mFileWriter.State())
      ensures !threw ==> Bytes() == old(Bytes())
      ensures old(mFileWriter.mHasError) ==> mFileWriter.mHasError
      ensures threw || mWorkerClosed ==> queue == old(queue)
      ensures !threw && !mWorkerClosed && ring != [] ==> P.MsgWrite in queue
      ensures !threw && ring == [] ==> queue == old(queue)
    {
      var available := |ring|;
      if available == 0 { return false; }
      var toRead := P.Min(available, chunk);
      var data := ring[..toRead];
      assert data + ring[toRead..] == ring;
      ring := ring[toRead..];
      var io: Io := *;
      WriteKeepsBytes(mFileWriter.State(), data, io);
      threw := mFileWriter.Write(data, io);
      if threw { return; }
      assert Bytes() == old(mFileWriter.disk + mFileWriter.pending) + (data + ring);
      if |ring| > 0 {
        ScheduleWrite();
      }
    }

    /**
     The drain loop ends: each round shortens the ring, or throws out of it.  Afterwards ring, file
     and looper are closed, and if no call failed the file holds everything, in order.
     */
    method HandleClose()
      requires Valid() && ringOpen && !mFileWriter.mClosed
      modifies this, mFileWriter
      ensures Valid() && !ringOpen && quitting && mFileWriter.mClosed
      ensures !mFileWriter.mHasError ==> ring == [] && mFileWriter.disk == old(Bytes())
      ensures old(mFileWriter.mHasError) ==> mFileWriter.mHasError
      ensures mFileWriter.mHasError && (old(ring) != [] || !old(mFileWriter.mHasError)) ==> mClosed
    {
      var threw := false;
      while |ring| > 0 && !threw
        invariant Valid() && ringOpen && !mFileWriter.mClosed
        invariant threw ==> mFileWriter.mHasError
        invariant !threw ==> Bytes() == old(Bytes()) && (mFileWriter.mHasError <==> old(mFileWriter.mHasError))
        invariant old(mFileWriter.mHasError) ==> mFileWriter.mHasError
        invariant !threw && mFileWriter.mHasError ==> ring == old(ring)
        decreases |ring|
      {
        threw := HandleWrite();
      }
      if !threw {
        var io: Io := *;
        FlushKeepsBytes(mFileWriter.State(), io);
        threw := mFileWriter.Flush(io);
      }
      if threw {
        CloseOnError();
      }
      var io: Io := *;
      mFileWriter.Close(io);
      ringOpen := false;
      quitting := true;
      var legacy: bool := *;
      if legacy { queue := []; }
    }
  }
}
