/**
 FileWriter: a buffered file stream that shuts itself after the first I/O failure.
 The operating system decides how each I/O call goes; that decision is an argument.
 */
module FileWriters {

  type Byte = bv8

  /**
   Good(spill): the call works, and the stream buffer passes up to spill bytes on to the file.
   Bad(left): the call fails and leaves the file with some content.
   */
  datatype Io = Good(spill: nat) | Bad(left: seq<Byte>)

  /** disk: what the file holds; pending: bytes still in the stream's buffer; open: mOutputStream != null. */
  datatype FileState = FileState(disk: seq<Byte>, pending: seq<Byte>, open: bool, hasError: bool, closed: bool) {

    predicate Usable() {
      open && !hasError && !closed
    }

    predicate Consistent() {
      open <==> !hasError && !closed
    }

    /** safeClose: closing the stream flushes what is pending; an empty buffer needs no write. */
    function SafeClose(io: Io): FileState {
      if !open then this
      else if pending == [] then this.(open := false)
      else if io.Good? then this.(disk := disk + pending, pending := [], open := false)
      else this.(disk := io.left, pending := [], open := false)
    }

    /** The state and whether the call threw. */
    function Write(data: seq<Byte>, io: Io): (FileState, bool) {
      if closed || hasError || !open then (this, true)
      else
        var all := pending + data;
        match io
        case Good(spill) =>
          var n := if spill < |all| then spill else |all|;
          (this.(disk := disk + all[..n], pending := all[n..]), false)
        case Bad(left) =>
          (this.(disk := left, pending := [], hasError := true, open := false), true)
    }

    function Flush(io: Io): (FileState, bool) {
      if closed || hasError || !open then (this, false)
      else match io
        case Good(_) => (this.(disk := disk + pending, pending := []), false)
        case Bad(left) => (this.(disk := left, pending := [], hasError := true, open := false), true)
    }

    /** close marks the writer closed before it calls flush, so that flush does nothing. */
    function Close(io: Io): FileState {
      if closed then this else this.(closed := true).SafeClose(io)
    }
  }

  const FRESH_FILE := FileState([], [], true, false, false)

  /** Everything handed over is in the file or in the buffer, in order, unless the call threw. */
  lemma WriteKeepsBytes(f: FileState, data: seq<Byte>, io: Io)
    requires f.Consistent()
    ensures var (g, threw) := f.Write(data, io);
      g.Consistent() && g.closed == f.closed && (threw <==> g.hasError || g.closed)
      && (threw <==> !f.Usable() || io.Bad?)
      && (!threw ==> g.disk + g.pending == f.disk + f.pending + data)
      && (f.hasError || f.closed ==> g == f)
  {
    if f.Usable() && io.Good? {
      var all := f.pending + data;
      var n := if io.spill < |all| then io.spill else |all|;
      assert f.disk + all[..n] + all[n..] == f.disk + (all[..n] + all[n..]);
      assert all[..n] + all[n..] == all;
      assert f.disk + (f.pending + data) == f.disk + f.pending + data;
    }
  }

  lemma FlushKeepsBytes(f: FileState, io: Io)
    requires f.Consistent()
    ensures var (g, threw) := f.Flush(io);
      g.Consistent() && g.closed == f.closed && (threw <==> g.hasError && !f.hasError)
      && (threw <==> f.Usable() && io.Bad?)
      && (!threw ==> g.disk + g.pending == f.disk + f.pending && (f.Usable() ==> g.pending == []))
      && (f.hasError || f.closed ==> g == f)
  {
    if f.Usable() && io.Good? { assert f.disk + f.pending + [] == f.disk + f.pending; }
  }

  /** Closing for the first time: the buffer is saved if the stream still works, and the stream is gone. */
  lemma CloseSavesBytes(f: FileState, io: Io)
    requires f.Consistent()
    ensures var g := f.Close(io);
      g.Consistent() && g.closed && !g.open && g.hasError == f.hasError
      && (f.Usable() && (io.Good? || f.pending == []) ==> g.disk == f.disk + f.pending && g.pending == [])
      && (f.closed || f.hasError ==> g == f.(closed := true))
  {
  }

  class FileWriter {
    var disk: seq<Byte>
    var pending: seq<Byte>
    var streamOpen: bool
    var mHasError: bool
    var mClosed: bool

    ghost function State(): FileState
      reads this
    {
      FileState(disk, pending, streamOpen, mHasError, mClosed)
    }

    ghost predicate Valid()
      reads this
    {
      State().Consistent()
    }

    constructor ()
      ensures Valid() && State() == FRESH_FILE
    {
      disk, pending := [], [];
      streamOpen, mHasError, mClosed := true, false, false;
    }

    method SafeClose(io: Io)
      modifies this
      ensures State() == old(State()).SafeClose(io)
    {
      if streamOpen {
        if pending != [] {
          disk := if io.Good? then disk + pending else io.left;
          pending := [];
        }
        streamOpen := false;
      }
    }

    /** After a failed stream call: set the error flag and drop the stream, then rethrow. */
    method HandleException(left: seq<Byte>)
      modifies this
      ensures State() == FileState(left, [], false, true, old(mClosed))
    {
      mHasError := true;
      disk, pending := left, [];
      SafeClose(Good(0));
    }

    method Write(data: seq<Byte>, io: Io) returns (threw: bool)
      requires Valid()
      modifies this
      ensures Valid() && (State(), threw) == old(State()).Write(data, io)
    {
      if mClosed || mHasError { return true; }
      match io
      case Good(spill) =>
        var all := pending + data;
        var n := if spill < |all| then spill else |all|;
        disk, pending := disk + all[..n], all[n..];
        threw := false;
      case Bad(left) =>
        HandleException(left);
        threw := true;
    }

    method Flush(io: Io) returns (threw: bool)
      modifies this
      ensures old(Valid()) ==> Valid()
      ensures (State(), threw) == old(State()).Flush(io)
    {
      if mClosed || mHasError || !streamOpen { return false; }
      match io
      case Good(_) =>
        disk, pending := disk + pending, [];
        threw := false;
      case Bad(left) =>
        HandleException(left);
        threw := true;
    }

    method Close(io: Io)
      requires Valid()
      modifies this
      ensures Valid() && State() == old(State()).Close(io)
    {
      if mClosed { return; }
      mClosed := true;
      var threw := Flush(io);
      assert !threw;
      SafeClose(io);
    }
  }
}
