/**
 The JNI message queue bridge: pushMsg assembles each message in one reused native buffer and retries
 while the queue is full; the handler thread copies each popped payload into one reused Java array
 and stops for good after a failure or when destruction begins.  The queue between them is a FIFO.
 */
module MsgQueueBridges {
  import opened Results

  type Byte = bv8

  datatype Msg = Msg(what: int, arg1: int, arg2: int, obj: seq<Byte>)

  /** What a push into the native queue returns. */
  datatype Code = Success | Full | Failed(code: int) {
    function ToInt(): int {
      match this
      case Success => SUCCESS
      case Full => FULL
      case Failed(c) => if c == SUCCESS || c == FULL then GENERIC_FAIL else c
    }
  }

  const SUCCESS := 0
  const GENERIC_FAIL := 1
  const FULL := 5
  const EXITING := -2
  const MAX_PUSH_RETRY_COUNT := 4

  class Context {
    // the sender's side
    var inCapacity: nat
    var inObj: array<Byte>        // msg.in->obj
    var inWhat: int
    var inArg1: int
    var inArg2: int
    var inObjLen: int
    // shared
    var flagExit: bool
    var queue: seq<Msg>
    // the handler thread's side
    var hasEnv: bool              // attached to the virtual machine
    var chainBroken: bool         // the handler has returned non-zero
    var cacheCapacity: nat
    var cacheObj: array<Byte>     // cache.j_obj
    // history
    ghost var accepted: seq<Msg>  // messages the queue has taken
    ghost var popped: seq<Msg>
    ghost var pushes: nat         // calls of the native push
    ghost var delivered: seq<Msg> // what the Java callback has been given
    ghost var atExit: nat         // number delivered when the exit flag was first set
    ghost var overlap: bool       // it was set between the check of the flag and a delivery
    ghost var atFailure: nat      // number delivered when the callback first returned non-zero
    ghost var failed: bool        // the callback has returned non-zero

    ghost predicate Valid()
      reads this
    {
      && inObj.Length == inCapacity && cacheObj.Length == cacheCapacity && inObj != cacheObj
      && accepted == popped + queue
      && delivered <= popped
      && (!flagExit && !chainBroken ==> delivered == popped)
      && (failed ==> flagExit && |delivered| == atFailure)
      && AfterExit()
    }

    /** Since the flag was set, the delivery it overlapped, and no other. */
    ghost predicate AfterExit()
      reads this
    {
      if flagExit then |delivered| == atExit + (if overlap then 1 else 0) else !overlap
    }

    constructor (hasEnv: bool)
      ensures Valid() && !flagExit && !chainBroken && this.hasEnv == hasEnv && fresh(inObj) && fresh(cacheObj)
      ensures accepted == [] && queue == [] && delivered == [] && inObjLen == 0
    {
      inCapacity, cacheCapacity := 1024, 512;
      inObj, cacheObj := new Byte[1024], new Byte[512];
      inWhat, inArg1, inArg2, inObjLen := 0, 0, 0, 0;
      flagExit, chainBroken, queue := false, false, [];
      this.hasEnv := hasEnv;
      accepted, popped, delivered, pushes := [], [], [], 0;
      atExit, atFailure, overlap, failed := 0, 0, false, false;
    }

    // ---------- the handler thread ----------

    method SetExit()
      modifies this`flagExit, this`atExit
      ensures flagExit && atExit == if old(flagExit) then old(atExit) else |delivered|
    {
      if !flagExit { atExit := |delivered|; }
      flagExit := true;
    }

    /** destroy sets the flag from another thread while no message is being handled. */
    method DestroyBegins()
      requires Valid()
      modifies this`flagExit, this`atExit
      ensures Valid() && flagExit
    {
      SetExit();
    }

    /** Room for len bytes in the cached Java array; growing drops the old contents. */
    method RecreateCache(len: nat)
      requires cacheObj.Length == cacheCapacity && inObj != cacheObj
      modifies this`cacheObj, this`cacheCapacity
      ensures cacheObj.Length == cacheCapacity && len <= cacheCapacity && inObj != cacheObj
      ensures cacheObj == old(cacheObj) || fresh(cacheObj)
    {
      if len > cacheCapacity {
        cacheCapacity := len * 2;
        cacheObj := new Byte[len * 2];
      }
    }

    /**
     One message.  The flag is read; destroyBegins says whether destroy sets it just after.  In that
     case, and in no other, a message is delivered once destruction has begun.  After a message that
     the callback refuses there is none.
     */
    method HandleQueueMsg(m: Msg, destroyBegins: bool) returns (ret: int)
      requires inObj.Length == inCapacity && cacheObj.Length == cacheCapacity && inObj != cacheObj
      requires AfterExit() && (failed ==> flagExit && |delivered| == atFailure)
      modifies this`flagExit, this`atExit, this`atFailure, this`overlap, this`failed, this`delivered
      modifies this`cacheObj, this`cacheCapacity, cacheObj
      ensures inObj.Length == inCapacity && cacheObj.Length == cacheCapacity && inObj != cacheObj
      ensures cacheObj == old(cacheObj) || fresh(cacheObj)
      ensures AfterExit() && (failed ==> flagExit && |delivered| == atFailure)
      ensures old(flagExit) ==>
        ret == 0 && flagExit && atExit == old(atExit) && overlap == old(overlap) && failed == old(failed)
      ensures delivered == if old(flagExit) || !hasEnv then old(delivered) else old(delivered) + [m]
      ensures !old(flagExit) && !hasEnv ==> ret != 0
      ensures !old(flagExit) ==> (flagExit <==> hasEnv && (destroyBegins || ret != 0))
      ensures !old(flagExit) && hasEnv ==> overlap == destroyBegins && (ret != 0 ==> failed)
    {
      if flagExit { return 0; }
      if !hasEnv { return 1; }
      if destroyBegins { SetExit(); }
      var objLen := |m.obj|;
      var given: seq<Byte> := [];
      if objLen >= 1 {
        RecreateCache(objLen);
        forall k | 0 <= k < objLen { cacheObj[k] := m.obj[k]; }
        given := cacheObj[..objLen];
        assert given == m.obj;
      }
      delivered := delivered + [Msg(m.what, m.arg1, m.arg2, given)];
      overlap := destroyBegins;
      ret := *;
      if ret != 0 {
        SetExit();
        failed, atFailure := true, |delivered|;
      }
    }

    /** Will the handler thread hand the next message to Java? */
    predicate Delivers()
      reads this
    {
      !flagExit && hasEnv && !chainBroken && queue != []
    }

    /**
     The handler thread takes the next message, unless its chain is broken.  A delivery falls behind
     the start of destruction exactly if destruction starts while that message is handled.
     */
    method HandleNext(destroyBegins: bool)
      requires Valid()
      modifies this`queue, this`popped, this`chainBroken
      modifies this`flagExit, this`atExit, this`atFailure, this`overlap, this`failed, this`delivered
      modifies this`cacheObj, this`cacheCapacity, cacheObj
      ensures Valid() && (cacheObj == old(cacheObj) || fresh(cacheObj))
      ensures accepted == old(accepted)
      ensures delivered == if old(Delivers()) then old(delivered) + [old(queue[0])] else old(delivered)
      ensures overlap <==> old(overlap) || (destroyBegins && old(Delivers()))
      ensures old(failed) ==> failed
      ensures old(flagExit) || (destroyBegins && old(Delivers())) ==> flagExit
    {
      if chainBroken || queue == [] { return; }
      var m := queue[0];
      assert queue == [m] + queue[1..] && popped + ([m] + queue[1..]) == popped + [m] + queue[1..];
      queue := queue[1..];
      popped := popped + [m];
      var ret := HandleQueueMsg(m, destroyBegins);
      if ret != 0 { chainBroken := true; }
    }

    // ---------- the sender ----------

    /** RECREATE_MSG: a larger buffer, zeroed; the old contents are not kept. */
    method RecreateMsg(newSize: nat)
      requires inObj.Length == inCapacity && inObj != cacheObj
      modifies this`inObj, this`inCapacity
      ensures inObj.Length == inCapacity && inObj != cacheObj && (inObj == old(inObj) || fresh(inObj))
      ensures inCapacity == if newSize <= old(inCapacity) then old(inCapacity) else newSize
    {
      if newSize <= inCapacity { return; }
      inCapacity := newSize;
      inObj := new Byte[newSize];
    }

    /** Copies the payload into msg.in, growing it first if it must; false for an invalid length. */
    method FillObj(obj: Option<seq<Byte>>, objLen: int) returns (valid: bool)
      requires inObj.Length == inCapacity && inObj != cacheObj
      requires obj.None? ==> objLen == 0
      requires obj.Some? ==> objLen <= |obj.value|
      modifies this`inObj, this`inCapacity, inObj
      ensures inObj.Length == inCapacity && inObj != cacheObj && (inObj == old(inObj) || fresh(inObj))
      ensures valid <==> objLen >= 0
      ensures valid && objLen > 0 ==> obj.Some? && objLen <= inCapacity && inObj[..objLen] == obj.value[..objLen]
    {
      if obj.None? || objLen == 0 { return true; }
      if objLen < 1 { return false; }
      if objLen > inCapacity { RecreateMsg(objLen * 2); }
      forall k | 0 <= k < objLen { inObj[k] := obj.value[k]; }
      valid := true;
    }

    /** msg_queue_handler_push copies what msg.in holds to the tail of the queue, if it can; code is its answer. */
    method Push(code: Code)
      requires Valid() && 0 <= inObjLen <= inCapacity
      modifies this`queue, this`accepted, this`pushes
      ensures Valid() && pushes == old(pushes) + 1
      ensures var m := Msg(inWhat, inArg1, inArg2, inObj[..inObjLen]);
        && accepted == (if code.Success? then old(accepted) + [m] else old(accepted))
        && queue == if code.Success? then old(queue) + [m] else old(queue)
    {
      pushes := pushes + 1;
      if code.Success? {
        var m := Msg(inWhat, inArg1, inArg2, inObj[..inObjLen]);
        assert popped + (queue + [m]) == popped + queue + [m];
        queue := queue + [m];
        accepted := accepted + [m];
      }
    }

    /** The sender sleeps; meanwhile the handler thread does as much as it likes. */
    method Sleep()
      requires Valid()
      modifies this`queue, this`popped, this`chainBroken
      modifies this`flagExit, this`atExit, this`atFailure, this`overlap, this`failed, this`delivered
      modifies this`cacheObj, this`cacheCapacity, cacheObj
      ensures Valid() && accepted == old(accepted) && old(delivered) <= delivered
      ensures cacheObj == old(cacheObj) || fresh(cacheObj)
      ensures old(flagExit) ==> flagExit && delivered == old(delivered)
    {
      var n: nat :| 0 <= n;
      for i := 0 to n
        invariant Valid() && accepted == old(accepted) && old(delivered) <= delivered
        invariant cacheObj == old(cacheObj) || fresh(cacheObj)
        invariant old(flagExit) ==> flagExit && delivered == old(delivered)
      {
        var destroyBegins: bool := *;
        HandleNext(destroyBegins);
      }
    }

    /**
     At most four attempts; success exactly when one message has been enqueued, and that message is
     the caller's.  The precondition on obj and objLen is what the Java helper checks.
     */
    method PushMsg(what: int, arg1: int, arg2: int, obj: Option<seq<Byte>>, objLen: int)
      returns (code: int, ghost attempts: nat)
      requires Valid()
      requires obj.None? ==> objLen == 0
      requires obj.Some? ==> objLen <= |obj.value|
      modifies this, inObj, cacheObj
      ensures Valid()
      ensures attempts <= MAX_PUSH_RETRY_COUNT && pushes == old(pushes) + attempts
      ensures old(flagExit) ==> code == EXITING && attempts == 0
      ensures !old(flagExit) && objLen < 0 ==> code == GENERIC_FAIL && attempts == 0
      ensures !old(flagExit) && objLen >= 0 ==> attempts >= 1
      ensures code == FULL ==> attempts == MAX_PUSH_RETRY_COUNT
      ensures code == SUCCESS ==> objLen >= 0
      ensures accepted ==
        if code == SUCCESS
        then old(accepted) + [Msg(what, arg1, arg2, if objLen <= 0 then [] else obj.value[..objLen])]
        else old(accepted)
      ensures old(delivered) <= delivered
    {
      attempts := 0;
      if flagExit { return EXITING, 0; }
      var valid := FillObj(obj, objLen);
      inWhat, inArg1, inArg2, inObjLen := what, arg1, arg2, objLen;
      if !valid { return GENERIC_FAIL, 0; }
      code, attempts := PushWithRetry();
    }

    /** The retry loop, over the message assembled in msg.in. */
    method PushWithRetry() returns (code: int, ghost attempts: nat)
      requires Valid() && 0 <= inObjLen <= inCapacity
      modifies this`queue, this`accepted, this`pushes, this`popped, this`chainBroken
      modifies this`flagExit, this`atExit, this`atFailure, this`overlap, this`failed, this`delivered
      modifies this`cacheObj, this`cacheCapacity, cacheObj
      ensures Valid()
      ensures 1 <= attempts <= MAX_PUSH_RETRY_COUNT && (code == FULL ==> attempts == MAX_PUSH_RETRY_COUNT)
      ensures pushes == old(pushes) + attempts
      ensures var m := Msg(inWhat, inArg1, inArg2, inObj[..inObjLen]);
        accepted == if code == SUCCESS then old(accepted) + [m] else old(accepted)
      ensures inObj[..inObjLen] == old(inObj[..inObjLen]) && old(delivered) <= delivered
    {
      var retry := 0;
      attempts := 0;
      code := FULL;
      while retry < MAX_PUSH_RETRY_COUNT
        invariant Valid() && 0 <= retry <= MAX_PUSH_RETRY_COUNT && attempts == retry && code == FULL
        invariant accepted == old(accepted) && old(delivered) <= delivered && pushes == old(pushes) + attempts
        invariant inObj[..inObjLen] == old(inObj[..inObjLen])
        invariant cacheObj == old(cacheObj) || fresh(cacheObj)
      {
        var status: Code := *;
        Push(status);
        code := status.ToInt();
        attempts := attempts + 1;
        if code != FULL { break; }
        Sleep();
        retry := retry + 1;
      }
    }

    /** Java has seen a prefix of what was accepted, unchanged and in order. */
    lemma DeliveredInOrder()
      requires Valid()
      ensures delivered <= accepted
      ensures !flagExit && !chainBroken ==> accepted == delivered + queue
    {
      assert accepted == popped + queue;
    }
  }

  /** It does happen: a message taken just before destruction begins is delivered after it. */
  method DeliveryAfterDestroy() returns (c: Context)
    ensures fresh(c) && c.Valid() && c.flagExit && c.overlap && |c.delivered| == c.atExit + 1
  {
    c := new Context(true);
    c.Push(Success);
    c.HandleNext(true);
  }
}
