/**
 The Java rate converters, working in place on byte buffers, tied to the frame functions.
 */
module Resampling {
  import opened Results
  import opened Frames

  datatype SampleUnit = INT8 | INT16 | INT32 | FLOAT32 {
    function BytesPerSample(): nat {
      match this
      case INT8 => 1
      case INT16 => 2
      case _ => 4
    }

    predicate Signed() { this != INT8 }
  }

  datatype ResampleError = IllegalArgument | IndexOutOfBounds

  class BufferWrapper {
    const buffer: array<Octet>
    var bufferUsed: int

    ghost predicate Valid()
      reads this
    {
      bufferUsed <= buffer.Length
    }

    /** The used bytes; a negative count means none. */
    ghost function Used(): Bytes
      reads this, buffer
      requires Valid()
    {
      if bufferUsed < 0 then [] else buffer[..bufferUsed]
    }

    constructor (buffer: array<Octet>, used: int)
      requires used <= buffer.Length
      ensures Valid() && this.buffer == buffer && bufferUsed == used
    {
      this.buffer, bufferUsed := buffer, used;
    }
  }

  /** System.arraycopy. */
  method ArrayCopy(src: array<Octet>, i: nat, dst: array<Octet>, o: nat, n: nat)
    requires i + n <= src.Length && o + n <= dst.Length
    modifies dst
    ensures dst[..o] == old(dst[..o]) && dst[o..o + n] == old(src[i..i + n]) && dst[o + n..] == old(dst[o + n..])
  {
    forall k | 0 <= k < n { dst[o + k] := src[i + k]; }
  }

  /** Copies one frame behind o bytes of whole frames. */
  method AppendFrame(src: array<Octet>, i: nat, dst: array<Octet>, o: nat, f: nat)
    requires 0 < f && i + f <= src.Length && o + f <= dst.Length && Multiple(o, f)
    modifies dst
    ensures Multiple(o + f, f)
    ensures Split(dst[..o + f], f) == old(Split(dst[..o], f)) + [old(src[i..i + f])]
    ensures dst[..o] == old(dst[..o]) && dst[o..o + f] == old(src[i..i + f])
    ensures forall t :: o + f <= t < dst.Length ==> dst[t] == old(dst[t])
  {
    ghost var done, frame, tail := dst[..o], src[i..i + f], dst[o + f..];
    ArrayCopy(src, i, dst, o, f);
    assert dst[..o + f] == done + frame;
    SplitAppend(done, frame, f);
    forall t | o + f <= t < dst.Length ensures dst[t] == old(dst[t]) {
      assert dst[t] == dst[o + f..][t - o - f] && tail[t - o - f] == old(dst[t]);
    }
  }

  // ---------- what fits, what is seen ----------

  /** The frames due, as many as the output array has room for. */
  ghost predicate Delivered(got: Bytes, due: seq<Bytes>, f: nat, capacity: nat)
    requires 0 < f
  {
    Multiple(|got|, f) && Split(got, f) <= due && (Split(got, f) == due || |got| + f > capacity)
  }

  /** Bytes up to the end of the last frame that begins before used. */
  function RoundUp(used: int, f: nat): nat
    requires 0 < f
    decreases used
  {
    if used <= 0 then 0 else f + RoundUp(used - f, f)
  }

  lemma {:induction false} RoundUpFacts(used: int, f: nat)
    requires 0 < f
    ensures Multiple(RoundUp(used, f), f)
    ensures 0 < used ==> used <= RoundUp(used, f) < used + f
    ensures Multiple(used, f) ==> RoundUp(used, f) == used
    decreases used
  {
    if 0 < used {
      RoundUpFacts(used - f, f);
      MultipleAdd(RoundUp(used - f, f), f);
    }
  }

  /**
   What downSample sees of an array: its bytes up to the end of the last frame that begins among the
   used ones (zeros stand for bytes past the end of the array, which are never copied).
   */
  ghost function Visible(a: Bytes, used: int, f: nat): (x: Bytes)
    requires 0 < f
    ensures |x| == RoundUp(used, f)
  {
    seq(RoundUp(used, f), k requires 0 <= k => if k < |a| then a[k] else 0)
  }

  /** Where the last of the frames begins that are step bytes apart and begin before used. */
  function LastStart(used: int, step: nat): nat
    requires 0 < step
    decreases used
  {
    if used <= step then 0 else step + LastStart(used - step, step)
  }

  lemma {:induction false} LastStartIs(used: int, step: nat, k: nat)
    requires 0 < step && k * step < used <= k * step + step
    ensures LastStart(used, step) == k * step
    decreases k
  {
    if k > 0 {
      OneLess(k, step);
      LastStartIs(used - step, step, k - 1);
    }
  }

  /** The last frame begun among the used bytes does not end within the array. */
  predicate PastInput(used: int, length: nat, f: nat, step: nat) {
    0 < used && 0 < step && LastStart(used, step) + f > length
  }

  lemma {:induction false} MultipleMinus(n: int, f: nat, r: nat)
    requires 0 < f && Multiple(n, f) && r * f <= n
    ensures Multiple(n - r * f, f)
    decreases r
  {
    if r > 0 {
      OneLess(r, f);
      MultipleMinus(n - f, f, r - 1);
    }
  }

  lemma {:induction false} WholeFrameInside(used: int, f: nat, r: nat, step: nat)
    requires 0 < f && 0 < r && step == r * f && 0 < step && 0 < used && Multiple(used, f)
    ensures LastStart(used, step) + f <= used
    decreases used
  {
    if used > step {
      MultipleMinus(used, f, r);
      WholeFrameInside(used - step, f, r, step);
    }
  }

  /** Whole frames: exactly the used bytes are seen, and nothing reaches past the array. */
  lemma WholeFramesAreSafe(a: Bytes, used: nat, f: nat, r: nat, step: nat)
    requires 0 < f && 0 < r && step == r * f && used <= |a| && Multiple(used, f)
    ensures Visible(a, used, f) == a[..used] && !PastInput(used, |a|, f, step)
  {
    RoundUpFacts(used, f);
    if 0 < used && 0 < step { WholeFrameInside(used, f, r, step); }
  }

  // ---------- downSample ----------

  predicate DownArgs(inChannels: int, inRate: int, outRate: int, used: int, unit: SampleUnit) {
    inChannels > 0 && inRate > 0 && outRate > 0 && outRate < inRate && inRate % outRate == 0
    && used >= unit.BytesPerSample() * inChannels
  }

  /** Exactly the whole rate ratios above one are accepted. */
  lemma DownArgsExactly(inChannels: int, inRate: int, outRate: int, used: int, unit: SampleUnit)
    ensures DownArgs(inChannels, inRate, outRate, used, unit) <==>
      && inChannels > 0 && outRate > 0 && used >= unit.BytesPerSample() * inChannels
      && exists r :: r >= 2 && inRate == Product(r, outRate)
  {
    WholeRatio(inRate, outRate);
  }

  function Product(a: int, b: int): int {
    a * b
  }

  lemma RatioAboveOne(outRate: int, inRate: int)
    requires 0 < inRate < outRate && outRate % inRate == 0
    ensures 2 <= outRate / inRate
  {
    var n := outRate / inRate;
    assert n * inRate == outRate;
    if n < 2 { MulMonotone(n, 1, inRate); }
  }

  lemma WholeRatio(big: int, small: int)
    ensures small > 0 ==>
      (big > small && big % small == 0 <==> exists r :: r >= 2 && big == Product(r, small))
  {
    if small > 0 {
      if big > small && big % small == 0 {
        RatioAboveOne(big, small);
        assert big == Product(big / small, small);
      }
      forall r | r >= 2 && big == Product(r, small) ensures big > small && big % small == 0 {
        MulMonotone(2, r, small);
        WholeRemainder(r, small);
      }
    }
  }

  lemma WholeRemainder(r: nat, small: nat)
    requires 0 < small
    ensures (r * small) % small == 0
  {
    var n := r * small;
    assert n == small * r + 0;
    RemainderIs(n, small, r, 0);
  }

  /**
   Every r-th frame, as many as fit.  The loop also works when both buffers share one array.  It reaches
   past the input array exactly if the last frame begun there does and the output has room for it.
   */
  method DownSample(inBuffer: BufferWrapper, inChannels: int, inRate: int, unit: SampleUnit, outRate: int,
                    outBuffer: BufferWrapper) returns (r: Result<(), ResampleError>)
    requires inBuffer.Valid() && outBuffer.Valid()
    modifies outBuffer, outBuffer.buffer
    ensures outBuffer.Valid()
    ensures r == Err(IllegalArgument) <==> !DownArgs(inChannels, inRate, outRate, old(inBuffer.bufferUsed), unit)
    ensures r == Err(IllegalArgument) ==>
      outBuffer.buffer[..] == old(outBuffer.buffer[..]) && outBuffer.bufferUsed == old(outBuffer.bufferUsed)
    ensures DownArgs(inChannels, inRate, outRate, old(inBuffer.bufferUsed), unit) ==>
      var f, ratio := unit.BytesPerSample() * inChannels, inRate / outRate;
      var x := Visible(old(inBuffer.buffer[..]), old(inBuffer.bufferUsed), f);
      0 < f && 0 < ratio
      && (r == Err(IndexOutOfBounds) <==>
            PastInput(old(inBuffer.bufferUsed), inBuffer.buffer.Length, f, ratio * f)
            && |Down(Split(x, f), ratio)| * f <= outBuffer.buffer.Length)
    ensures r.Ok? ==>
      var f, ratio := unit.BytesPerSample() * inChannels, inRate / outRate;
      var x := Visible(old(inBuffer.buffer[..]), old(inBuffer.bufferUsed), f);
      0 < ratio && Delivered(outBuffer.Used(), Down(Split(x, f), ratio), f, outBuffer.buffer.Length)
  {
    if inChannels <= 0 || inRate <= 0 || outRate <= 0 || outRate >= inRate || inRate % outRate != 0 {
      return Err(IllegalArgument);
    }
    var f, ratio := unit.BytesPerSample() * inChannels, inRate / outRate;
    if inBuffer.bufferUsed < f { return Err(IllegalArgument); }
    var o := CopyEvery(inBuffer.buffer, inBuffer.bufferUsed, f, ratio, outBuffer.buffer);
    if o.None? { return Err(IndexOutOfBounds); }
    outBuffer.bufferUsed := o.value;
    return Ok(());
  }

  /** The frames still due when the loop stands at byte i. */
  ghost function Rest(x: Bytes, i: nat, f: nat, ratio: nat): seq<Bytes>
    requires 0 < f && 0 < ratio
  {
    if i <= |x| then Down(Split(x[i..], f), ratio) else []
  }

  lemma RestStep(x: Bytes, i: nat, f: nat, ratio: nat, step: nat)
    requires 0 < f && 0 < ratio && step == ratio * f
    requires i < |x| && Multiple(|x| - i, f)
    ensures i + f <= |x| && step >= f
    ensures Rest(x, i, f, ratio) == [x[i..i + f]] + Rest(x, i + step, f, ratio)
    ensures i + step <= |x| ==> Multiple(|x| - i - step, f)
  {
    var y := x[i..];
    SplitSkip(y, f, ratio);
    OneLess(ratio, f);
    var fs := Split(y, f);
    assert y[..f] == x[i..i + f];
    if i + step <= |x| { assert y[step..] == x[i + step..]; }
    assert Down(fs, ratio) == [fs[0]] + Down(fs[Min(ratio, |fs|)..], ratio);
  }

  /** What has been copied and what is left make up what is due. */
  ghost predicate Halfway(out: Bytes, o: nat, x: Bytes, i: nat, f: nat, ratio: nat, due: seq<Bytes>)
    requires 0 < f && 0 < ratio
  {
    o <= |out| && Multiple(o, f) && (i <= |x| ==> Multiple(|x| - i, f))
    && Split(out[..o], f) + Rest(x, i, f, ratio) == due
  }

  lemma HalfwayStep(out: Bytes, next: Bytes, o: nat, x: Bytes, i: nat, f: nat, ratio: nat, step: nat, due: seq<Bytes>)
    requires 0 < f && 0 < ratio && step == ratio * f && i < |x| && Halfway(out, o, x, i, f, ratio, due)
    requires i + f <= |x| && o + f <= |next| && Multiple(o + f, f)
    requires Split(next[..o + f], f) == Split(out[..o], f) + [x[i..i + f]]
    ensures Halfway(next, o + f, x, i + step, f, ratio, due)
  {
    RestStep(x, i, f, ratio, step);
    Regroup(Split(out[..o], f), [x[i..i + f]], Rest(x, i + step, f, ratio));
  }

  lemma NoRoom(out: Bytes, o: nat, x: Bytes, i: nat, f: nat, ratio: nat, step: nat, due: seq<Bytes>)
    requires 0 < f && 0 < ratio && step == ratio * f && i < |x| && Halfway(out, o, x, i, f, ratio, due)
    ensures o + f <= |due| * f
  {
    RestStep(x, i, f, ratio, step);
    SplitTotal(out[..o], f);
    var n := |Split(out[..o], f)|;
    OneLess(n + 1, f);
    MulMonotone(n + 1, |due|, f);
  }

  /** Behind the last frame begun, nothing is left, and the bytes copied are all that is due. */
  lemma NothingLeft(out: Bytes, o: nat, x: Bytes, used: int, i: nat, f: nat, ratio: nat, due: seq<Bytes>)
    requires 0 < f && 0 < ratio && |x| == RoundUp(used, f) && used <= i && Halfway(out, o, x, i, f, ratio, due)
    ensures Split(out[..o], f) == due && o == |due| * f
  {
    RoundUpFacts(used, f);
    if i <= |x| { assert x[i..] == []; }
    SplitTotal(out[..o], f);
  }

  /** Where a copying loop stands after k rounds; now is the input array, a what it held at the start. */
  ghost predicate Standing(out: Bytes, now: Bytes, a: Bytes, used: int, o: nat, i: nat, f: nat, ratio: nat, k: nat)
    requires 0 < f && 0 < ratio
  {
    var x := Visible(a, used, f);
    && o <= i && i == k * (ratio * f)
    && (k > 0 ==> i - ratio * f < used && i - ratio * f + f <= |a|)
    && Halfway(out, o, x, i, f, ratio, Down(Split(x, f), ratio))
    && |now| == |a| && forall t :: o <= t < |a| ==> now[t] == a[t]
  }

  lemma StandingAtStart(out: Bytes, a: Bytes, used: int, f: nat, ratio: nat)
    requires 0 < f && 0 < ratio
    ensures Standing(out, a, a, used, 0, 0, f, ratio, 0)
  {
    var x := Visible(a, used, f);
    RoundUpFacts(used, f);
    assert x[0..] == x;
  }

  /** One round of a copying loop. */
  method CopyStep(inArray: array<Octet>, i: nat, outArray: array<Octet>, o: nat, f: nat,
                  ghost a: Bytes, ghost used: int, ghost ratio: nat, ghost k: nat)
    requires 0 < f && 0 < ratio && i < used && i + f <= inArray.Length && o + f <= outArray.Length
    requires Standing(outArray[..], inArray[..], a, used, o, i, f, ratio, k)
    modifies outArray
    ensures Standing(outArray[..], inArray[..], a, used, o + f, i + ratio * f, f, ratio, k + 1)
  {
    ghost var x, before, step := Visible(a, used, f), outArray[..], ratio * f;
    RoundUpFacts(used, f);
    RestStep(x, i, f, ratio, step);
    assert inArray[i..i + f] == x[i..i + f];
    assert before[..o] == outArray[..o];
    AppendFrame(inArray, i, outArray, o, f);
    assert outArray[..][..o + f] == outArray[..o + f];
    HalfwayStep(before, outArray[..], o, x, i, f, ratio, step, Down(Split(x, f), ratio));
    OneLess(k + 1, step);
  }

  /** As long as the loop has not ended, one more frame is due. */
  lemma StandsBeforeRest(out: Bytes, now: Bytes, a: Bytes, used: int, o: nat, i: nat, f: nat, ratio: nat, k: nat)
    requires 0 < f && 0 < ratio && i < used && Standing(out, now, a, used, o, i, f, ratio, k)
    ensures o + f <= |Down(Split(Visible(a, used, f), f), ratio)| * f
  {
    var x := Visible(a, used, f);
    RoundUpFacts(used, f);
    NoRoom(out, o, x, i, f, ratio, ratio * f, Down(Split(x, f), ratio));
  }

  /** A frame that ends behind the array is the last one begun. */
  lemma ReachesPastInput(out: Bytes, now: Bytes, a: Bytes, used: int, o: nat, i: nat, f: nat, ratio: nat, k: nat)
    requires 0 < f && 0 < ratio && i < used <= |a| && i + f > |a|
    requires Standing(out, now, a, used, o, i, f, ratio, k)
    ensures PastInput(used, |a|, f, ratio * f)
    ensures o + f == |Down(Split(Visible(a, used, f), f), ratio)| * f
  {
    var x, step := Visible(a, used, f), ratio * f;
    RoundUpFacts(used, f);
    RestStep(x, i, f, ratio, step);
    LastStartIs(used, step, k);
    assert i + step <= |x| ==> x[i + step..] == [];
    SplitTotal(out[..o], f);
    OneLess(|Split(out[..o], f)| + 1, f);
  }

  /** After the last round, everything due has been copied, and nothing reached past the input array. */
  lemma StandingAtEnd(out: Bytes, now: Bytes, a: Bytes, used: int, o: nat, i: nat, f: nat, ratio: nat, k: nat)
    requires 0 < f && 0 < ratio && used <= i && used <= |a|
    requires Standing(out, now, a, used, o, i, f, ratio, k)
    ensures !PastInput(used, |a|, f, ratio * f)
    ensures var due := Down(Split(Visible(a, used, f), f), ratio); Split(out[..o], f) == due && o == |due| * f
  {
    var x, step := Visible(a, used, f), ratio * f;
    NothingLeft(out, o, x, used, i, f, ratio, Down(Split(x, f), ratio));
    if 0 < used {
      OneLess(ratio, f);
      OneLess(k, step);
      LastStartIs(used, step, k - 1);
    }
  }

  /** The copying loop of downSample; None is an access past the input array. */
  method CopyEvery(inArray: array<Octet>, used: int, f: nat, ratio: nat, outArray: array<Octet>)
    returns (r: Option<nat>)
    requires 0 < f && 0 < ratio && used <= inArray.Length
    modifies outArray
    ensures var due := Down(Split(Visible(old(inArray[..]), used, f), f), ratio);
      && (r.None? <==> PastInput(used, inArray.Length, f, ratio * f) && |due| * f <= outArray.Length)
      && (r.Some? ==> r.value <= outArray.Length && Delivered(outArray[..r.value], due, f, outArray.Length))
  {
    ghost var a, k := inArray[..], 0;
    var i, o := 0, 0;
    StandingAtStart(outArray[..], a, used, f, ratio);
    while i < used
      invariant Standing(outArray[..], inArray[..], a, used, o, i, f, ratio, k)
      decreases used - i
    {
      OneLess(ratio, f);
      RoundUpFacts(used, f);
      if o + f > outArray.Length {
        StandsBeforeRest(outArray[..], inArray[..], a, used, o, i, f, ratio, k);
        assert outArray[..][..o] == outArray[..o];
        return Some(o);
      }
      if i + f > inArray.Length {
        ReachesPastInput(outArray[..], inArray[..], a, used, o, i, f, ratio, k);
        return None;
      }
      CopyStep(inArray, i, outArray, o, f, a, used, ratio, k);
      o, i, k := o + f, i + ratio * f, k + 1;
    }
    StandingAtEnd(outArray[..], inArray[..], a, used, o, i, f, ratio, k);
    assert outArray[..][..o] == outArray[..o];
    return Some(o);
  }

  // ---------- upSampleSimple ----------

  predicate UpArgs(inChannels: int, inRate: int, outRate: int, used: int, unit: SampleUnit) {
    inChannels > 0 && inRate > 0 && outRate > 0 && outRate > inRate && outRate % inRate == 0
    && used >= unit.BytesPerSample() * inChannels
  }

  /** Exactly the whole rate ratios above one are accepted. */
  lemma UpArgsExactly(inChannels: int, inRate: int, outRate: int, used: int, unit: SampleUnit)
    ensures UpArgs(inChannels, inRate, outRate, used, unit) <==>
      && inChannels > 0 && inRate > 0 && used >= unit.BytesPerSample() * inChannels
      && exists r :: r >= 2 && outRate == Product(r, inRate)
  {
    WholeRatio(outRate, inRate);
  }

  /**
   The frames as the loop reads them.  When both buffers share one array, the copies of the first frame
   run ahead of the reading position: every frame read is by then the first one.
   */
  ghost function Seen(fs: seq<Bytes>, shared: bool): (r: seq<Bytes>)
    ensures |r| == |fs| && (!shared ==> r == fs)
  {
    seq(|fs|, k requires 0 <= k < |fs| => if shared then fs[0] else fs[k])
  }

  /** Every whole frame r times, as many as fit; with a shared array the first frame all along. */
  method UpSampleSimple(inBuffer: BufferWrapper, inChannels: int, inRate: int, unit: SampleUnit, outRate: int,
                        outBuffer: BufferWrapper) returns (r: Result<(), ResampleError>)
    requires inBuffer.Valid() && outBuffer.Valid()
    modifies outBuffer, outBuffer.buffer
    ensures outBuffer.Valid()
    ensures r == Err(IllegalArgument) <==> !UpArgs(inChannels, inRate, outRate, old(inBuffer.bufferUsed), unit)
    ensures r.Err? ==> r.error == IllegalArgument && outBuffer.buffer[..] == old(outBuffer.buffer[..])
                       && outBuffer.bufferUsed == old(outBuffer.bufferUsed)
    ensures r.Ok? ==>
      var f, ratio := unit.BytesPerSample() * inChannels, outRate / inRate;
      var seen := Seen(Split(old(inBuffer.Used()), f), inBuffer.buffer == outBuffer.buffer);
      0 < ratio && Delivered(outBuffer.Used(), Up(seen, ratio), f, outBuffer.buffer.Length)
  {
    if inChannels <= 0 || inRate <= 0 || outRate <= 0 || outRate <= inRate || outRate % inRate != 0 {
      return Err(IllegalArgument);
    }
    var f, ratio := unit.BytesPerSample() * inChannels, outRate / inRate;
    if inBuffer.bufferUsed < f { return Err(IllegalArgument); }
    RatioAboveOne(outRate, inRate);
    ghost var seen := Seen(Split(inBuffer.Used(), f), inBuffer.buffer == outBuffer.buffer);
    var o := RepeatEach(inBuffer.buffer, inBuffer.bufferUsed, f, ratio, outBuffer.buffer, seen);
    assert outBuffer.buffer[..][..o] == outBuffer.buffer[..o];
    outBuffer.bufferUsed := o;
    return Ok(());
  }

  /** Frames still due after i whole input frames and j copies of the next. */
  ghost function RestUp(fs: seq<Bytes>, i: nat, j: nat, ratio: nat): seq<Bytes>
    requires i <= |fs| && j <= ratio
  {
    if i == |fs| then [] else Copies(fs[i], ratio - j) + Up(fs[i + 1..], ratio)
  }

  lemma Regroup(a: seq<Bytes>, b: seq<Bytes>, c: seq<Bytes>)
    ensures a + (b + c) == a + b + c
  {
  }

  lemma RestUpStep(fs: seq<Bytes>, i: nat, j: nat, ratio: nat)
    requires i < |fs| && j < ratio
    ensures RestUp(fs, i, j, ratio) == [fs[i]] + RestUp(fs, i, j + 1, ratio)
  {
    var more := Copies(fs[i], ratio - j - 1);
    assert Copies(fs[i], ratio - j) == [fs[i]] + more;
    Regroup([fs[i]], more, Up(fs[i + 1..], ratio));
  }

  lemma RestUpNext(fs: seq<Bytes>, i: nat, ratio: nat)
    requires i < |fs|
    ensures RestUp(fs, i, ratio, ratio) == Up(fs[i + 1..], ratio) == RestUp(fs, i + 1, 0, ratio)
  {
    if i + 1 < |fs| { assert fs[i + 1..][1..] == fs[i + 2..]; }
  }

  /** What has been copied and what is left make up what is due. */
  ghost predicate HalfwayUp(out: Bytes, o: nat, fs: seq<Bytes>, i: nat, j: nat, f: nat, ratio: nat)
    requires 0 < f
  {
    o <= |out| && Multiple(o, f) && i <= |fs| && j <= ratio
    && Split(out[..o], f) + RestUp(fs, i, j, ratio) == Up(fs, ratio)
  }

  /** At the end of the room, or of the input, what has been written is delivered. */
  lemma HalfwayDelivers(out: Bytes, o: nat, fs: seq<Bytes>, i: nat, j: nat, f: nat, ratio: nat)
    requires 0 < f && HalfwayUp(out, o, fs, i, j, f, ratio) && (i == |fs| || o + f > |out|)
    ensures o <= |out| && Delivered(out[..o], Up(fs, ratio), f, |out|)
  {
  }

  lemma HalfwayUpStep(out: Bytes, next: Bytes, o: nat, fs: seq<Bytes>, i: nat, j: nat, f: nat, ratio: nat)
    requires 0 < f && i < |fs| && j < ratio && HalfwayUp(out, o, fs, i, j, f, ratio)
    requires o + f <= |next| && Multiple(o + f, f) && Split(next[..o + f], f) == Split(out[..o], f) + [fs[i]]
    ensures HalfwayUp(next, o + f, fs, i, j + 1, f, ratio)
  {
    RestUpStep(fs, i, j, ratio);
    Regroup(Split(out[..o], f), [fs[i]], RestUp(fs, i, j + 1, ratio));
  }

  /** The inner loop of upSampleSimple: the frame at byte p, ratio times or until the room is used up. */
  method RepeatFrame(inArray: array<Octet>, p: nat, f: nat, ratio: nat, outArray: array<Octet>, start: nat,
                     ghost fs: seq<Bytes>, ghost i: nat) returns (o: nat, full: bool)
    requires 0 < f && p + f <= inArray.Length && (inArray != outArray || p == start || p + f <= start)
    requires i < |fs| && inArray[p..p + f] == fs[i] && HalfwayUp(outArray[..], start, fs, i, 0, f, ratio)
    modifies outArray
    ensures full ==> o <= outArray.Length && Delivered(outArray[..][..o], Up(fs, ratio), f, outArray.Length)
    ensures !full ==> HalfwayUp(outArray[..], o, fs, i + 1, 0, f, ratio)
  {
    o := start;
    for j := 0 to ratio
      invariant inArray != outArray || p == o || p + f <= o
      invariant inArray[p..p + f] == fs[i] && HalfwayUp(outArray[..], o, fs, i, j, f, ratio)
    {
      if o + f > outArray.Length {
        HalfwayDelivers(outArray[..], o, fs, i, j, f, ratio);
        return o, true;
      }
      o := RepeatOnce(inArray, p, f, ratio, outArray, o, fs, i, j);
    }
    RestUpNext(fs, i, ratio);
    full := false;
  }

  /** One copy of a frame, onto itself or elsewhere. */
  method RepeatOnce(inArray: array<Octet>, p: nat, f: nat, ratio: nat, outArray: array<Octet>, at: nat,
                    ghost fs: seq<Bytes>, ghost i: nat, ghost j: nat) returns (o: nat)
    requires 0 < f && p + f <= inArray.Length && at + f <= outArray.Length && i < |fs| && j < ratio
    requires inArray != outArray || p == at || p + f <= at
    requires inArray[p..p + f] == fs[i] && HalfwayUp(outArray[..], at, fs, i, j, f, ratio)
    modifies outArray
    ensures o == at + f && inArray[p..p + f] == fs[i] && HalfwayUp(outArray[..], o, fs, i, j + 1, f, ratio)
  {
    ghost var before := outArray[..];
    assert before[..at] == outArray[..at] && (inArray == outArray ==> before[p..p + f] == inArray[p..p + f]);
    AppendFrame(inArray, p, outArray, at, f);
    assert outArray[..][..at] == outArray[..at];
    assert outArray[..][..at + f] == outArray[..at + f];
    HalfwayUpStep(before, outArray[..], at, fs, i, j, f, ratio);
    if inArray == outArray && p + f <= at {
      SliceOfPrefix(before, outArray[..], at, p, f);
      assert outArray[p..p + f] == outArray[..][p..p + f] && before[p..p + f] == fs[i];
    }
    o := at + f;
  }

  /** i whole input frames have made i * ratio output frames. */
  lemma WrittenCount(out: Bytes, o: nat, seen: seq<Bytes>, i: nat, f: nat, ratio: nat)
    requires 0 < f && 2 <= ratio && 0 < i < |seen| && HalfwayUp(out, o, seen, i, 0, f, ratio)
    ensures i < |Split(out[..o], f)| && o == |Split(out[..o], f)| * f
  {
    RestUpIsUp(seen, i, ratio);
    var n := |Split(out[..o], f)|;
    UpLengths(seen, i, ratio, n);
    SplitTotal(out[..o], f);
  }

  lemma UpLengths(fs: seq<Bytes>, i: nat, ratio: nat, n: nat)
    requires i <= |fs| && 2 <= ratio && n + |Up(fs[i..], ratio)| == |Up(fs, ratio)|
    ensures n >= i + i
  {
    UpLength(fs, ratio);
    UpLength(fs[i..], ratio);
    AtLeastTwice(n, i, |fs|, ratio);
  }

  lemma AtLeastTwice(n: nat, i: nat, m: nat, ratio: nat)
    requires i <= m && 2 <= ratio && n + (m - i) * ratio == m * ratio
    ensures n >= i + i
  {
    Spread(i, m - i, ratio);
    MulMonotone(2, ratio, i);
  }

  /** Before input frame i is read, at byte p, that place holds a copy of an earlier frame. */
  lemma WrittenSoFar(out: Bytes, o: nat, seen: seq<Bytes>, i: nat, f: nat, ratio: nat, p: nat)
    requires 0 < f && 2 <= ratio && 0 < i < |seen| && HalfwayUp(out, o, seen, i, 0, f, ratio) && p == i * f
    requires forall k :: 0 <= k < |seen| ==> seen[k] == seen[0]
    ensures p + f <= o && out[p..p + f] == seen[0]
  {
    var written := Split(out[..o], f);
    WrittenCount(out, o, seen, i, f, ratio);
    MulMonotone(i + 1, |written|, f);
    OneLess(i + 1, f);
    SplitAt(out[..o], f, i, p);
    assert out[..o][p..p + f] == out[p..p + f];
    assert Up(seen, ratio)[i] == written[i];
    AllSame(seen, ratio, i);
  }

  lemma Spread(a: nat, b: nat, c: nat)
    ensures (a + b) * c == a * c + b * c
  {
  }

  lemma RestUpIsUp(fs: seq<Bytes>, i: nat, ratio: nat)
    requires i < |fs|
    ensures RestUp(fs, i, 0, ratio) == Up(fs[i..], ratio)
  {
    assert fs[i..][1..] == fs[i + 1..];
  }

  lemma {:induction false} AllSame(fs: seq<Bytes>, ratio: nat, q: nat)
    requires fs != [] && q < |Up(fs, ratio)| && forall k :: 0 <= k < |fs| ==> fs[k] == fs[0]
    ensures Up(fs, ratio)[q] == fs[0]
    decreases |fs|
  {
    if q >= ratio {
      assert forall k :: 0 <= k < |fs[1..]| ==> fs[1..][k] == fs[k + 1];
      AllSame(fs[1..], ratio, q - ratio);
    }
  }

  /** The frame about to be read from an array that is also written. */
  lemma SharedFrameToRead(now: Bytes, x: Bytes, o: nat, f: nat, ratio: nat, i: nat, p: nat)
    requires 0 < f && 2 <= ratio && i < |Split(x, f)| && p == i * f && p + f <= |x| <= |now|
    requires Split(x, f)[i] == x[p..p + f] && HalfwayUp(now, o, Seen(Split(x, f), true), i, 0, f, ratio)
    requires i == 0 ==> o == 0 && now[..|x|] == x
    ensures now[p..p + f] == Seen(Split(x, f), true)[i] && (p == o || p + f <= o)
  {
    if 0 < i {
      WrittenSoFar(now, o, Seen(Split(x, f), true), i, f, ratio, p);
    } else {
      assert p == 0 && now[p..p + f] == now[..|x|][p..p + f];
    }
  }

  /** Before input frame i is read: what has been written, and what of the input is still intact. */
  ghost predicate BeforeFrame(
      out: Bytes, now: Bytes, o: nat, x: Bytes, fs: seq<Bytes>, i: nat, f: nat, ratio: nat, shared: bool)
    requires 0 < f
  {
    && HalfwayUp(out, o, fs, i, 0, f, ratio) && |x| <= |now| && (shared ==> now == out)
    && (!shared || i == 0 ==> now[..|x|] == x) && (i == 0 ==> o == 0)
  }

  lemma NoFrameRead(out: Bytes, now: Bytes, x: Bytes, fs: seq<Bytes>, f: nat, ratio: nat, shared: bool)
    requires 0 < f && |x| <= |now| && now[..|x|] == x && (shared ==> now == out)
    ensures BeforeFrame(out, now, 0, x, fs, 0, f, ratio, shared)
  {
    if fs != [] { RestUpIsUp(fs, 0, ratio); assert fs[0..] == fs; }
  }

  lemma AllFramesRead(
      out: Bytes, now: Bytes, o: nat, x: Bytes, fs: seq<Bytes>, i: nat, f: nat, ratio: nat, shared: bool)
    requires 0 < f && i == |fs| && BeforeFrame(out, now, o, x, fs, i, f, ratio, shared)
    ensures o <= |out| && Delivered(out[..o], Up(fs, ratio), f, |out|)
  {
    HalfwayDelivers(out, o, fs, i, 0, f, ratio);
  }

  /** One round of the outer loop. */
  method RepeatNext(inArray: array<Octet>, i: nat, f: nat, ratio: nat, outArray: array<Octet>, start: nat,
                    ghost x: Bytes, ghost fs: seq<Bytes>) returns (o: nat, full: bool)
    requires 0 < f && 2 <= ratio && i < |fs| && fs == Seen(Split(x, f), inArray == outArray)
    requires BeforeFrame(outArray[..], inArray[..], start, x, fs, i, f, ratio, inArray == outArray)
    modifies outArray
    ensures full ==> o <= outArray.Length && Delivered(outArray[..][..o], Up(fs, ratio), f, outArray.Length)
    ensures !full ==> BeforeFrame(outArray[..], inArray[..], o, x, fs, i + 1, f, ratio, inArray == outArray)
  {
    SplitCount(x, f);
    FrameInside(x, f, i);
    var p := i * f;
    assert inArray[p..p + f] == inArray[..][p..p + f];
    if inArray == outArray {
      SharedFrameToRead(inArray[..], x, start, f, ratio, i, p);
    } else {
      assert inArray[..][p..p + f] == inArray[..][..|x|][p..p + f];
    }
    o, full := RepeatFrame(inArray, p, f, ratio, outArray, start, fs, i);
  }

  method Samples(used: nat, f: nat, ghost x: Bytes) returns (n: nat)
    requires 0 < f && used == |x|
    ensures forall shared :: n == |Seen(Split(x, f), shared)|
  {
    SplitCount(x, f);
    n := used / f;
  }

  /** The copying loops of upSampleSimple; the result is the number of bytes written. */
  method RepeatEach(inArray: array<Octet>, used: nat, f: nat, ratio: nat, outArray: array<Octet>,
                    ghost fs: seq<Bytes>) returns (o: nat)
    requires 0 < f && 2 <= ratio && used <= inArray.Length
    requires fs == Seen(Split(inArray[..used], f), inArray == outArray)
    modifies outArray
    ensures o <= outArray.Length && Delivered(outArray[..][..o], Up(fs, ratio), f, outArray.Length)
  {
    hide *;
    ghost var x := inArray[..used];
    var inSamples := Samples(used, f, x);
    NoFrameRead(outArray[..], inArray[..], x, fs, f, ratio, inArray == outArray);
    o := 0;
    for i := 0 to inSamples
      invariant BeforeFrame(outArray[..], inArray[..], o, x, fs, i, f, ratio, inArray == outArray)
    {
      var full;
      o, full := RepeatNext(inArray, i, f, ratio, outArray, o, x, fs);
      if full { return; }
    }
    AllFramesRead(outArray[..], inArray[..], o, x, fs, inSamples, f, ratio, inArray == outArray);
  }

  lemma SplitCount(x: Bytes, f: nat)
    requires 0 < f
    ensures |Split(x, f)| == |x| / f
  {
    SplitLength(x, f, |x| / f);
  }

  lemma FrameInside(x: Bytes, f: nat, i: nat)
    requires 0 < f && i < |x| / f
    ensures 0 <= i * f && i * f + f <= |x|
    ensures |Split(x, f)| == |x| / f && Split(x, f)[i] == x[i * f..i * f + f]
  {
    FrameFits(|x|, f, i);
    SplitCount(x, f);
    SplitAt(x, f, i, i * f);
  }

  lemma FrameFits(len: nat, f: nat, i: nat)
    requires 0 < f && i < len / f
    ensures 0 <= i * f && i * f + f <= len
  {
    var n := len / f;
    assert n * f <= len;
    MulMonotone(i + 1, n, f);
  }

  lemma MulMonotone(a: nat, b: nat, f: nat)
    requires a <= b
    ensures 0 <= a * f <= b * f
  {
  }

  // ---------- consequences on bytes ----------

  lemma {:induction false} SplitTotal(x: Bytes, f: nat)
    requires 0 < f && Multiple(|x|, f)
    ensures |x| == |Split(x, f)| * f
    decreases |x|
  {
    if x != [] {
      SplitTotal(x[f..], f);
      OneLess(|Split(x, f)|, f);
    }
  }

  /** With room for every frame due, all are delivered. */
  lemma RoomForAll(got: Bytes, due: seq<Bytes>, f: nat, capacity: nat)
    requires 0 < f && Delivered(got, due, f, capacity) && |due| * f <= capacity
    ensures Split(got, f) == due
  {
    SplitTotal(got, f);
    var n := |Split(got, f)|;
    if n < |due| {
      MulMonotone(n + 1, |due|, f);
      OneLess(n + 1, f);
    }
  }

  /** On whole frames, downSample after upSampleSimple at the same ratio gives the same bytes back. */
  lemma DownUndoesUpBytes(x: Bytes, f: nat, ratio: nat, up: Bytes, down: Bytes, upRoom: nat, downRoom: nat)
    requires 0 < f && 0 < ratio && Multiple(|x|, f)
    requires Delivered(up, Up(Split(x, f), ratio), f, upRoom) && |Up(Split(x, f), ratio)| * f <= upRoom
    requires Delivered(down, Down(Split(up, f), ratio), f, downRoom) && |x| <= downRoom
    ensures down == x
  {
    RoomForAll(up, Up(Split(x, f), ratio), f, upRoom);
    DownUndoesUp(Split(x, f), ratio);
    SplitTotal(x, f);
    RoomForAll(down, Split(x, f), f, downRoom);
    JoinSplit(x, f);
    JoinSplit(down, f);
  }
}
