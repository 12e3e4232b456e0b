/** The second Java downsampler, resampleForDownRate, which checks nothing and breaks nothing off. */
module ByteUtils {
  import opened Results
  import opened Frames
  import opened Resampling

  /**
   An access past either array is an exception.  With anything to read, that happens exactly for a ratio
   of zero, when the last frame begun ends behind the input array, or when the output array is too short
   for the frames due.
   */
  method ResampleForDownRate(inBuffer: BufferWrapper, inChannels: nat, inRate: nat, inSampleBit: nat, outRate: nat,
                             outBuffer: BufferWrapper) returns (r: Result<(), ResampleError>)
    requires inBuffer.Valid() && outBuffer.Valid()
    requires 0 < inChannels && 8 <= inSampleBit && 0 < inRate && 0 < outRate
    modifies outBuffer, outBuffer.buffer
    ensures outBuffer.Valid()
    ensures r.Ok? ==>
      var f, ratio := inSampleBit / 8 * inChannels, inRate / outRate;
      var x := Visible(old(inBuffer.buffer[..]), old(inBuffer.bufferUsed), f);
      0 < f && outBuffer.bufferUsed >= 0 && Multiple(outBuffer.bufferUsed, f)
      && (old(inBuffer.bufferUsed) <= 0 ==> outBuffer.bufferUsed == 0)
      && (old(inBuffer.bufferUsed) > 0 ==> 0 < ratio && Split(outBuffer.Used(), f) == Down(Split(x, f), ratio))
    ensures r.Err? ==> r.error == IndexOutOfBounds && outBuffer.bufferUsed == old(outBuffer.bufferUsed)
    ensures
      var f, ratio := inSampleBit / 8 * inChannels, inRate / outRate;
      var x := Visible(old(inBuffer.buffer[..]), old(inBuffer.bufferUsed), f);
      0 < f
      && (r.Err? <==>
            && old(inBuffer.bufferUsed) > 0
            && (ratio == 0
                || PastInput(old(inBuffer.bufferUsed), inBuffer.buffer.Length, f, ratio * f)
                || outBuffer.buffer.Length < |Down(Split(x, f), ratio)| * f))
  {
    var sampleSize := inSampleBit / 8;
    var f, ratio := sampleSize * inChannels, inRate / outRate;
    MulMonotone(1, inChannels, sampleSize);
    var o := CopySteps(inBuffer.buffer, inBuffer.bufferUsed, f, ratio, outBuffer.buffer);
    if o.None? { return Err(IndexOutOfBounds); }
    outBuffer.bufferUsed := o.value;
    return Ok(());
  }

  /** The loop; with ratio 0 it copies the first frame until the output array is exceeded. */
  method CopySteps(inArray: array<Octet>, used: int, f: nat, ratio: nat, outArray: array<Octet>)
    returns (r: Option<nat>)
    requires 0 < f && used <= inArray.Length
    modifies outArray
    ensures r.Some? ==> r.value <= outArray.Length && Multiple(r.value, f) && (used <= 0 ==> r.value == 0)
    ensures ratio == 0 ==> (r.None? <==> used > 0)
    ensures 0 < ratio ==>
      var due := Down(Split(Visible(old(inArray[..]), used, f), f), ratio);
      && (r.None? <==> PastInput(used, inArray.Length, f, ratio * f) || outArray.Length < |due| * f)
      && (r.Some? ==> Split(outArray[..r.value], f) == due)
  {
    if ratio == 0 {
      r := CopyForever(inArray, used, f, outArray);
      return;
    }
    ghost var a, k := inArray[..], 0;
    var i, o := 0, 0;
    StandingAtStart(outArray[..], a, used, f, ratio);
    while i < used
      invariant Standing(outArray[..], inArray[..], a, used, o, i, f, ratio, k)
      decreases used - i
    {
      OneLess(ratio, f);
      RoundUpFacts(used, f);
      if i + f > inArray.Length {
        ReachesPastInput(outArray[..], inArray[..], a, used, o, i, f, ratio, k);
        return None;
      }
      if o + f > outArray.Length {
        StandsBeforeRest(outArray[..], inArray[..], a, used, o, i, f, ratio, k);
        return None;
      }
      CopyStep(inArray, i, outArray, o, f, a, used, ratio, k);
      o, i, k := o + f, i + ratio * f, k + 1;
    }
    StandingAtEnd(outArray[..], inArray[..], a, used, o, i, f, ratio, k);
    assert outArray[..][..o] == outArray[..o];
    return Some(o);
  }

  method CopyForever(inArray: array<Octet>, used: int, f: nat, outArray: array<Octet>) returns (r: Option<nat>)
    requires 0 < f && used <= inArray.Length
    modifies outArray
    ensures if used <= 0 then r == Some(0) else r.None?
  {
    var o := 0;
    while 0 < used
      invariant o <= outArray.Length && (used <= 0 ==> o == 0)
      decreases outArray.Length - o
    {
      if f > inArray.Length || o + f > outArray.Length { return None; }
      ArrayCopy(inArray, 0, outArray, o, f);
      o := o + f;
    }
    return Some(o);
  }

  /** With room for every frame, downSample and resampleForDownRate write the same bytes. */
  lemma DownConvertersAgree(a: Bytes, b: Bytes, due: seq<Bytes>, f: nat, capacity: nat)
    requires 0 < f && Delivered(a, due, f, capacity) && |due| * f <= capacity
    requires Multiple(|b|, f) && Split(b, f) == due
    ensures a == b
  {
    RoomForAll(a, due, f, capacity);
    JoinSplit(a, f);
    JoinSplit(b, f);
  }
}
