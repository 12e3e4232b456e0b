/**
 The native resample routine: 16-bit input of any channel count to 16- or 32-bit output at any rate,
 by repeating or dropping frames.
 */
module NativeResampling {
  import opened Frames
  import opened Resampling
  import opened Samples

  const INT_MAX := 0x7FFF_FFFF

  /** A product of ints; overflow is undefined in C, so each use has to show that there is none. */
  function Times(a: nat, b: nat): nat
    requires a * b <= INT_MAX
  {
    MulMonotone(0, a, b);
    a * b
  }

  /** Output frames after k input frames. */
  function OutCount(k: nat, inRate: nat, outRate: nat): nat
    requires 0 < inRate
  {
    k * outRate / inRate
  }

  /** Input frame from which output frame q is taken: the first k with OutCount(k + 1) > q. */
  function Source(q: nat, inRate: nat, outRate: nat): nat
    requires 0 < inRate && 0 < outRate
  {
    PositiveProduct(q + 1, inRate);
    ((q + 1) * inRate - 1) / outRate
  }

  lemma PositiveProduct(a: nat, b: nat)
    requires 0 < a && 0 < b
    ensures 0 < a * b
  {
  }

  lemma DivBounds(n: nat, d: nat)
    requires 0 < d
    ensures n / d * d <= n < n / d * d + d
  {
  }

  lemma {:induction false} DivIs(n: nat, d: nat, k: nat)
    requires 0 < d && k * d <= n < k * d + d
    ensures n / d == k
  {
    DivBounds(n, d);
    var e := n / d;
    if e < k { MulMonotone(e + 1, k, d); OneLess(e + 1, d); }
    if e > k { MulMonotone(k + 1, e, d); OneLess(k + 1, d); }
  }

  /** Output frame q is written while input frame k is handled, exactly when k is its source. */
  lemma SourceIs(q: nat, k: nat, inRate: nat, outRate: nat)
    requires 0 < inRate && 0 < outRate
    ensures OutCount(k, inRate, outRate) <= q < OutCount(k + 1, inRate, outRate) ==> Source(q, inRate, outRate) == k
  {
    var a, b := k * outRate, (k + 1) * outRate;
    DivBounds(a, inRate);
    DivBounds(b, inRate);
    OneLess(k + 1, outRate);
    PositiveProduct(q + 1, inRate);
    if a / inRate <= q < b / inRate {
      MulMonotone(a / inRate + 1, q + 1, inRate);
      OneLess(a / inRate + 1, inRate);
      MulMonotone(q + 1, b / inRate, inRate);
      DivIs((q + 1) * inRate - 1, outRate, k);
    }
  }

  lemma CountRises(k: nat, inRate: nat, outRate: nat)
    requires 0 < inRate
    ensures OutCount(k, inRate, outRate) <= OutCount(k + 1, inRate, outRate)
  {
    var a, b := k * outRate, (k + 1) * outRate;
    OneLess(k + 1, outRate);
    DivBounds(a, inRate);
    DivBounds(b, inRate);
    if a / inRate > b / inRate {
      MulMonotone(b / inRate + 1, a / inRate, inRate);
      OneLess(b / inRate + 1, inRate);
    }
  }

  // ---------- one output frame ----------

  /** An output sample: the two input bytes, for 32 bits moved into the upper half. */
  function Widen(sample: Bytes, outBit: int): Bytes {
    if outBit == 16 then sample else if outBit == 32 then [0, 0] + sample else []
  }

  /** The sample of the input frame that output channel ch takes. */
  function Channel(ch: nat, inChannels: nat, outChannels: nat): nat
    requires 0 < outChannels
  {
    ch * inChannels / outChannels
  }

  lemma ChannelInRange(ch: nat, inChannels: nat, outChannels: nat)
    requires ch < outChannels && 0 < inChannels
    ensures Channel(ch, inChannels, outChannels) < inChannels
  {
    var n := ch * inChannels;
    DivBounds(n, outChannels);
    assert inChannels * outChannels == outChannels * inChannels;
    var e := n / outChannels;
    if e >= inChannels {
      MulMonotone(inChannels, e, outChannels);
      MulMonotone(ch + 1, outChannels, inChannels);
      OneLess(ch + 1, inChannels);
    }
  }

  /** Channels 0 to upto - 1 of an output frame, taken from an input frame of 16-bit samples. */
  function Remap(frame: Bytes, upto: nat, inChannels: nat, outChannels: nat, outBit: int): Bytes
    requires 0 < inChannels && upto <= outChannels && |frame| == 2 * inChannels
  {
    if upto == 0 then []
    else
      ChannelInRange(upto - 1, inChannels, outChannels);
      var c := Channel(upto - 1, inChannels, outChannels);
      Remap(frame, upto - 1, inChannels, outChannels, outBit) + Widen(frame[2 * c..2 * c + 2], outBit)
  }

  /** Bytes of o output samples. */
  function SampleBytes(o: nat, outBit: int): nat {
    if outBit == 16 then 2 * o else if outBit == 32 then 4 * o else 0
  }

  lemma {:induction false} RemapLength(frame: Bytes, upto: nat, inChannels: nat, outChannels: nat, outBit: int)
    requires 0 < inChannels && upto <= outChannels && |frame| == 2 * inChannels
    ensures |Remap(frame, upto, inChannels, outChannels, outBit)| == SampleBytes(upto, outBit)
    decreases upto
  {
    if upto > 0 {
      RemapLength(frame, upto - 1, inChannels, outChannels, outBit);
      ChannelInRange(upto - 1, inChannels, outChannels);
    }
  }

  /** Input bytes visited: a frame that begins within the input is taken as a whole. */
  function Extent(inLength: nat, inChannels: nat): nat
    requires 0 < inChannels
  {
    2 * RoundUp(inLength / 2, inChannels)
  }

  /** Input frames, the last of which may be cut off by the end of the input. */
  function FrameCount(inLength: nat, inChannels: nat): nat
    requires 0 < inChannels
  {
    Begun(inLength / 2, inChannels)
  }

  /** Frames of f samples that begin among the first samples. */
  function Begun(samples: int, f: nat): nat
    requires 0 < f
    decreases samples
  {
    if samples <= 0 then 0 else 1 + Begun(samples - f, f)
  }

  lemma {:induction false} BegunFrames(samples: int, f: nat)
    requires 0 < f
    ensures RoundUp(samples, f) == Begun(samples, f) * f
    decreases samples
  {
    if 0 < samples {
      BegunFrames(samples - f, f);
      OneLess(Begun(samples, f), f);
    }
  }

  /** The intermediate products stay within int. */
  predicate IntsSuffice(frames: nat, outRate: nat, inChannels: nat, outChannels: nat) {
    frames * outRate <= INT_MAX && ChannelsFit(inChannels, outChannels)
  }

  predicate ChannelsFit(inChannels: nat, outChannels: nat) {
    outChannels * inChannels <= INT_MAX
  }

  /** Output bytes for a number of input frames. */
  function Needed(frames: nat, inRate: nat, outRate: nat, outChannels: nat, outBit: int): nat
    requires 0 < inRate
  {
    SampleBytes(OutCount(frames, inRate, outRate) * outChannels, outBit)
  }

  lemma {:induction false} HalfMultiple(n: nat, f: nat)
    requires 0 < f && Multiple(n, 2 * f)
    ensures n % 2 == 0 && Multiple(n / 2, f)
  {
    if n > 0 { HalfMultiple(n - 2 * f, f); }
  }

  /** Whole input frames: exactly the input. */
  lemma ExtentOfWholeFrames(inLength: nat, inChannels: nat)
    requires 0 < inChannels && Multiple(inLength, 2 * inChannels)
    ensures Extent(inLength, inChannels) == inLength
  {
    HalfMultiple(inLength, inChannels);
    RoundUpFacts(inLength / 2, inChannels);
  }

  /** A conversion: input frames of 16-bit samples, rates, channel counts, output width. */
  datatype Conversion = Conversion(
    fs: seq<Bytes>, inChannels: nat, inRate: nat, outRate: nat, outChannels: nat, outBit: int)
  {
    predicate Ok() {
      0 < inChannels && 0 < inRate && 0 < outRate && 0 < outChannels
      && forall k :: 0 <= k < |fs| ==> |fs[k]| == 2 * inChannels
    }

    /** Number of output frames. */
    function Total(): nat
      requires Ok()
    {
      OutCount(|fs|, inRate, outRate)
    }

    function FrameBytes(): nat { SampleBytes(outChannels, outBit) }

    /** Output frame q. */
    function Frame(q: nat): Bytes
      requires Ok()
    {
      var k := Source(q, inRate, outRate);
      if k < |fs| then Remap(fs[k], outChannels, inChannels, outChannels, outBit) else []
    }

    /** The first n output frames. */
    function Output(n: nat): seq<Bytes>
      requires Ok()
    {
      seq(n, q requires 0 <= q < n => Frame(q))
    }
  }

  lemma {:induction false} JoinAppend(a: seq<Bytes>, b: Bytes)
    ensures Join(a + [b]) == Join(a) + b
    decreases |a|
  {
    if a == [] {
      assert a + [b] == [b] && b + [] == b;
    } else {
      assert (a + [b])[1..] == a[1..] + [b];
      JoinAppend(a[1..], b);
    }
  }

  /** While input frame k is handled, its output frames have their full size. */
  lemma FrameFrom(c: Conversion, q: nat, k: nat)
    requires c.Ok() && k < |c.fs|
    requires OutCount(k, c.inRate, c.outRate) <= q < OutCount(k + 1, c.inRate, c.outRate)
    ensures c.Frame(q) == Remap(c.fs[k], c.outChannels, c.inChannels, c.outChannels, c.outBit)
    ensures |c.Frame(q)| == c.FrameBytes()
    ensures Join(c.Output(q + 1)) == Join(c.Output(q)) + c.Frame(q)
  {
    SourceIs(q, k, c.inRate, c.outRate);
    RemapLength(c.fs[k], c.outChannels, c.inChannels, c.outChannels, c.outBit);
    assert c.Output(q + 1) == c.Output(q) + [c.Frame(q)];
    JoinAppend(c.Output(q), c.Frame(q));
  }

  lemma {:induction false} CountMonotone(c: Conversion, k: nat, m: nat)
    requires c.Ok() && k <= m
    ensures OutCount(k, c.inRate, c.outRate) <= OutCount(m, c.inRate, c.outRate)
    decreases m
  {
    if k < m {
      CountMonotone(c, k, m - 1);
      CountRises(m - 1, c.inRate, c.outRate);
    }
  }

  // ---------- what the bytes of an output sample mean ----------

  lemma {:induction false} JoinAt(fs: seq<Bytes>, f: nat, q: nat, p: nat)
    requires q < |fs| && p == q * f && forall k :: 0 <= k < |fs| ==> |fs[k]| == f
    ensures p + f <= |Join(fs)| && Join(fs)[p..p + f] == fs[q]
    decreases q
  {
    var rest := fs[1..];
    if q > 0 {
      assert forall k :: 0 <= k < |rest| ==> rest[k] == fs[k + 1];
      OneLess(q, f);
      JoinAt(rest, f, q - 1, p - f);
      SkipFirst(fs[0], Join(rest), p - f, f);
    }
  }

  lemma SkipFirst(a: Bytes, b: Bytes, p: nat, f: nat)
    requires |a| == f && p + f <= |b|
    ensures (a + b)[p + f..p + f + f] == b[p..p + f]
  {
  }

  /** Channel ch of an output frame. */
  lemma {:induction false} RemapAt(frame: Bytes, ch: nat, upto: nat, c: Conversion, m: nat)
    requires 0 < c.inChannels && ch < upto <= c.outChannels && |frame| == 2 * c.inChannels
    requires m == Channel(ch, c.inChannels, c.outChannels) && (c.outBit == 16 || c.outBit == 32)
    ensures m < c.inChannels
    ensures var lo, hi := SampleBytes(ch, c.outBit), SampleBytes(ch + 1, c.outBit);
      var x := Remap(frame, upto, c.inChannels, c.outChannels, c.outBit);
      hi <= |x| && x[lo..hi] == Widen(frame[2 * m..2 * m + 2], c.outBit)
    decreases upto
  {
    ChannelInRange(ch, c.inChannels, c.outChannels);
    var n := Channel(upto - 1, c.inChannels, c.outChannels);
    RemapGrows(frame, upto, c, n);
    hide Remap, Channel, Widen;
    var head := Remap(frame, upto - 1, c.inChannels, c.outChannels, c.outBit);
    var last := Widen(frame[2 * n..2 * n + 2], c.outBit);
    SliceOfConcat(head, last, SampleBytes(ch, c.outBit), SampleBytes(ch + 1, c.outBit) - SampleBytes(ch, c.outBit));
    if ch < upto - 1 { RemapAt(frame, ch, upto - 1, c, m); }
  }

  lemma RemapGrows(frame: Bytes, upto: nat, c: Conversion, n: nat)
    requires 0 < c.inChannels && 0 < upto <= c.outChannels && |frame| == 2 * c.inChannels
    requires n == Channel(upto - 1, c.inChannels, c.outChannels) && (c.outBit == 16 || c.outBit == 32)
    ensures n < c.inChannels
    ensures var head := Remap(frame, upto - 1, c.inChannels, c.outChannels, c.outBit);
      var last := Widen(frame[2 * n..2 * n + 2], c.outBit);
      && Remap(frame, upto, c.inChannels, c.outChannels, c.outBit) == head + last
      && |head| == SampleBytes(upto - 1, c.outBit) && |last| == SampleBytes(1, c.outBit)
  {
    ChannelInRange(upto - 1, c.inChannels, c.outChannels);
    RemapLength(frame, upto - 1, c.inChannels, c.outChannels, c.outBit);
  }

  lemma WidenValue(sample: Bytes)
    requires |sample| == 2
    ensures ReadLE([0, 0] + sample, true) == 65536 * ReadLE(sample, true)
  {
    var b := [0, 0] + sample;
    assert b[1..][1..] == sample;
    assert Unsigned(b[1..]) == 256 * Unsigned(sample);
    assert Pow256(4) == 65536 * 65536 && Pow256(2) == 65536 by {
      assert Pow256(2) == 256 * Pow256(1) && Pow256(3) == 256 * Pow256(2) && Pow256(4) == 256 * Pow256(3);
    }
  }

  lemma SourceInside(c: Conversion, q: nat)
    requires c.Ok() && q < c.Total()
    ensures Source(q, c.inRate, c.outRate) < |c.fs|
  {
    var n, all := c.Total(), |c.fs| * c.outRate;
    PositiveProduct(q + 1, c.inRate);
    DivBounds(all, c.inRate);
    MulMonotone(q + 1, n, c.inRate);
    var top := (q + 1) * c.inRate - 1;
    DivBounds(top, c.outRate);
    var k := top / c.outRate;
    if k >= |c.fs| { MulMonotone(|c.fs|, k, c.outRate); }
  }

  /**
   Output sample i, channel ch of output frame q, against the input: its frame is the one that is being
   read when the q-th output falls due, its channel the proportional one, and its value is the input's;
   32-bit output has 16 zero bits below it.
   */
  ghost predicate SampleLaw(out: Bytes, c: Conversion, q: nat, ch: nat, i: nat) {
    && c.Ok() && i == q * c.outChannels + ch
    && (var k := Source(q, c.inRate, c.outRate);
        var m := ch * c.inChannels / c.outChannels;
        && k < |c.fs| && 0 <= m < c.inChannels
        && (var value := ReadLE(c.fs[k][2 * m..2 * m + 2], true);
            && (c.outBit == 16 ==> 2 * i + 2 <= |out| && ReadLE(out[2 * i..2 * i + 2], true) == value)
            && (c.outBit == 32 ==> 4 * i + 4 <= |out| && ReadLE(out[4 * i..4 * i + 4], true) == 65536 * value)))
  }

  lemma Doubled(a: nat, b: nat)
    ensures a * (2 * b) == 2 * (a * b)
  {
  }

  lemma SampleOffset(q: nat, n: nat, ch: nat, i: nat, outBit: int)
    requires i == q * n + ch && (outBit == 16 || outBit == 32)
    ensures q * SampleBytes(n, outBit) + SampleBytes(ch, outBit) == SampleBytes(i, outBit)
    ensures SampleBytes(i + 1, outBit) == SampleBytes(i, outBit) + SampleBytes(1, outBit)
  {
    NotNegative(q, n);
    Doubled(q, n);
    Doubled(q, 2 * n);
  }

  lemma FrameSize(c: Conversion, q: nat)
    requires c.Ok() && q < c.Total()
    ensures |c.Frame(q)| == c.FrameBytes()
  {
    SourceInside(c, q);
    RemapLength(c.fs[Source(q, c.inRate, c.outRate)], c.outChannels, c.inChannels, c.outChannels, c.outBit);
  }

  /** Where output frame q lies. */
  lemma FrameAt(c: Conversion, q: nat, p: nat)
    requires c.Ok() && q < c.Total() && p == q * c.FrameBytes()
    ensures var out, f := Join(c.Output(c.Total())), c.FrameBytes(); p + f <= |out| && out[p..p + f] == c.Frame(q)
  {
    var fs, f := c.Output(c.Total()), c.FrameBytes();
    forall r | 0 <= r < |fs| ensures |fs[r]| == f { FrameSize(c, r); }
    JoinAt(fs, f, q, p);
  }

  /** Where channel ch of output frame q lies, and what it is. */
  lemma SampleAtPlace(c: Conversion, q: nat, ch: nat, i: nat, k: nat, m: nat)
    requires c.Ok() && (c.outBit == 16 || c.outBit == 32) && q < c.Total() && ch < c.outChannels
    requires i == q * c.outChannels + ch && k == Source(q, c.inRate, c.outRate)
    requires m == Channel(ch, c.inChannels, c.outChannels)
    ensures k < |c.fs| && m < c.inChannels
    ensures var out, lo, hi := Join(c.Output(c.Total())), SampleBytes(i, c.outBit), SampleBytes(i + 1, c.outBit);
      hi <= |out| && out[lo..hi] == Widen(c.fs[k][2 * m..2 * m + 2], c.outBit)
  {
    hide Channel, Source, OutCount, Widen;
    SourceInside(c, q);
    var f, out := c.FrameBytes(), Join(c.Output(c.Total()));
    NotNegative(q, f);
    var p := q * f;
    FrameAt(c, q, p);
    RemapAt(c.fs[k], ch, c.outChannels, c, m);
    SampleOffset(q, c.outChannels, ch, i, c.outBit);
    var lo, hi := SampleBytes(ch, c.outBit), SampleBytes(ch + 1, c.outBit);
    FrameSize(c, q);
    SliceOfSlice(out, p, f, lo, hi - lo);
  }

  lemma OutputSamples(c: Conversion, q: nat, ch: nat, i: nat)
    requires c.Ok() && (c.outBit == 16 || c.outBit == 32)
    requires q < c.Total() && ch < c.outChannels && i == q * c.outChannels + ch
    ensures SampleLaw(Join(c.Output(c.Total())), c, q, ch, i)
  {
    var k, m := Source(q, c.inRate, c.outRate), Channel(ch, c.inChannels, c.outChannels);
    SampleAtPlace(c, q, ch, i, k, m);
    WidenValue(c.fs[k][2 * m..2 * m + 2]);
  }

  // ---------- the routine ----------

  /** Puts one sample behind p bytes. */
  method Append(outBuf: array<Octet>, p: nat, sample: Bytes)
    requires p + |sample| <= outBuf.Length
    modifies outBuf
    ensures outBuf[..p + |sample|] == old(outBuf[..p]) + sample
  {
    forall k | 0 <= k < |sample| { outBuf[p + k] := sample[k]; }
  }

  /** One output sample from input sample s, behind o samples. */
  method EmitSample(outBuf: array<Octet>, inBuf: array<Octet>, s: nat, outBit: int, o: nat)
    requires outBuf != inBuf && 2 * s + 2 <= inBuf.Length && SampleBytes(o + 1, outBit) <= outBuf.Length
    requires outBit == 16 || outBit == 32
    modifies outBuf
    ensures outBuf[..SampleBytes(o + 1, outBit)]
         == old(outBuf[..SampleBytes(o, outBit)]) + Widen(inBuf[2 * s..2 * s + 2], outBit)
  {
    var sample := inBuf[2 * s..2 * s + 2];
    if outBit == 16 {
      Append(outBuf, 2 * o, sample);
    } else {
      Append(outBuf, 4 * o, [0, 0] + sample);
    }
  }

  lemma RemapStep(x: Bytes, i: nat, ch: nat, c: nat, inChannels: nat, outChannels: nat, outBit: int)
    requires ch < outChannels && 0 < inChannels && 2 * (i + inChannels) <= |x|
    requires c == Channel(ch, inChannels, outChannels) && c < inChannels
    ensures var frame := x[2 * i..2 * (i + inChannels)];
      Remap(frame, ch + 1, inChannels, outChannels, outBit)
      == Remap(frame, ch, inChannels, outChannels, outBit) + Widen(x[2 * (i + c)..2 * (i + c) + 2], outBit)
  {
    var frame := x[2 * i..2 * (i + inChannels)];
    assert frame[2 * c..2 * c + 2] == x[2 * (i + c)..2 * (i + c) + 2];
  }

  /** ch * inChannels / outChannels, in ints. */
  method SourceChannel(ch: nat, inChannels: nat, outChannels: nat) returns (c: nat)
    requires 0 < inChannels && ch < outChannels && ChannelsFit(inChannels, outChannels)
    ensures c == Channel(ch, inChannels, outChannels) && c < inChannels
  {
    ChannelInRange(ch, inChannels, outChannels);
    MulMonotone(ch, outChannels, inChannels);
    c := Times(ch, inChannels) / outChannels;
  }

  /** One round of the channel loop, whose input channel is c. */
  method EmitChannel(outBuf: array<Octet>, inBuf: array<Octet>, i: nat, c: nat, outBit: int, o: nat,
                     ghost ch: nat, ghost inChannels: nat, ghost outChannels: nat,
                     ghost before: Bytes, ghost frame: Bytes)
    requires 0 < inChannels && ch < outChannels && outBuf != inBuf && 2 * (i + inChannels) <= inBuf.Length
    requires SampleBytes(o + 1, outBit) <= outBuf.Length && (outBit == 16 || outBit == 32)
    requires c == Channel(ch, inChannels, outChannels) && c < inChannels
    requires |frame| == 2 * inChannels && frame == inBuf[2 * i..2 * (i + inChannels)]
    requires outBuf[..SampleBytes(o, outBit)] == before + Remap(frame, ch, inChannels, outChannels, outBit)
    modifies outBuf
    ensures outBuf[..SampleBytes(o + 1, outBit)] == before + Remap(frame, ch + 1, inChannels, outChannels, outBit)
  {
    RemapStep(inBuf[..], i, ch, c, inChannels, outChannels, outBit);
    assert inBuf[..][2 * i..2 * (i + inChannels)] == frame;
    ghost var sample := inBuf[2 * (i + c)..2 * (i + c) + 2];
    assert inBuf[..][2 * (i + c)..2 * (i + c) + 2] == sample;
    Concat3(before, Remap(frame, ch, inChannels, outChannels, outBit), Widen(sample, outBit));
    EmitSample(outBuf, inBuf, i + c, outBit, o);
  }

  /** The loop over output channels, for the input frame that starts at sample i. */
  method EmitFrame(outBuf: array<Octet>, inBuf: array<Octet>, i: nat, inChannels: nat, outChannels: nat, outBit: int,
                   start: nat) returns (o: nat)
    requires 0 < inChannels && 0 < outChannels && outBuf != inBuf && 2 * (i + inChannels) <= inBuf.Length
    requires SampleBytes(start + outChannels, outBit) <= outBuf.Length && ChannelsFit(inChannels, outChannels)
    requires outBit == 16 || outBit == 32
    modifies outBuf
    ensures o == start + outChannels
    ensures outBuf[..SampleBytes(o, outBit)] == old(outBuf[..SampleBytes(start, outBit)])
      + Remap(inBuf[2 * i..2 * (i + inChannels)], outChannels, inChannels, outChannels, outBit)
  {
    ghost var frame, before := inBuf[2 * i..2 * (i + inChannels)], outBuf[..SampleBytes(start, outBit)];
    assert Remap(frame, 0, inChannels, outChannels, outBit) == [];
    hide Remap, ChannelsFit;
    o := start;
    for ch := 0 to outChannels
      invariant o == start + ch && inBuf[2 * i..2 * (i + inChannels)] == frame
      invariant outBuf[..SampleBytes(o, outBit)] == before + Remap(frame, ch, inChannels, outChannels, outBit)
    {
      var c := SourceChannel(ch, inChannels, outChannels);
      EmitChannel(outBuf, inBuf, i, c, outBit, o, ch, inChannels, outChannels, before, frame);
      o := o + 1;
    }
  }

  lemma Concat3(a: Bytes, b: Bytes, c: Bytes)
    ensures a + b + c == a + (b + c)
  {
  }

  /** Everything the first n output frames put into the buffer, o samples of it. */
  ghost predicate Emitted(out: Bytes, o: nat, c: Conversion, n: nat)
    requires c.Ok()
  {
    var bytes := SampleBytes(o, c.outBit);
    o == n * c.outChannels && bytes <= |out| && out[..bytes] == Join(c.Output(n))
  }

  lemma EmittedStep(before: Bytes, next: Bytes, o: nat, c: Conversion, n: nat, k: nat)
    requires c.Ok() && k < |c.fs| && Emitted(before, o, c, n)
    requires OutCount(k, c.inRate, c.outRate) <= n < OutCount(k + 1, c.inRate, c.outRate)
    requires var bytes := SampleBytes(o + c.outChannels, c.outBit);
      bytes <= |next| && next[..bytes] == before[..SampleBytes(o, c.outBit)]
        + Remap(c.fs[k], c.outChannels, c.inChannels, c.outChannels, c.outBit)
    ensures Emitted(next, o + c.outChannels, c, n + 1)
  {
    FrameFrom(c, n, k);
    OneLess(n + 1, c.outChannels);
  }

  lemma RoomForNext(c: Conversion, o: nat, n: nat, room: nat)
    requires c.Ok() && o == n * c.outChannels && n < c.Total()
    requires SampleBytes(c.Total() * c.outChannels, c.outBit) <= room
    ensures SampleBytes(o + c.outChannels, c.outBit) <= room
  {
    MulMonotone(n + 1, c.Total(), c.outChannels);
    OneLess(n + 1, c.outChannels);
  }

  /** The output frames written while input frame k, at sample i, is current. */
  method EmitFrames(outBuf: array<Octet>, inBuf: array<Octet>, i: nat, t: nat, outOffset: nat, start: nat,
                    inChannels: nat, outChannels: nat, outBit: int, ghost c: Conversion, ghost k: nat)
    returns (offset: nat, o: nat)
    requires c.Ok() && k < |c.fs| && outBuf != inBuf && (outBit == 16 || outBit == 32)
    requires ChannelsFit(inChannels, outChannels)
    requires inChannels == c.inChannels && outChannels == c.outChannels && outBit == c.outBit
    requires 2 * (i + inChannels) <= inBuf.Length && inBuf[2 * i..2 * (i + inChannels)] == c.fs[k]
    requires outOffset == OutCount(k, c.inRate, c.outRate) && t == OutCount(k + 1, c.inRate, c.outRate)
    requires Emitted(outBuf[..], start, c, outOffset)
    requires SampleBytes(c.Total() * c.outChannels, c.outBit) <= outBuf.Length
    modifies outBuf
    ensures offset == t && Emitted(outBuf[..], o, c, offset)
  {
    CountRises(k, c.inRate, c.outRate);
    CountMonotone(c, k + 1, |c.fs|);
    offset, o := outOffset, start;
    while offset < t
      invariant outOffset <= offset <= t && Emitted(outBuf[..], o, c, offset)
      invariant inBuf[2 * i..2 * (i + inChannels)] == c.fs[k]
    {
      RoomForNext(c, o, offset, outBuf.Length);
      ghost var before := outBuf[..];
      ghost var n, was := offset, o;
      assert before[..SampleBytes(o, outBit)] == outBuf[..SampleBytes(o, outBit)];
      o := EmitFrame(outBuf, inBuf, i, inChannels, outChannels, outBit, o);
      assert outBuf[..][..SampleBytes(o, outBit)] == outBuf[..SampleBytes(o, outBit)];
      EmittedStep(before, outBuf[..], was, c, n, k);
      offset := offset + 1;
    }
  }

  /**
   For a large enough buffer and numbers within the range of int: the number of bytes is the floor of F
   times the rate ratio, times the frame size, for F input frames; and the bytes are output frames 0, 1,
   2, ..., each taken from its source frame and channel.  Any other output width writes nothing.
   */
  method Resample(outBuf: array<Octet>, inBuf: array<Octet>, inLength: nat, inChannels: nat,
                  inRate: nat, outRate: nat, outChannels: nat, outBit: int) returns (bytes: nat, ghost c: Conversion)
    requires 0 < inChannels && 0 < inRate && 0 < outRate && 0 < outChannels && outBuf != inBuf
    requires Extent(inLength, inChannels) <= inBuf.Length <= INT_MAX && outBuf.Length <= INT_MAX
    requires IntsSuffice(FrameCount(inLength, inChannels), outRate, inChannels, outChannels)
    requires Needed(FrameCount(inLength, inChannels), inRate, outRate, outChannels, outBit) <= outBuf.Length
    modifies outBuf
    ensures c == Conversion(Split(old(inBuf[..Extent(inLength, inChannels)]), 2 * inChannels),
                            inChannels, inRate, outRate, outChannels, outBit)
    ensures c.Ok() && |c.fs| == FrameCount(inLength, inChannels)
    ensures outBit == 16 || outBit == 32 ==>
      bytes == Needed(FrameCount(inLength, inChannels), inRate, outRate, outChannels, outBit) && bytes <= outBuf.Length
      && outBuf[..bytes] == Join(c.Output(c.Total()))
    ensures outBit == 16 || outBit == 32 ==> forall q: nat, ch: nat, i: nat
      :: q < c.Total() && ch < outChannels && i == q * outChannels + ch ==> SampleLaw(outBuf[..bytes], c, q, ch, i)
    ensures outBit != 16 && outBit != 32 ==> bytes == 0 && outBuf[..] == old(outBuf[..])
  {
    ghost var extent := Extent(inLength, inChannels);
    c := Conversion(Split(inBuf[..extent], 2 * inChannels), inChannels, inRate, outRate, outChannels, outBit);
    FramesOf(inBuf[..extent], inLength, inChannels);
    StartOf(c, outBuf[..]);
    var o := HandleAll(outBuf, inBuf, inLength / 2, inChannels, inRate, outRate, outChannels, outBit, c, extent);
    EndOf(c, outBuf[..], old(outBuf[..]), o);
    bytes := if outBit == 32 then Times(o, 4) else Times(o, 2);
    AllSamples(c);
  }

  lemma AllSamples(c: Conversion)
    requires c.Ok()
    ensures c.outBit == 16 || c.outBit == 32 ==> forall q: nat, ch: nat, i: nat
      :: q < c.Total() && ch < c.outChannels && i == q * c.outChannels + ch
         ==> SampleLaw(Join(c.Output(c.Total())), c, q, ch, i)
  {
    if c.outBit == 16 || c.outBit == 32 {
      forall q: nat, ch: nat, i: nat | q < c.Total() && ch < c.outChannels && i == q * c.outChannels + ch
        ensures SampleLaw(Join(c.Output(c.Total())), c, q, ch, i)
      {
        OutputSamples(c, q, ch, i);
      }
    }
  }

  /** The input frames of a buffer cut off at its extent. */
  lemma FramesOf(x: Bytes, inLength: nat, inChannels: nat)
    requires 0 < inChannels && |x| == Extent(inLength, inChannels)
    ensures var fs := Split(x, 2 * inChannels);
      && |fs| == FrameCount(inLength, inChannels) && RoundUp(inLength / 2, inChannels) == |fs| * inChannels
      && forall k :: 0 <= k < |fs| ==> |fs[k]| == 2 * inChannels
  {
    var k, f := FrameCount(inLength, inChannels), 2 * inChannels;
    BegunFrames(inLength / 2, inChannels);
    Doubled(k, inChannels);
    SplitLength(x, f, k);
    SplitSizes(x, f);
  }

  /** All input frames handled: how many bytes have been written, and which. */
  lemma EndOf(c: Conversion, out: Bytes, start: Bytes, o: nat)
    requires c.Ok() && AfterInput(out, start, o, c, |c.fs|, c.Total())
    ensures c.outBit == 16 || c.outBit == 32 ==>
      var bytes := SampleBytes(o, c.outBit);
      && bytes == Needed(|c.fs|, c.inRate, c.outRate, c.outChannels, c.outBit) && bytes <= |out|
      && out[..bytes] == Join(c.Output(c.Total()))
    ensures c.outBit != 16 && c.outBit != 32 ==> o == 0 && out == start
  {
  }

  lemma StartOf(c: Conversion, out: Bytes)
    requires c.Ok()
    ensures AfterInput(out, out, 0, c, 0, 0)
  {
    DivIs(0, c.inRate, 0);
  }

  /** inOffset * outRate / inRate, in ints. */
  method OutputsAfter(inOffset: nat, inRate: nat, outRate: nat, ghost frames: nat) returns (t: nat)
    requires 0 < inRate && inOffset <= frames && frames * outRate <= INT_MAX
    ensures t == OutCount(inOffset, inRate, outRate)
  {
    MulMonotone(inOffset, frames, outRate);
    t := Times(inOffset, outRate) / inRate;
  }

  /** The outer loop. */
  method HandleAll(outBuf: array<Octet>, inBuf: array<Octet>, samples: nat, inChannels: nat, inRate: nat, outRate: nat,
                   outChannels: nat, outBit: int, ghost c: Conversion, ghost extent: nat) returns (o: nat)
    requires outBuf != inBuf && extent <= inBuf.Length && AfterInput(outBuf[..], outBuf[..], 0, c, 0, 0)
    requires c.inChannels == inChannels && c.inRate == inRate && c.outRate == outRate
    requires c.outChannels == outChannels && c.outBit == outBit
    requires c.fs == Split(inBuf[..extent], 2 * inChannels) && RoundUp(samples, inChannels) == |c.fs| * inChannels
    requires IntsSuffice(|c.fs|, outRate, inChannels, outChannels)
    requires SampleBytes(c.Total() * outChannels, outBit) <= outBuf.Length
    modifies outBuf
    ensures AfterInput(outBuf[..], old(outBuf[..]), o, c, |c.fs|, c.Total())
  {
    ghost var x, start := inBuf[..extent], outBuf[..];
    assert c.Ok() && ChannelsFit(inChannels, outChannels) && |c.fs| * outRate <= INT_MAX;
    hide *;
    var outOffset, inOffset, i := 0, 0, 0;
    o := 0;
    NextSample(|c.fs|, 0, inChannels, samples);
    while i < samples
      invariant i == inOffset * inChannels && (i < samples <==> inOffset < |c.fs|)
      invariant inBuf[..extent] == x && AfterInput(outBuf[..], start, o, c, inOffset, outOffset)
      decreases samples - i
    {
      FrameAtSample(x, inChannels, inOffset, i);
      ghost var lo, hi := 2 * i, 2 * (i + inChannels);
      assert inBuf[..extent][lo..hi] == inBuf[lo..hi];
      inOffset := inOffset + 1;
      var t := OutputsAfter(inOffset, inRate, outRate, |c.fs|);
      outOffset, o :=
        HandleInput(outBuf, inBuf, i, t, outOffset, o, inChannels, outChannels, outBit, c, inOffset - 1, start);
      NextSample(|c.fs|, inOffset, inChannels, samples);
      i := i + inChannels;
    }
    CountAtEnd(outBuf[..], start, o, c, inOffset, outOffset);
  }

  /** After k input frames: n output frames have been counted and, at a known width, written. */
  ghost predicate AfterInput(out: Bytes, start: Bytes, o: nat, c: Conversion, k: nat, n: nat) {
    && c.Ok() && k <= |c.fs| && n == OutCount(k, c.inRate, c.outRate)
    && (c.outBit == 16 || c.outBit == 32 ==> Emitted(out, o, c, n))
    && (c.outBit != 16 && c.outBit != 32 ==> o == 0 && out == start)
  }

  lemma CountAtEnd(out: Bytes, start: Bytes, o: nat, c: Conversion, k: nat, n: nat)
    requires c.Ok() && AfterInput(out, start, o, c, k, n)
    ensures k <= |c.fs| && (k == |c.fs| ==> n == c.Total())
  {
  }

  /** One round of the outer loop. */
  method HandleInput(outBuf: array<Octet>, inBuf: array<Octet>, i: nat, t: nat, outOffset: nat, start: nat,
                     inChannels: nat, outChannels: nat, outBit: int,
                     ghost c: Conversion, ghost k: nat, ghost out0: Bytes)
    returns (offset: nat, o: nat)
    requires k < |c.fs| && outBuf != inBuf && AfterInput(outBuf[..], out0, start, c, k, outOffset)
    requires inChannels == c.inChannels && outChannels == c.outChannels && outBit == c.outBit
    requires 2 * (i + inChannels) <= inBuf.Length && inBuf[2 * i..2 * (i + inChannels)] == c.fs[k]
    requires t == OutCount(k + 1, c.inRate, c.outRate) && ChannelsFit(inChannels, outChannels)
    requires SampleBytes(c.Total() * c.outChannels, c.outBit) <= outBuf.Length
    modifies outBuf
    ensures offset == t && AfterInput(outBuf[..], out0, o, c, k + 1, t)
  {
    if outBit == 16 || outBit == 32 {
      offset, o := EmitFrames(outBuf, inBuf, i, t, outOffset, start, inChannels, outChannels, outBit, c, k);
    } else {
      CountRises(k, c.inRate, c.outRate);
      offset, o := t, start;
    }
  }

  lemma FrameAtSample(x: Bytes, inChannels: nat, k: nat, i: nat)
    requires 0 < inChannels && i == k * inChannels && k < |Split(x, 2 * inChannels)|
    ensures 2 * (i + inChannels) <= |x| && Split(x, 2 * inChannels)[k] == x[2 * i..2 * (i + inChannels)]
  {
    SplitCount(x, 2 * inChannels);
    FrameInside(x, 2 * inChannels, k);
    assert k * (2 * inChannels) == 2 * i;
  }

  lemma NextSample(frames: nat, k: nat, inChannels: nat, samples: nat)
    requires 0 < inChannels && k <= frames && RoundUp(samples, inChannels) == frames * inChannels
    ensures 0 < k ==> k * inChannels == (k - 1) * inChannels + inChannels
    ensures k * inChannels < samples <==> k < frames
  {
    RoundUpFacts(samples, inChannels);
    if 0 < k { OneLess(k, inChannels); }
    if k < frames {
      MulMonotone(k + 1, frames, inChannels);
      OneLess(k + 1, inChannels);
    }
  }

  // ---------- against the Java converters ----------

  lemma {:induction false} RemapSame(frame: Bytes, upto: nat, channels: nat)
    requires 0 < channels && upto <= channels && |frame| == 2 * channels
    ensures Remap(frame, upto, channels, channels, 16) == frame[..2 * upto]
    decreases upto
  {
    if upto > 0 {
      RemapSame(frame, upto - 1, channels);
      var ch := upto - 1;
      ChannelInRange(ch, channels, channels);
      DivIs(ch * channels, channels, ch);
      assert frame[..2 * upto] == frame[..2 * ch] + frame[2 * ch..2 * ch + 2];
    }
  }

  /** 16 bits to 16 bits with the same channels: output frame q is its source frame. */
  lemma PlainFrame(c: Conversion, q: nat)
    requires c.Ok() && c.outBit == 16 && c.outChannels == c.inChannels
    requires Source(q, c.inRate, c.outRate) < |c.fs|
    ensures c.Frame(q) == c.fs[Source(q, c.inRate, c.outRate)]
  {
    var frame := c.fs[Source(q, c.inRate, c.outRate)];
    RemapSame(frame, c.inChannels, c.inChannels);
    assert frame[..|frame|] == frame;
  }

  lemma CountOfMultiple(i: nat, k: nat, inRate: nat)
    requires 0 < inRate
    ensures 0 <= k * inRate && OutCount(i, inRate, k * inRate) == i * k
  {
    assert i * (k * inRate) == (i * k) * inRate;
    DivIs(i * (k * inRate), inRate, i * k);
  }

  lemma SourceOfMultiple(c: Conversion, k: nat, q: nat, i: nat, p: nat)
    requires c.Ok() && 0 < k && c.outRate == k * c.inRate && p == i * k && p <= q < p + k
    ensures Source(q, c.inRate, c.outRate) == i
  {
    CountOfMultiple(i, k, c.inRate);
    CountOfMultiple(i + 1, k, c.inRate);
    OneLess(i + 1, k);
    SourceIs(q, i, c.inRate, c.outRate);
  }

  lemma UpFrame(c: Conversion, k: nat, q: nat)
    requires c.Ok() && c.outBit == 16 && c.outChannels == c.inChannels && 0 < k && c.outRate == k * c.inRate
    requires q < |Up(c.fs, k)|
    ensures c.Frame(q) == Up(c.fs, k)[q]
  {
    var i, p := q / k, q / k * k;
    DivBounds(q, k);
    UpLength(c.fs, k);
    if i >= |c.fs| { MulMonotone(|c.fs|, i, k); }
    SourceOfMultiple(c, k, q, i, p);
    PlainFrame(c, q);
    UpAt(c.fs, k, i, q - p);
  }

  /** At k times the input rate, native resample writes what upSampleSimple writes. */
  lemma NativeAgreesWithUpSimple(c: Conversion, k: nat)
    requires c.Ok() && c.outBit == 16 && c.outChannels == c.inChannels && 0 < k && c.outRate == k * c.inRate
    ensures c.Output(c.Total()) == Up(c.fs, k)
  {
    var n := c.Total();
    CountOfMultiple(|c.fs|, k, c.inRate);
    UpLength(c.fs, k);
    forall q | 0 <= q < n ensures c.Output(n)[q] == Up(c.fs, k)[q] {
      UpFrame(c, k, q);
    }
  }

  /** The same on bytes: with room for everything, both write the same. */
  lemma NativeBytesAgree(c: Conversion, x: Bytes, f: nat, k: nat, native: Bytes, up: Bytes, upRoom: nat)
    requires c.Ok() && c.outBit == 16 && c.outChannels == c.inChannels && 0 < k && c.outRate == k * c.inRate
    requires f == INT16.BytesPerSample() * c.inChannels && c.fs == Split(x, f) && native == Join(c.Output(c.Total()))
    requires Delivered(up, Up(c.fs, k), f, upRoom) && |Up(c.fs, k)| * f <= upRoom
    ensures native == up
  {
    NativeAgreesWithUpSimple(c, k);
    RoomForAll(up, Up(c.fs, k), f, upRoom);
    JoinSplit(up, f);
  }

  lemma TotalOfFraction(f: nat, r: nat, outRate: nat)
    requires 0 < r && 0 < outRate
    ensures 0 < r * outRate && OutCount(f, r * outRate, outRate) == f / r
  {
    PositiveProduct(r, outRate);
    DivBounds(f, r);
    var m := f / r;
    var p, d := m * r, r * outRate;
    Products(m, outRate, r);
    ScaledBetween(p, f, p + r, outRate);
    Spread(p, r, outRate);
    DivIs(f * outRate, d, m);
  }

  lemma ScaledBetween(a: nat, b: nat, c: nat, f: nat)
    requires a <= b < c && 0 < f
    ensures a * f <= b * f < c * f
  {
    MulMonotone(a, b, f);
    MulMonotone(b + 1, c, f);
    OneLess(b + 1, f);
  }

  lemma LastSource(q: nat, r: nat, outRate: nat, p: nat)
    requires 0 < r && 0 < outRate && p == q * r
    ensures 0 < r * outRate && Source(q, r * outRate, outRate) == p + r - 1
  {
    PositiveProduct(r, outRate);
    PositiveProduct(q + 1, r * outRate);
    OneLess(q + 1, r);
    Products(q + 1, outRate, r);
    OneLess(p + r, outRate);
    DivIs((q + 1) * (r * outRate) - 1, outRate, p + r - 1);
  }

  /** At an r-th of the input rate, native resample keeps the last of every r frames, downSample the first. */
  lemma NativeKeepsLast(c: Conversion, r: nat, q: nat, p: nat)
    requires c.Ok() && c.outBit == 16 && c.outChannels == c.inChannels && 0 < r && c.inRate == r * c.outRate
    requires q < c.Total() && p == q * r
    ensures p + r <= |c.fs| && q < |c.Output(c.Total())| && c.Output(c.Total())[q] == c.fs[p + r - 1]
    ensures q < |Down(c.fs, r)| && Down(c.fs, r)[q] == c.fs[p]
  {
    TotalOfFraction(|c.fs|, r, c.outRate);
    FrameFits(|c.fs|, r, q);
    LastSource(q, r, c.outRate, p);
    PlainFrame(c, q);
    DownAt(c.fs, r, q);
  }
}
