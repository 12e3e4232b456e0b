/**
 upSampleLinear: channel by channel, each output sample is written at its scattered place.  The
 interpolated value is a parameter, because it is floating-point in the code; on a sample it is exact.
 */
module LinearResampling {
  import opened Results
  import opened Frames
  import opened Resampling
  import opened Samples

  function ClampToInt32(v: int): int {
    if v > 0x7FFF_FFFF then 0x7FFF_FFFF else if v < -0x8000_0000 then -0x8000_0000 else v
  }

  /** INT32 results are clamped; the narrower formats are cast. */
  function Narrow(unit: SampleUnit, v: int): int {
    if unit == INT32 then ClampToInt32(v) else v
  }

  lemma Powers()
    ensures Pow256(0) == 1 && Pow256(1) == 0x100 && Pow256(2) == 0x1_0000 && Pow256(4) == 0x1_0000_0000
  {
    assert Pow256(3) == 256 * Pow256(2);
  }

  lemma ReadInRange(b: Bytes)
    requires |b| == 4
    ensures ClampToInt32(ReadLE(b, true)) == ReadLE(b, true)
  {
    UnsignedBound(b);
    Powers();
  }

  /** The values of a sample: a byte without sign, or two's complement; of a float, its bits as an int. */
  predicate InRange(unit: SampleUnit, v: int) {
    match unit
    case INT8 => 0 <= v <= 255
    case INT16 => -0x8000 <= v <= 0x7FFF
    case _ => -0x8000_0000 <= v <= 0x7FFF_FFFF
  }

  /** The bytes of a sample and its values correspond one to one; this fixes size and sign of each format. */
  lemma FormatExactly(unit: SampleUnit, b: Bytes, v: int)
    requires |b| == unit.BytesPerSample() && InRange(unit, v)
    ensures InRange(unit, ReadLE(b, unit.Signed())) && WriteLE(ReadLE(b, unit.Signed()), |b|) == b
    ensures ReadLE(WriteLE(v, |b|), unit.Signed()) == v
  {
    Powers();
    UnsignedBound(b);
    WriteUndoesRead(b, unit.Signed());
    ReadUndoesWrite(v, |b|, unit.Signed());
  }

  // ---------- places ----------

  /** Byte position of channel ch of output frame n, for frames of f bytes and samples of w. */
  function Place(n: nat, ch: nat, f: nat, w: nat): nat {
    if n > 0 then f + Place(n - 1, ch, f, w) else if ch > 0 then w + Place(0, ch - 1, f, w) else 0
  }

  lemma {:induction false} PlaceIs(n: nat, ch: nat, f: nat, w: nat)
    ensures Place(n, ch, f, w) == n * f + ch * w
    decreases n, ch
  {
    if n > 0 {
      PlaceIs(n - 1, ch, f, w);
      OneLess(n, f);
    } else if ch > 0 {
      PlaceIs(0, ch - 1, f, w);
      OneLess(ch, w);
    }
  }

  lemma {:induction false} NextChannel(n: nat, ch: nat, f: nat, w: nat)
    ensures Place(n, ch + 1, f, w) == Place(n, ch, f, w) + w
    decreases n
  {
    if n > 0 { NextChannel(n - 1, ch, f, w); }
  }

  lemma {:induction false} NextFrame(n: nat, c: nat, f: nat, w: nat)
    requires Place(0, c, f, w) == f
    ensures Place(n, c, f, w) == Place(n + 1, 0, f, w)
    decreases n
  {
    if n > 0 { NextFrame(n - 1, c, f, w); }
  }

  lemma {:induction false} ChannelsRise(n: nat, c1: nat, c2: nat, f: nat, w: nat)
    requires c1 <= c2
    ensures Place(n, c1, f, w) <= Place(n, c2, f, w)
    decreases c2
  {
    if c1 < c2 {
      ChannelsRise(n, c1, c2 - 1, f, w);
      NextChannel(n, c2 - 1, f, w);
    }
  }

  lemma {:induction false} FramesRise(n1: nat, n2: nat, ch: nat, f: nat, w: nat)
    requires n1 <= n2
    ensures Place(n1, ch, f, w) <= Place(n2, ch, f, w)
    decreases n2
  {
    if n1 < n2 { FramesRise(n1, n2 - 1, ch, f, w); }
  }

  /** A later frame, or a later channel of the same frame, starts behind the sample. */
  lemma PlacesApart(n1: nat, c1: nat, n2: nat, c2: nat, c: nat, f: nat, w: nat)
    requires Place(0, c, f, w) == f && c1 < c && c2 < c
    requires n1 < n2 || (n1 == n2 && c1 < c2)
    ensures Place(n1, c1, f, w) + w <= Place(n2, c2, f, w)
  {
    NextChannel(n1, c1, f, w);
    if n1 == n2 {
      ChannelsRise(n1, c1 + 1, c2, f, w);
    } else {
      ChannelsRise(n1, c1 + 1, c, f, w);
      NextFrame(n1, c, f, w);
      FramesRise(n1 + 1, n2, 0, f, w);
      ChannelsRise(n2, 0, c2, f, w);
    }
  }

  // ---------- what is written ----------

  /** The fixed parameters of one conversion. */
  datatype Job = Job(unit: SampleUnit, channels: nat, ratio: nat, fs: seq<Bytes>, mix: (int, int, nat) -> int) {

    function W(): nat { unit.BytesPerSample() }

    function F(): nat { W() * channels }

    predicate Ok() {
      0 < channels && 0 < ratio && forall k :: 0 <= k < |fs| ==> |fs[k]| == F()
    }

    /** The value of channel ch of a frame. */
    function Sample(a: Bytes, ch: nat): int
      requires |a| == F() && ch < channels
    {
      PlaceInside(ch, channels, W());
      ReadLE(a[Place(0, ch, F(), W())..Place(0, ch, F(), W()) + W()], unit.Signed())
    }

    /** Channel ch of the j-th frame between a and b. */
    function Piece(a: Bytes, b: Bytes, j: nat, ch: nat): (r: Bytes)
      requires |a| == F() && |b| == F() && ch < channels
      ensures |r| == W()
    {
      WriteLE(Narrow(unit, mix(Sample(a, ch), Sample(b, ch), j)), W())
    }

    function Pieces(a: Bytes, b: Bytes, j: nat, upto: nat): Bytes
      requires |a| == F() && |b| == F() && upto <= channels
    {
      if upto == 0 then [] else Pieces(a, b, j, upto - 1) + Piece(a, b, j, upto - 1)
    }

    function MixFrame(a: Bytes, b: Bytes, j: nat): Bytes {
      if |a| == F() && |b| == F() then Pieces(a, b, j, channels) else a
    }
  }

  lemma OneLessChannel(ch: nat, c: nat, w: nat)
    requires ch < c
    ensures 0 <= ch * w && ch * w + w <= w * c
  {
    MulMonotone(ch + 1, c, w);
  }

  lemma PlaceInside(ch: nat, c: nat, w: nat)
    requires ch < c
    ensures Place(0, ch, w * c, w) + w <= w * c
  {
    PlaceIs(0, ch, w * c, w);
    OneLessChannel(ch, c, w);
  }

  lemma Commute(a: nat, b: nat)
    ensures a * b == b * a
  {
  }

  /** Interpolation starts on the sample. */
  ghost predicate StartsExact(mix: (int, int, nat) -> int) {
    forall x, y :: mix(x, y, 0) == x
  }

  function Mean(a: real, b: real, t: real): real {
    a * (1.0 - t) + b * t
  }

  /** Math.round of the weighted mean, in exact arithmetic. */
  function Interpolate(x: int, y: int, j: nat, r: nat): int
    requires 0 < r
  {
    (Mean(x as real, y as real, j as real / r as real) + 0.5).Floor
  }

  /** The formula of the code starts on the sample, at any ratio. */
  lemma InterpolateStartsExact(r: nat)
    requires 0 < r
    ensures StartsExact((x: int, y: int, j: nat) => Interpolate(x, y, j, r))
  {
    forall x: int, y: int ensures Interpolate(x, y, 0, r) == x { RoundsToItself(x); }
  }

  lemma RoundsToItself(x: int)
    ensures (x as real + 0.5).Floor == x
  {
  }

  lemma RoundBetween(v: real, lo: int, hi: int)
    requires lo as real <= v <= hi as real
    ensures lo <= (v + 0.5).Floor <= hi
  {
  }

  lemma ShareOf(a: real, b: real)
    requires 0.0 <= a <= b && 0.0 < b
    ensures 0.0 <= a / b <= 1.0
  {
  }

  lemma MeanBetween(a: real, b: real, t: real)
    requires a <= b && 0.0 <= t <= 1.0
    ensures a <= Mean(a, b, t) <= b
  {
    var d, u := b - a, 1.0 - t;
    assert 0.0 <= d * t && 0.0 <= d * u;
    assert Mean(a, b, t) == a + d * t && Mean(a, b, t) == b - d * u;
  }

  lemma MeanSwap(a: real, b: real, t: real)
    ensures Mean(a, b, t) == Mean(b, a, 1.0 - t)
  {
  }

  /** It never leaves the range of the two samples, so that neither a cast nor the clamp changes it. */
  lemma InterpolateBetween(x: int, y: int, j: nat, r: nat)
    requires 0 < r && j <= r
    ensures if x <= y then x <= Interpolate(x, y, j, r) <= y else y <= Interpolate(x, y, j, r) <= x
  {
    var a, b, t := x as real, y as real, j as real / r as real;
    ShareOf(j as real, r as real);
    MeanSwap(a, b, t);
    if x <= y {
      MeanBetween(a, b, t);
      RoundBetween(Mean(a, b, t), x, y);
    } else {
      MeanBetween(b, a, 1.0 - t);
      RoundBetween(Mean(a, b, t), y, x);
    }
  }

  lemma MeanTimes(a: real, b: real, j: real, r: real)
    requires 0.0 < r
    ensures Mean(a, b, j / r) * r == a * (r - j) + b * j
  {
    var t := j / r;
    assert t * r == j;
    assert Mean(a, b, t) * r == a * (r - t * r) + b * (t * r);
  }

  lemma ScaleBetween(d: real, r: real)
    requires 0.0 < r && 0.0 <= d < 1.0
    ensures 0.0 <= d * r < r
  {
    assert 0.0 < (1.0 - d) * r;
  }

  lemma ScaleFloor(m: real, v: real, r: real, scaled: real, sum: real)
    requires 0.0 < r && v <= m + 0.5 < v + 1.0 && scaled == r * v && sum == m * r
    ensures 2.0 * scaled <= 2.0 * sum + r < 2.0 * scaled + 2.0 * r
  {
    var d := m + 0.5 - v;
    ScaleBetween(d, r);
    assert d * r == sum + 0.5 * r - scaled;
  }

  lemma ProductAsReal(a: int, b: int)
    ensures (a * b) as real == a as real * b as real
  {
  }

  lemma SumAsReal(x: int, y: int, j: nat, r: nat, sum: int)
    requires sum == x * (r - j) + y * j
    ensures sum as real == x as real * (r as real - j as real) + y as real * j as real
  {
    ProductAsReal(x, r - j);
    ProductAsReal(y, j);
  }

  lemma CompareAsReals(p: int, sum: int, r: int)
    requires 2.0 * (p as real) <= 2.0 * (sum as real) + r as real < 2.0 * (p as real) + 2.0 * (r as real)
    ensures 2 * p <= 2 * sum + r < 2 * p + 2 * r
  {
    var left, middle, right := 2 * p, 2 * sum + r, 2 * p + 2 * r;
    assert left as real == 2.0 * p as real && middle as real == 2.0 * sum as real + r as real;
    assert right as real == 2.0 * p as real + 2.0 * r as real;
  }

  /** The formula gives the integer nearest to the weighted mean sum / r, halves upwards. */
  lemma InterpolateIsNearest(x: int, y: int, j: nat, r: nat, sum: int, scaled: int)
    requires 0 < r && sum == x * (r - j) + y * j && scaled == r * Interpolate(x, y, j, r)
    ensures 2 * scaled <= 2 * sum + r < 2 * scaled + 2 * r
  {
    var v, m := Interpolate(x, y, j, r), Mean(x as real, y as real, j as real / r as real);
    assert v == (m + 0.5).Floor;
    SumAsReal(x, y, j, r, sum);
    MeanTimes(x as real, y as real, j as real, r as real);
    ProductAsReal(r, v);
    ScaleFloor(m, v as real, r as real, scaled as real, sum as real);
    CompareAsReals(scaled, sum, r);
  }

  /** On a sample, the interpolated frame is the frame itself. */
  lemma MixStartsOnSample(job: Job, a: Bytes, b: Bytes)
    requires StartsExact(job.mix)
    ensures job.MixFrame(a, b, 0) == a
  {
    var c, f, w := job.channels, job.F(), job.W();
    if |a| == f && |b| == f {
      PlaceIs(0, c, f, w);
      Commute(c, w);
      PiecesOnSample(job, a, b, c, c, f, w);
      assert a[..|a|] == a;
    }
  }

  lemma PieceOnSample(job: Job, a: Bytes, b: Bytes, ch: nat, f: nat, w: nat)
    requires StartsExact(job.mix)
    requires f == job.F() && w == job.W() && |a| == f && |b| == f && ch < job.channels
    ensures var lo := Place(0, ch, f, w); lo + w <= f && job.Piece(a, b, 0, ch) == a[lo..lo + w]
  {
    PlaceInside(ch, job.channels, w);
    var lo := Place(0, ch, f, w);
    var s := a[lo..lo + w];
    WriteUndoesRead(s, job.unit.Signed());
    if job.unit == INT32 { ReadInRange(s); }
    assert job.Sample(a, ch) == ReadLE(s, job.unit.Signed());
    assert job.mix(job.Sample(a, ch), job.Sample(b, ch), 0) == job.Sample(a, ch);
  }

  lemma {:induction false} PiecesOnSample(job: Job, a: Bytes, b: Bytes, upto: nat, c: nat, f: nat, w: nat)
    requires StartsExact(job.mix)
    requires f == job.F() && w == job.W() && c == job.channels
    requires |a| == f && |b| == f && upto <= c && Place(0, c, f, w) == f
    ensures Place(0, upto, f, w) <= f && job.Pieces(a, b, 0, upto) == a[..Place(0, upto, f, w)]
    decreases upto
  {
    ChannelsRise(0, upto, c, f, w);
    if upto > 0 {
      PiecesOnSample(job, a, b, upto - 1, c, f, w);
      PieceOnSample(job, a, b, upto - 1, f, w);
      NextChannel(0, upto - 1, f, w);
      var lo := Place(0, upto - 1, f, w);
      JoinSlices(a, 0, lo, lo + w);
      assert a[0..lo] == a[..lo] && a[0..lo + w] == a[..lo + w];
    }
  }

  // ---------- writing frames channel by channel ----------

  /** Channel ch of a frame. */
  function PieceAt(frame: Bytes, ch: nat, f: nat, w: nat): Bytes
    requires Place(0, ch, f, w) + w <= |frame|
  {
    frame[Place(0, ch, f, w)..Place(0, ch, f, w) + w]
  }

  /** c samples of w bytes make a frame of f bytes. */
  predicate Layout(c: nat, f: nat, w: nat) {
    Place(0, c, f, w) == f && 0 < w && 0 < f
  }

  lemma ChannelInside(ch: nat, c: nat, f: nat, w: nat)
    requires Layout(c, f, w) && ch < c
    ensures Place(0, ch, f, w) + w <= f
  {
    NextChannel(0, ch, f, w);
    ChannelsRise(0, ch + 1, c, f, w);
  }

  /** If there is room for this sample, it is in place and end is behind it. */
  ghost predicate InPlace(out: Bytes, frame: Bytes, n: nat, ch: nat, f: nat, w: nat, end: nat) {
    var p := Place(n, ch, f, w);
    p + w <= |out| ==>
      p + w <= end && Place(0, ch, f, w) + w <= |frame| && out[p..p + w] == PieceAt(frame, ch, f, w)
  }

  /** end lies within the room and the output, behind one of its samples if it is not 0. */
  ghost predicate EndsAtSample(end: nat, room: nat, total: nat, c: nat, f: nat, w: nat) {
    && end <= room && end <= Place(total, 0, f, w)
    && (end == 0 || exists n: nat, ch: nat :: n < total && ch < c && Place(n, ch, f, w) + w == end)
  }

  /** All channels before ch, and channel ch of the frames before n, are in place. */
  ghost predicate Written(out: Bytes, due: seq<Bytes>, c: nat, f: nat, w: nat, ch: nat, n: nat, end: nat) {
    forall m, k :: 0 <= m < |due| && 0 <= k < c && (k < ch || (k == ch && m < n)) ==>
      InPlace(out, due[m], m, k, f, w, end)
  }

  lemma Undisturbed(out: Bytes, next: Bytes, p: nat, q: nat, w: nat)
    requires |next| == |out| && p + w <= |out| && q + w <= |out| && (p + w <= q || q + w <= p)
    requires next[..p] == out[..p] && next[p + w..] == out[p + w..]
    ensures next[q..q + w] == out[q..q + w]
  {
    if q + w <= p {
      SliceOfSlice(next, 0, p, q, w);
      SliceOfSlice(out, 0, p, q, w);
      assert next[0..p] == next[..p] && out[0..p] == out[..p];
    } else {
      var d := q - (p + w);
      SliceOfDrop(next, p + w, d, w);
      SliceOfDrop(out, p + w, d, w);
    }
  }

  lemma SliceOfDrop(x: Bytes, a: nat, d: nat, w: nat)
    requires a + d + w <= |x|
    ensures x[a..][d..d + w] == x[a + d..a + d + w]
  {
  }

  lemma KeepInPlace(out: Bytes, next: Bytes, frame: Bytes, n: nat, ch: nat, m: nat, k: nat,
                    c: nat, f: nat, w: nat, end: nat, end': nat)
    requires Layout(c, f, w) && ch < c && k < c && (m != n || k != ch) && end <= end'
    requires InPlace(out, frame, m, k, f, w, end) && |next| == |out|
    requires var p := Place(n, ch, f, w);
      p + w <= |out| && next[..p] == out[..p] && next[p + w..] == out[p + w..]
    ensures InPlace(next, frame, m, k, f, w, end')
  {
    hide Place, PieceAt;
    if n < m || (n == m && ch < k) { PlacesApart(n, ch, m, k, c, f, w); } else { PlacesApart(m, k, n, ch, c, f, w); }
    if Place(m, k, f, w) + w <= |out| { Undisturbed(out, next, Place(n, ch, f, w), Place(m, k, f, w), w); }
  }

  lemma WriteOne(out: Bytes, next: Bytes, due: seq<Bytes>, c: nat, f: nat, w: nat, ch: nat, n: nat, end: nat, end': nat)
    requires Layout(c, f, w) && Written(out, due, c, f, w, ch, n, end) && n < |due| && ch < c && |next| == |out|
    requires end <= end' && InPlace(next, due[n], n, ch, f, w, end')
    requires var p := Place(n, ch, f, w);
      p + w <= |out| && next[..p] == out[..p] && next[p + w..] == out[p + w..]
    ensures Written(next, due, c, f, w, ch, n + 1, end')
  {
    forall m, k | 0 <= m < |due| && 0 <= k < c && (k < ch || (k == ch && m < n + 1))
      ensures InPlace(next, due[m], m, k, f, w, end')
    {
      if m != n || k != ch { KeepInPlace(out, next, due[m], n, ch, m, k, c, f, w, end, end'); }
    }
  }

  /** The end of the output is determined: it is the end of the last sample that fits. */
  lemma OneEnd(out: Bytes, due: seq<Bytes>, c: nat, f: nat, w: nat, end: nat, other: nat)
    requires Written(out, due, c, f, w, c, 0, end) && EndsAtSample(end, |out|, |due|, c, f, w)
    requires Written(out, due, c, f, w, c, 0, other) && EndsAtSample(other, |out|, |due|, c, f, w)
    ensures end == other
  {
    if end > 0 {
      var n: nat, ch: nat :| n < |due| && ch < c && Place(n, ch, f, w) + w == end;
      assert InPlace(out, due[n], n, ch, f, w, other);
    }
    if other > 0 {
      var n: nat, ch: nat :| n < |due| && ch < c && Place(n, ch, f, w) + w == other;
      assert InPlace(out, due[n], n, ch, f, w, end);
    }
  }

  /** Once one frame does not fit, the later ones do not either. */
  lemma SkipRest(out: Bytes, due: seq<Bytes>, c: nat, f: nat, w: nat, ch: nat, n: nat, later: nat, end: nat)
    requires Written(out, due, c, f, w, ch, n, end) && n <= later
    requires Place(n, ch, f, w) + w > |out|
    ensures Written(out, due, c, f, w, ch, later, end)
  {
    forall m, k | 0 <= m < |due| && 0 <= k < c && (k < ch || (k == ch && m < later))
      ensures InPlace(out, due[m], m, k, f, w, end)
    {
      if k == ch && n <= m { FramesRise(n, m, ch, f, w); }
    }
  }

  lemma NextColumn(out: Bytes, due: seq<Bytes>, c: nat, f: nat, w: nat, ch: nat, end: nat)
    requires Written(out, due, c, f, w, ch, |due|, end)
    ensures Written(out, due, c, f, w, ch + 1, 0, end)
  {
  }

  /** One more channel of a frame of the output. */
  lemma FrameGrows(out: Bytes, frame: Bytes, p: nat, q: nat, lo: nat, w: nat)
    requires p <= q && q + w <= |out| && lo + w <= |frame|
    requires out[p..q] == frame[..lo] && out[q..q + w] == frame[lo..lo + w]
    ensures out[p..q + w] == frame[..lo + w]
  {
    JoinSlices(out, p, q, q + w);
    JoinSlices(frame, 0, lo, lo + w);
  }

  lemma ChannelWritten(out: Bytes, due: seq<Bytes>, c: nat, f: nat, w: nat, n: nat, ch: nat, end: nat)
    requires Layout(c, f, w) && Written(out, due, c, f, w, c, 0, end) && n < |due| && |due[n]| == f && ch < c
    requires Place(n, ch, f, w) + w <= |out|
    ensures var p, lo := Place(n, ch, f, w), Place(0, ch, f, w); lo + w <= f && out[p..p + w] == due[n][lo..lo + w]
  {
    ChannelInside(ch, c, f, w);
    assert InPlace(out, due[n], n, ch, f, w, end);
  }

  lemma {:induction false} PlaceSplits(n: nat, k: nat, f: nat, w: nat)
    ensures Place(n, k, f, w) == Place(n, 0, f, w) + Place(0, k, f, w)
    decreases k
  {
    if k > 0 {
      PlaceSplits(n, k - 1, f, w);
      NextChannel(n, k - 1, f, w);
      NextChannel(0, k - 1, f, w);
    }
  }

  lemma PlaceInFrame(n: nat, k: nat, c: nat, f: nat, w: nat)
    requires Layout(c, f, w) && k <= c
    ensures Place(0, k, f, w) <= f && Place(n, k, f, w) == Place(n, 0, f, w) + Place(0, k, f, w)
  {
    PlaceSplits(n, k, f, w);
    ChannelsRise(0, k, c, f, w);
  }

  /** With room for everything, channel pieces make up the frames. */
  lemma {:induction false} FrameDone(out: Bytes, due: seq<Bytes>, c: nat, f: nat, w: nat, n: nat, k: nat, end: nat)
    requires Layout(c, f, w) && Written(out, due, c, f, w, c, 0, end)
    requires n < |due| && |due[n]| == f && k <= c && Place(n, 0, f, w) + f <= |out|
    ensures Place(0, k, f, w) <= f && Place(n, k, f, w) == Place(n, 0, f, w) + Place(0, k, f, w)
    ensures out[Place(n, 0, f, w)..Place(n, k, f, w)] == due[n][..Place(0, k, f, w)]
    decreases k
  {
    hide *;
    PlaceInFrame(n, k, c, f, w);
    if k > 0 {
      PlaceInFrame(n, k - 1, c, f, w);
      FrameDone(out, due, c, f, w, n, k - 1, end);
      NextChannel(n, k - 1, f, w);
      NextChannel(0, k - 1, f, w);
      ChannelWritten(out, due, c, f, w, n, k - 1, end);
      FrameGrows(out, due[n], Place(n, 0, f, w), Place(n, k - 1, f, w), Place(0, k - 1, f, w), w);
    }
  }

  lemma JoinSlices(x: Bytes, p: nat, q: nat, r: nat)
    requires p <= q <= r <= |x|
    ensures x[p..r] == x[p..q] + x[q..r]
  {
  }

  lemma {:induction false} AllDone(out: Bytes, due: seq<Bytes>, c: nat, f: nat, w: nat, n: nat, end: nat)
    requires Layout(c, f, w) && Written(out, due, c, f, w, c, 0, end)
    requires forall m :: 0 <= m < |due| ==> |due[m]| == f
    requires n <= |due| && Place(n, 0, f, w) <= |out|
    ensures Multiple(Place(n, 0, f, w), f) && Split(out[..Place(n, 0, f, w)], f) == due[..n]
    decreases n
  {
    if n > 0 {
      var p := Place(n - 1, 0, f, w);
      AllDone(out, due, c, f, w, n - 1, end);
      FrameDone(out, due, c, f, w, n - 1, c, end);
      JoinSlices(out, 0, p, p + f);
      assert due[n - 1][..f] == due[n - 1];
      SplitAppend(out[..p], due[n - 1], f);
      assert due[..n] == due[..n - 1] + [due[n - 1]];
    }
  }

  // ---------- upSampleLinear ----------

  /** The frames that a conversion is to write. */
  ghost function Due(job: Job): seq<Bytes> {
    Between(job.fs, job.ratio, (a, b, j) => job.MixFrame(a, b, j))
  }

  lemma {:induction false} PiecesLength(job: Job, a: Bytes, b: Bytes, j: nat, upto: nat)
    requires |a| == job.F() && |b| == job.F() && upto <= job.channels
    ensures |job.Pieces(a, b, j, upto)| == Place(0, upto, job.F(), job.W())
    decreases upto
  {
    if upto > 0 {
      PiecesLength(job, a, b, j, upto - 1);
      NextChannel(0, upto - 1, job.F(), job.W());
    }
  }

  lemma {:induction false} PiecesAt(job: Job, a: Bytes, b: Bytes, j: nat, upto: nat, ch: nat, f: nat, w: nat)
    requires f == job.F() && w == job.W() && |a| == f && |b| == f && ch < upto <= job.channels
    ensures var p, x := Place(0, ch, f, w), job.Pieces(a, b, j, upto);
      p + w <= |x| && x[p..p + w] == job.Piece(a, b, j, ch)
    decreases upto
  {
    PiecesLength(job, a, b, j, upto - 1);
    var head, last := job.Pieces(a, b, j, upto - 1), job.Piece(a, b, j, upto - 1);
    var p := Place(0, ch, f, w);
    if ch < upto - 1 { PiecesAt(job, a, b, j, upto - 1, ch, f, w); }
    SliceOfConcat(head, last, p, w);
  }

  /** Sizes and places agree: c samples make a frame. */
  lemma JobLayout(job: Job)
    requires job.Ok()
    ensures Layout(job.channels, job.F(), job.W())
  {
    PlaceIs(0, job.channels, job.F(), job.W());
    Commute(job.channels, job.W());
    OneLessChannel(0, job.channels, job.W());
  }

  /** Frame i * ratio + j of the output, and its channel ch. */
  lemma DuePiece(job: Job, i: nat, j: nat, ch: nat)
    requires job.Ok() && i + 1 < |job.fs| && j < job.ratio && ch < job.channels
    ensures 0 <= i * job.ratio + j < |Due(job)|
    ensures var frame := Due(job)[i * job.ratio + j];
      |frame| == job.F() && Place(0, ch, job.F(), job.W()) + job.W() <= |frame|
      && PieceAt(frame, ch, job.F(), job.W()) == job.Piece(job.fs[i], job.fs[i + 1], j, ch)
  {
    BetweenAt(job.fs, job.ratio, (a, b, j) => job.MixFrame(a, b, j), i, j);
    PiecesLength(job, job.fs[i], job.fs[i + 1], j, job.channels);
    PiecesAt(job, job.fs[i], job.fs[i + 1], j, job.channels, ch, job.F(), job.W());
    JobLayout(job);
  }

  /** Writes one sample and moves the end of the used bytes behind it. */
  method WriteSample(outArray: array<Octet>, p: nat, piece: Bytes, end: nat) returns (end': nat)
    requires p + |piece| <= outArray.Length
    modifies outArray
    ensures outArray[..p] == old(outArray[..p]) && outArray[p + |piece|..] == old(outArray[p + |piece|..])
    ensures outArray[p..p + |piece|] == piece
    ensures end' == if p + |piece| > end then p + |piece| else end
  {
    forall k | 0 <= k < |piece| { outArray[p + k] := piece[k]; }
    end' := if p + |piece| > end then p + |piece| else end;
  }

  /** What one interpolated value contributes: channel ch of output frame n. */
  ghost predicate IsSample(job: Job, n: nat, ch: nat, piece: Bytes)
    requires job.Ok()
  {
    && n < |Due(job)| && ch < job.channels && Place(0, ch, job.F(), job.W()) + job.W() <= |Due(job)[n]|
    && piece == PieceAt(Due(job)[n], ch, job.F(), job.W())
  }

  /** Checks the output bound, then writes the sample. */
  method WriteNext(outArray: array<Octet>, outIndex: nat, piece: Bytes, end: nat,
                   ghost job: Job, ghost n: nat, ghost ch: nat) returns (fits: bool, end': nat)
    requires job.Ok() && IsSample(job, n, ch, piece) && outIndex == Place(n, ch, job.F(), job.W())
    requires Written(outArray[..], Due(job), job.channels, job.F(), job.W(), ch, n, end)
    requires EndsAtSample(end, outArray.Length, |Due(job)|, job.channels, job.F(), job.W())
    modifies outArray
    ensures fits <==> outIndex + |piece| <= outArray.Length
    ensures !fits ==> outArray[..] == old(outArray[..]) && end' == end
    ensures fits ==> Written(outArray[..], Due(job), job.channels, job.F(), job.W(), ch, n + 1, end')
    ensures EndsAtSample(end', outArray.Length, |Due(job)|, job.channels, job.F(), job.W())
  {
    if outIndex + |piece| > outArray.Length { return false, end; }
    ghost var before := outArray[..];
    JobLayout(job);
    EndsInside(|Due(job)|, n, ch, job.channels, job.F(), job.W());
    end' := WriteSample(outArray, outIndex, piece, end);
    WriteOne(before, outArray[..], Due(job), job.channels, job.F(), job.W(), ch, n, end, end');
    fits := true;
  }

  /** The innermost loop: ratio samples of one channel between two neighbouring input samples. */
  method WriteGroup(unit: SampleUnit, ratio: nat, f: nat, mix: (int, int, nat) -> int, s1: int, s2: int,
                    i: nat, ch: nat, outArray: array<Octet>, end: nat, ghost job: Job, ghost n: nat) returns (end': nat)
    requires job.Ok() && i + 1 < |job.fs| && ch < job.channels && n == i * ratio
    requires unit == job.unit && ratio == job.ratio && f == job.F() && mix == job.mix
    requires s1 == job.Sample(job.fs[i], ch) && s2 == job.Sample(job.fs[i + 1], ch)
    requires Written(outArray[..], Due(job), job.channels, f, job.W(), ch, n, end)
    requires EndsAtSample(end, outArray.Length, |Due(job)|, job.channels, f, job.W())
    modifies outArray
    ensures Written(outArray[..], Due(job), job.channels, f, job.W(), ch, n + ratio, end')
    ensures EndsAtSample(end', outArray.Length, |Due(job)|, job.channels, f, job.W())
  {
    var w := unit.BytesPerSample();
    end' := end;
    for j := 0 to ratio
      invariant Written(outArray[..], Due(job), job.channels, f, w, ch, n + j, end')
      invariant EndsAtSample(end', outArray.Length, |Due(job)|, job.channels, f, w)
    {
      var outIndex := (i * ratio + j) * f + ch * w;
      PlaceIs(n + j, ch, f, w);
      DuePiece(job, i, j, ch);
      var fits;
      fits, end' := WriteNext(outArray, outIndex, WriteLE(Narrow(unit, mix(s1, s2, j)), w), end', job, n + j, ch);
      if !fits {
        SkipRest(outArray[..], Due(job), job.channels, f, w, ch, n + j, n + ratio, end');
        return;
      }
    }
  }

  /** Where channel ch of frame i lies among the bytes. */
  lemma SampleAt(x: Bytes, job: Job, f: nat, w: nat, i: nat, ch: nat, p: nat, q: nat)
    requires job.Ok() && f == job.F() && w == job.W() && ch < job.channels && 0 < f
    requires i < |x| / f && job.fs == Split(x, f) && p == i * f && q == ch * w
    ensures i < |job.fs| && p + q + w <= |x|
    ensures job.Sample(job.fs[i], ch) == ReadLE(x[p + q..p + q + w], job.unit.Signed())
  {
    FrameInside(x, f, i);
    OneLessChannel(ch, job.channels, w);
    PlaceIs(0, ch, f, w);
    SliceOfSlice(x, p, f, q, w);
  }

  /** Reads one input sample in place. */
  method ReadSample(inArray: array<Octet>, used: nat, unit: SampleUnit, f: nat, i: nat, ch: nat, ghost job: Job)
    returns (v: int)
    requires job.Ok() && unit == job.unit && f == job.F() && ch < job.channels
    requires used <= inArray.Length && i < used / f && job.fs == Split(inArray[..used], f)
    ensures i < |job.fs| && v == job.Sample(job.fs[i], ch)
  {
    var w := unit.BytesPerSample();
    var p, q := i * f, ch * w;
    MulMonotone(0, i, f);
    MulMonotone(0, ch, w);
    SampleAt(inArray[..used], job, f, w, i, ch, p, q);
    var lo := p + q;
    assert inArray[..used][lo..lo + w] == inArray[lo..lo + w];
    v := ReadLE(inArray[lo..lo + w], unit.Signed());
  }

  lemma EndsInside(total: nat, n: nat, ch: nat, c: nat, f: nat, w: nat)
    requires Layout(c, f, w) && n < total && ch < c
    ensures Place(n, ch, f, w) + w <= Place(total, 0, f, w)
  {
    NextChannel(n, ch, f, w);
    ChannelsRise(n, ch + 1, c, f, w);
    NextFrame(n, c, f, w);
    FramesRise(n + 1, total, 0, f, w);
  }

  predicate LinearArgs(inChannels: int, inRate: int, outRate: int, used: int, unit: SampleUnit) {
    inChannels > 0 && inRate > 0 && outRate > 0 && outRate > inRate && outRate % inRate == 0
    && used >= 2 * (unit.BytesPerSample() * inChannels)
  }

  /** The conversion asked for: sizes, ratio, and the whole input frames. */
  ghost predicate JobFor(job: Job, inChannels: int, inRate: int, outRate: int, used: Bytes, unit: SampleUnit) {
    && inRate > 0 && job.Ok() && job.unit == unit && job.channels == inChannels && job.ratio == outRate / inRate
    && job.F() > 0 && job.fs == Split(used, job.F()) && |job.fs| >= 2
  }

  /**
   For every capacity each sample that fits is written, and the used bytes end behind the last of them;
   with room for all of them they are exactly the frames due.
   */
  ghost predicate Outcome(job: Job, out: Bytes, used: int) {
    && job.Ok() && 0 <= used <= |out| && job.F() > 0
    && Written(out, Due(job), job.channels, job.F(), job.W(), job.channels, 0, used)
    && EndsAtSample(used, |out|, |Due(job)|, job.channels, job.F(), job.W())
    && (|out| >= Place(|Due(job)|, 0, job.F(), job.W()) ==> Split(out[..used], job.F()) == Due(job))
  }

  method UpSampleLinear(inBuffer: BufferWrapper, inChannels: int, inRate: int, unit: SampleUnit, outRate: int,
                        outBuffer: BufferWrapper, mix: (int, int, nat) -> int)
    returns (r: Result<(), ResampleError>, ghost job: Job)
    requires inBuffer.Valid() && outBuffer.Valid() && inBuffer.buffer != outBuffer.buffer
    modifies outBuffer, outBuffer.buffer
    ensures outBuffer.Valid()
    ensures r == Err(IllegalArgument) <==> !LinearArgs(inChannels, inRate, outRate, old(inBuffer.bufferUsed), unit)
    ensures r.Err? ==> r.error == IllegalArgument
    ensures r.Ok? ==> job.mix == mix && JobFor(job, inChannels, inRate, outRate, old(inBuffer.Used()), unit)
    ensures r.Ok? ==> Outcome(job, outBuffer.buffer[..], outBuffer.bufferUsed)
  {
    job := Job(unit, 1, 1, [], mix);
    if inChannels <= 0 || inRate <= 0 || outRate <= 0 || outRate <= inRate || outRate % inRate != 0 {
      return Err(IllegalArgument), job;
    }
    var f := unit.BytesPerSample() * inChannels;
    var used := inBuffer.bufferUsed;
    if used >= 0 { AtLeastTwo(used, f); }
    if used < 0 || used / f < 2 { return Err(IllegalArgument), job; }
    SplitCount(inBuffer.buffer[..used], f);
    SplitSizes(inBuffer.buffer[..used], f);
    job := Job(unit, inChannels, outRate / inRate, Split(inBuffer.Used(), f), mix);
    var end := WriteAll(inBuffer.buffer, used, unit, inChannels, outRate / inRate, mix, outBuffer.buffer, job);
    outBuffer.bufferUsed := end;
    WholeOutput(job, outBuffer.buffer[..], end);
    return Ok(()), job;
  }

  lemma AtLeastTwo(used: int, f: nat)
    requires 0 < f && 0 <= used
    ensures used / f >= 2 <==> used >= 2 * f
  {
    var n := used / f;
    assert n * f <= used < n * f + f;
    if n >= 2 { MulMonotone(2, n, f); } else { MulMonotone(n, 1, f); }
  }

  lemma {:induction false} DueSizes(job: Job, n: nat)
    requires job.Ok() && job.fs != [] && n < |Due(job)|
    ensures |Due(job)[n]| == job.F()
  {
    BetweenLength(job.fs, job.ratio, (a, b, j) => job.MixFrame(a, b, j));
    var i, j := n / job.ratio, n % job.ratio;
    assert n == i * job.ratio + j;
    if i + 1 >= |job.fs| { MulMonotone(|job.fs| - 1, i, job.ratio); }
    DuePiece(job, i, j, 0);
  }

  /** With room for all frames, the used bytes are all of them. */
  lemma WholeOutput(job: Job, out: Bytes, end: nat)
    requires job.Ok() && |job.fs| >= 2
    requires EndsAtSample(end, |out|, |Due(job)|, job.channels, job.F(), job.W())
    requires Written(out, Due(job), job.channels, job.F(), job.W(), job.channels, 0, end)
    ensures job.F() > 0
    ensures |out| >= Place(|Due(job)|, 0, job.F(), job.W()) ==> Split(out[..end], job.F()) == Due(job)
  {
    var due, c, f, w := Due(job), job.channels, job.F(), job.W();
    JobLayout(job);
    DuePiece(job, 0, 0, 0);
    if |out| >= Place(|due|, 0, f, w) {
      forall m | 0 <= m < |due| ensures |due[m]| == f { DueSizes(job, m); }
      AllDone(out, due, c, f, w, |due|, end);
      LastSample(out, due, c, f, w, end);
      assert due[..|due|] == due;
    }
  }

  /** The last channel of the last frame ends the output. */
  lemma LastSample(out: Bytes, due: seq<Bytes>, c: nat, f: nat, w: nat, end: nat)
    requires Layout(c, f, w) && due != [] && Written(out, due, c, f, w, c, 0, end)
    requires Place(|due|, 0, f, w) <= |out| && 0 < c
    ensures end >= Place(|due|, 0, f, w)
  {
    var n := |due| - 1;
    NextChannel(n, c - 1, f, w);
    NextFrame(n, c, f, w);
    assert InPlace(out, due[n], n, c - 1, f, w, end);
  }

  lemma DueLength(job: Job)
    requires job.fs != []
    ensures |Due(job)| == (|job.fs| - 1) * job.ratio
  {
    BetweenLength(job.fs, job.ratio, (a, b, j) => job.MixFrame(a, b, j));
  }

  lemma NothingWritten(out: Bytes, due: seq<Bytes>, c: nat, f: nat, w: nat)
    ensures Written(out, due, c, f, w, 0, 0, 0) && EndsAtSample(0, |out|, |due|, c, f, w)
  {
  }

  /** The loop over input samples, for one channel. */
  method WriteColumn(inArray: array<Octet>, used: nat, unit: SampleUnit, f: nat, inSamples: nat, ratio: nat,
                     mix: (int, int, nat) -> int, ch: nat, outArray: array<Octet>, start: nat, ghost job: Job)
    returns (end: nat)
    requires used <= inArray.Length && inArray != outArray && job.Ok() && ch < job.channels
    requires f == job.F() && 0 < f && inSamples == used / f == |job.fs| >= 2
    requires unit == job.unit && ratio == job.ratio && mix == job.mix && job.fs == Split(inArray[..used], f)
    requires EndsAtSample(start, outArray.Length, |Due(job)|, job.channels, f, job.W())
    requires Written(outArray[..], Due(job), job.channels, f, job.W(), ch, 0, start)
    modifies outArray
    ensures EndsAtSample(end, outArray.Length, |Due(job)|, job.channels, f, job.W())
    ensures Written(outArray[..], Due(job), job.channels, f, job.W(), ch + 1, 0, end)
  {
    hide *;
    ghost var x, n := inArray[..used], 0;
    DueLength(job);
    end := start;
    for i := 0 to inSamples - 1
      invariant inArray[..used] == x && EndsAtSample(end, outArray.Length, |Due(job)|, job.channels, f, job.W())
      invariant n == i * ratio
      invariant Written(outArray[..], Due(job), job.channels, f, job.W(), ch, n, end)
    {
      var s1 := ReadSample(inArray, used, unit, f, i, ch, job);
      var s2 := ReadSample(inArray, used, unit, f, i + 1, ch, job);
      end := WriteGroup(unit, ratio, f, mix, s1, s2, i, ch, outArray, end, job, n);
      OneLess(i + 1, ratio);
      n := n + ratio;
    }
    NextColumn(outArray[..], Due(job), job.channels, f, job.W(), ch, end);
  }

  /** The loop over channels. */
  method WriteAll(inArray: array<Octet>, used: nat, unit: SampleUnit, inChannels: nat, ratio: nat,
                  mix: (int, int, nat) -> int, outArray: array<Octet>, ghost job: Job) returns (end: nat)
    requires used <= inArray.Length && inArray != outArray && job.Ok() && job.F() > 0 && used / job.F() == |job.fs| >= 2
    requires job == Job(unit, inChannels, ratio, Split(inArray[..used], job.F()), mix)
    modifies outArray
    ensures EndsAtSample(end, outArray.Length, |Due(job)|, job.channels, job.F(), job.W())
    ensures Written(outArray[..], Due(job), job.channels, job.F(), job.W(), job.channels, 0, end)
  {
    ghost var x := inArray[..used];
    var f := unit.BytesPerSample() * inChannels;
    assert f == job.F();
    NothingWritten(outArray[..], Due(job), inChannels, f, job.W());
    hide *;
    end := 0;
    for ch := 0 to inChannels
      invariant inArray[..used] == x && EndsAtSample(end, outArray.Length, |Due(job)|, inChannels, f, job.W())
      invariant Written(outArray[..], Due(job), inChannels, f, job.W(), ch, 0, end)
    {
      end := WriteColumn(inArray, used, unit, f, used / f, ratio, mix, ch, outArray, end, job);
    }
  }

  /** downSample after upSampleLinear returns all frames but the last. */
  lemma DownUndoesLinear(job: Job)
    requires job.Ok() && job.fs != [] && StartsExact(job.mix)
    ensures Down(Due(job), job.ratio) == job.fs[..|job.fs| - 1]
  {
    forall a, b ensures job.MixFrame(a, b, 0) == a { MixStartsOnSample(job, a, b); }
    DownUndoesBetween(job.fs, job.ratio, job.F(), (a, b, j) => job.MixFrame(a, b, j));
  }

  lemma {:induction false} WithoutLastFrame(x: Bytes, f: nat)
    requires 0 < f && Multiple(|x|, f) && x != []
    ensures |x| >= f && Multiple(|x| - f, f)
    ensures |Split(x, f)| > 0 && Split(x[..|x| - f], f) == Split(x, f)[..|Split(x, f)| - 1]
  {
    var head, last := x[..|x| - f], x[|x| - f..];
    SplitAppend(head, last, f);
    assert head + last == x;
  }

  /**
   On whole frames and with enough room, downSample after upSampleLinear at the same ratio gives back the
   input bytes without the last frame.
   */
  lemma DownUndoesLinearBytes(job: Job, x: Bytes, f: nat, out: Bytes, used: int, down: Bytes, downRoom: nat)
    requires job.Ok() && f == job.F() && 0 < f && StartsExact(job.mix)
    requires Multiple(|x|, f) && x != [] && job.fs == Split(x, f)
    requires Outcome(job, out, used) && |out| >= Place(|Due(job)|, 0, f, job.W())
    requires Delivered(down, Down(Split(out[..used], f), job.ratio), f, downRoom) && |x| - f <= downRoom
    ensures |x| >= f && down == x[..|x| - f]
  {
    WithoutLastFrame(x, f);
    DownUndoesLinear(job);
    var kept := x[..|x| - f];
    SplitTotal(kept, f);
    RoomForAll(down, Split(kept, f), f, downRoom);
    JoinSplit(kept, f);
    JoinSplit(down, f);
  }
}
