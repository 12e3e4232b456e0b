/**
 Audio frames: one sample of every channel.  What the rate converters compute, as functions on
 sequences of frames, and the laws that hold between them.
 */
module Frames {

  type Octet = b: int | 0 <= b < 256
  type Bytes = seq<Octet>

  function Min(a: nat, b: nat): nat {
    if a < b then a else b
  }

  /** Cuts bytes into whole frames of f bytes; a partial frame at the end is dropped. */
  function Split(x: Bytes, f: nat): seq<Bytes>
    requires 0 < f
    decreases |x|
  {
    if |x| < f then [] else [x[..f]] + Split(x[f..], f)
  }

  function Join(fs: seq<Bytes>): Bytes {
    if fs == [] then [] else fs[0] + Join(fs[1..])
  }

  /** Every r-th frame, starting with the first. */
  function Down(fs: seq<Bytes>, r: nat): seq<Bytes>
    requires 0 < r
    decreases |fs|
  {
    if fs == [] then [] else [fs[0]] + Down(fs[Min(r, |fs|)..], r)
  }

  function Copies(a: Bytes, n: nat): seq<Bytes> {
    seq(n, _ => a)
  }

  /** Every frame r times. */
  function Up(fs: seq<Bytes>, r: nat): seq<Bytes>
    decreases |fs|
  {
    if fs == [] then [] else Copies(fs[0], r) + Up(fs[1..], r)
  }

  /** r frames on the way from a to b. */
  function Group(a: Bytes, b: Bytes, r: nat, mix: (Bytes, Bytes, nat) -> Bytes): seq<Bytes> {
    seq(r, j requires 0 <= j < r => mix(a, b, j))
  }

  /** r frames from each frame to its successor; mix(a, b, j) is the j-th of them. */
  function Between(fs: seq<Bytes>, r: nat, mix: (Bytes, Bytes, nat) -> Bytes): seq<Bytes>
    decreases |fs|
  {
    if |fs| < 2 then [] else Group(fs[0], fs[1], r, mix) + Between(fs[1..], r, mix)
  }

  // ---------- remainders ----------

  lemma AtLeastOne(d: int, m: int)
    requires 0 < m
    ensures d >= 1 ==> d * m >= m
    ensures d <= -1 ==> d * m <= -m
  {
  }

  lemma RemainderIs(v: int, m: int, k: int, r: int)
    requires 0 < m && v == m * k + r && 0 <= r < m
    ensures v % m == r
  {
    var d := v / m - k;
    assert d * m == r - v % m;
    AtLeastOne(d, m);
  }

  // ---------- slices ----------

  lemma SliceOfSlice(x: Bytes, p: nat, f: nat, q: nat, w: nat)
    requires p + f <= |x| && q + w <= f
    ensures x[p..p + f][q..q + w] == x[p + q..p + q + w]
  {
    var y := x[p..p + f];
    var a, b := y[q..q + w], x[p + q..p + q + w];
    forall t | 0 <= t < w ensures a[t] == b[t] { assert y[q + t] == x[p + (q + t)]; }
  }

  lemma SliceOfPrefix(x: Bytes, y: Bytes, n: nat, p: nat, f: nat)
    requires p + f <= n <= |x| && n <= |y| && x[..n] == y[..n]
    ensures x[p..p + f] == y[p..p + f]
  {
    forall k | p <= k < p + f ensures x[k] == y[k] { assert x[..n][k] == y[..n][k]; }
  }

  lemma SliceOfConcat(a: Bytes, b: Bytes, p: nat, w: nat)
    ensures p + w <= |a| ==> (a + b)[p..p + w] == a[p..p + w]
    ensures p == |a| && w == |b| ==> (a + b)[p..p + w] == b
  {
  }

  // ---------- bytes and frames ----------

  lemma {:induction false} SplitJoin(fs: seq<Bytes>, f: nat)
    requires 0 < f && forall k :: 0 <= k < |fs| ==> |fs[k]| == f
    ensures Split(Join(fs), f) == fs
    decreases |fs|
  {
    if fs != [] {
      SplitJoin(fs[1..], f);
      assert Join(fs)[..f] == fs[0] && Join(fs)[f..] == Join(fs[1..]);
    }
  }

  lemma {:induction false} SplitSizes(x: Bytes, f: nat)
    requires 0 < f
    ensures forall k :: 0 <= k < |Split(x, f)| ==> |Split(x, f)[k]| == f
    decreases |x|
  {
    if |x| >= f { SplitSizes(x[f..], f); }
  }

  /** n bytes are a whole number of frames. */
  predicate Multiple(n: int, f: nat)
    requires 0 < f
    decreases n
  {
    n == 0 || (n >= f && Multiple(n - f, f))
  }

  lemma {:induction false} MultipleAdd(n: int, f: nat)
    requires 0 < f && Multiple(n, f)
    ensures Multiple(n + f, f)
  {
  }

  lemma {:induction false} MultipleTimes(k: nat, f: nat)
    requires 0 < f
    ensures 0 <= k * f && Multiple(k * f, f)
  {
    if k > 0 {
      assert k * f == (k - 1) * f + f;
      MultipleTimes(k - 1, f);
    }
  }

  /** One more frame at the end. */
  lemma {:induction false} SplitAppend(x: Bytes, y: Bytes, f: nat)
    requires 0 < f && Multiple(|x|, f) && |y| == f
    ensures Split(x + y, f) == Split(x, f) + [y]
    decreases |x|
  {
    if x == [] {
      assert x + y == y && y[..f] == y && y[f..] == [];
    } else {
      assert (x + y)[..f] == x[..f] && (x + y)[f..] == x[f..] + y;
      SplitAppend(x[f..], y, f);
    }
  }

  /** Whole frames lose nothing by being cut and joined. */
  lemma {:induction false} JoinSplit(x: Bytes, f: nat)
    requires 0 < f && Multiple(|x|, f)
    ensures Join(Split(x, f)) == x
    decreases |x|
  {
    if x != [] {
      JoinSplit(x[f..], f);
      assert x == x[..f] + x[f..];
    }
  }

  lemma {:induction false} SplitLength(x: Bytes, f: nat, n: nat)
    requires 0 < f && n * f <= |x| < n * f + f
    ensures |Split(x, f)| == n
    decreases n
  {
    if n > 0 {
      OneLess(n, f);
      SplitLength(x[f..], f, n - 1);
    }
  }

  lemma OneLess(r: nat, f: nat)
    requires 0 < r
    ensures 0 <= (r - 1) * f && r * f == (r - 1) * f + f
  {
  }

  /** Skipping r frames is skipping r * f bytes, or everything. */
  lemma {:induction false} SplitSkip(x: Bytes, f: nat, r: nat)
    requires 0 < f && Multiple(|x|, f)
    ensures 0 <= r * f
    ensures Split(x, f)[Min(r, |Split(x, f)|)..] == if r * f <= |x| then Split(x[r * f..], f) else []
    ensures r * f <= |x| ==> Multiple(|x| - r * f, f)
    decreases r
  {
    if r == 0 {
      assert r * f == 0 && x[0..] == x;
    } else {
      OneLess(r, f);
      var less := (r - 1) * f;
      if x != [] {
        SplitSkip(x[f..], f, r - 1);
        if less + f <= |x| { assert x[f..][less..] == x[less + f..]; }
      }
    }
  }

  /** Frame k of a buffer, at byte p, and the frames after it. */
  lemma {:induction false} SplitAt(x: Bytes, f: nat, k: nat, p: nat)
    requires 0 < f && p == k * f && p + f <= |x|
    ensures k < |Split(x, f)| && Split(x, f)[k] == x[p..p + f]
    ensures Split(x[p..], f) == Split(x, f)[k..]
    decreases k
  {
    if k > 0 {
      OneLess(k, f);
      SplitAt(x[f..], f, k - 1, p - f);
      assert x[f..][p - f..p] == x[p..p + f] && x[f..][p - f..] == x[p..];
    } else {
      assert p == 0 && x[0..] == x;
    }
  }

  // ---------- which frame comes out where ----------

  lemma {:induction false} DownAtPlace(fs: seq<Bytes>, r: nat, q: nat, p: nat)
    requires 0 < r && p == q * r
    ensures q < |Down(fs, r)| <==> p < |fs|
    ensures p < |fs| ==> Down(fs, r)[q] == fs[p]
    decreases q
  {
    if q > 0 {
      OneLess(q, r);
      if fs != [] { DownAtPlace(fs[Min(r, |fs|)..], r, q - 1, p - r); }
    }
  }

  lemma DownAt(fs: seq<Bytes>, r: nat, q: nat)
    requires 0 < r
    ensures 0 <= q * r && (q < |Down(fs, r)| <==> q * r < |fs|)
    ensures q * r < |fs| ==> Down(fs, r)[q] == fs[q * r]
  {
    NotNegative(q, r);
    DownAtPlace(fs, r, q, q * r);
  }

  lemma NotNegative(a: nat, b: nat)
    ensures 0 <= a * b
  {
  }

  lemma {:induction false} UpAt(fs: seq<Bytes>, r: nat, i: nat, j: nat)
    requires i < |fs| && j < r
    ensures 0 <= i * r + j < |Up(fs, r)| && Up(fs, r)[i * r + j] == fs[i]
    decreases i
  {
    if i > 0 {
      assert (i - 1) * r == i * r - r;
      UpAt(fs[1..], r, i - 1, j);
    } else {
      assert i * r == 0;
    }
  }

  lemma {:induction false} UpLength(fs: seq<Bytes>, r: nat)
    ensures |Up(fs, r)| == |fs| * r
    decreases |fs|
  {
    if fs != [] {
      UpLength(fs[1..], r);
      assert |fs| * r == (|fs| - 1) * r + r;
    }
  }

  lemma {:induction false} BetweenAt(fs: seq<Bytes>, r: nat, mix: (Bytes, Bytes, nat) -> Bytes, i: nat, j: nat)
    requires i + 1 < |fs| && j < r
    ensures 0 <= i * r + j < |Between(fs, r, mix)| && Between(fs, r, mix)[i * r + j] == mix(fs[i], fs[i + 1], j)
    decreases i
  {
    if i > 0 {
      assert (i - 1) * r == i * r - r;
      BetweenAt(fs[1..], r, mix, i - 1, j);
    } else {
      assert i * r == 0;
    }
  }

  lemma {:induction false} BetweenLength(fs: seq<Bytes>, r: nat, mix: (Bytes, Bytes, nat) -> Bytes)
    requires fs != []
    ensures |Between(fs, r, mix)| == (|fs| - 1) * r
    decreases |fs|
  {
    if |fs| >= 2 {
      BetweenLength(fs[1..], r, mix);
      assert (|fs| - 1) * r == (|fs| - 2) * r + r;
    }
  }

  // ---------- laws ----------

  lemma {:induction false} DownSkips(head: seq<Bytes>, rest: seq<Bytes>)
    requires head != []
    ensures Down(head + rest, |head|) == [head[0]] + Down(rest, |head|)
  {
    assert (head + rest)[Min(|head|, |head + rest|)..] == rest;
  }

  /** Repeating each frame r times and keeping every r-th gives the input back. */
  lemma {:induction false} DownUndoesUp(fs: seq<Bytes>, r: nat)
    requires 0 < r
    ensures Down(Up(fs, r), r) == fs
    decreases |fs|
  {
    if fs != [] {
      DownUndoesUp(fs[1..], r);
      DownSkips(Copies(fs[0], r), Up(fs[1..], r));
    }
  }

  /** If interpolation starts on the sample itself, all frames but the last come back. */
  lemma {:induction false} DownUndoesBetween(fs: seq<Bytes>, r: nat, f: nat, mix: (Bytes, Bytes, nat) -> Bytes)
    requires 0 < r && fs != [] && forall k :: 0 <= k < |fs| ==> |fs[k]| == f
    requires forall a, b :: |a| == f && |b| == f ==> mix(a, b, 0) == a
    ensures Down(Between(fs, r, mix), r) == fs[..|fs| - 1]
    decreases |fs|
  {
    if |fs| >= 2 {
      var tail := fs[1..];
      DownUndoesBetween(tail, r, f, mix);
      DownSkips(Group(fs[0], fs[1], r, mix), Between(tail, r, mix));
      assert fs[..|fs| - 1] == [fs[0]] + tail[..|tail| - 1];
    }
  }

  lemma Products(q: nat, r1: nat, r2: nat)
    requires 0 < r1 && 0 < r2
    ensures 0 < r1 * r2 && 0 <= q * r2 && (q * r2) * r1 == q * (r1 * r2)
  {
  }

  lemma ComposeAt(fs: seq<Bytes>, r1: nat, r2: nat, p: nat, q: nat)
    requires 0 < r1 && 0 < r2 && p == r1 * r2 && 0 < p
    ensures q < |Down(Down(fs, r1), r2)| <==> q < |Down(fs, p)|
    ensures q < |Down(fs, p)| ==> Down(Down(fs, r1), r2)[q] == Down(fs, p)[q]
  {
    Products(q, r1, r2);
    var m := q * r2;
    DownAt(Down(fs, r1), r2, q);
    DownAt(fs, r1, m);
    DownAt(fs, p, q);
  }

  /** Downsampling by r1 and then by r2 is downsampling by their product, frame count included. */
  lemma DownCompose(fs: seq<Bytes>, r1: nat, r2: nat, product: nat)
    requires 0 < r1 && 0 < r2 && 0 < product && product == r1 * r2
    ensures Down(Down(fs, r1), r2) == Down(fs, product)
  {
    var twice, direct := Down(Down(fs, r1), r2), Down(fs, product);
    ComposeAt(fs, r1, r2, product, |twice|);
    ComposeAt(fs, r1, r2, product, |direct|);
    forall q | 0 <= q < |twice| ensures twice[q] == direct[q] { ComposeAt(fs, r1, r2, product, q); }
  }
}
