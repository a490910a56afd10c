/** `smoothing.py`: joining poses at their closest frames.

    Between two consecutive poses, the best connection point is the pair of
    frames (one near the end of the first pose, one near the start of the
    second) at the smallest distance. Each pose is cut between the matched
    frame of its predecessor and its own matched frame, every pose but the
    last gets zero padding, the bodies are joined, interpolated and smoothed.

    Distances are squared Euclidean distances between integer coordinate
    vectors, which have the same minimum as the Euclidean ones. Window sizes
    and the padding count use exact rationals; interpolation and the
    Savitzky-Golay filter are uninterpreted functions. */
module Smoothing {
  import opened Wrappers
  import opened PyStrings
  import opened Poses

  /** The search window, as a fraction of a second or of the pose. */
  const WINDOW: real := 0.3

  /** The padding between poses, in seconds. */
  const PADDING_TIME: real := 0.2

  // ---------------------------------------------------------------------
  // Rounding

  /** `math.ceil`. */
  function Ceil(x: real): int {
    -((-x).Floor)
  }

  lemma CeilSpec(x: real)
    ensures x <= Ceil(x) as real < x + 1.0
  {
  }

  /** `int(x)`: truncation toward zero. */
  function Trunc(x: real): int {
    if x >= 0.0 then x.Floor else -((-x).Floor)
  }

  lemma TruncSpec(x: real)
    ensures x >= 0.0 ==> 0 <= Trunc(x) && Trunc(x) as real <= x < Trunc(x) as real + 1.0
    ensures x < 0.0 ==> Trunc(x) <= 0 && x <= Trunc(x) as real < x + 1.0
  {
  }

  function MinReal(a: real, b: real): real {
    if a <= b then a else b
  }

  // ---------------------------------------------------------------------
  // find_best_connection_point

  /** `ceil(min(window * fps, len * window))`. */
  function WindowSize(fps: real, len: nat): int {
    Ceil(MinReal(WINDOW * fps, len as real * WINDOW))
  }

  /** A window never exceeds the pose, and two windows of one pose do not
      overlap past one frame; it is positive exactly for a positive frame
      rate and a non-empty pose. */
  lemma WindowSizeBounds(fps: real, len: nat)
    ensures WindowSize(fps, len) <= len
    ensures 2 * WindowSize(fps, len) <= len + 1
    ensures WindowSize(fps, len) >= 1 <==> fps > 0.0 && len > 0
  {
    var m := MinReal(WINDOW * fps, len as real * WINDOW);
    CeilSpec(m);
    CeilSpec(len as real * WINDOW);
    assert m <= len as real * WINDOW;
  }

  /** The squared Euclidean distance of two coordinate vectors. */
  function SqDist(a: seq<int>, b: seq<int>): (r: int)
    ensures r >= 0
  {
    if a == [] || b == [] then 0
    else (a[0] - b[0]) * (a[0] - b[0]) + SqDist(a[1..], b[1..])
  }

  /** The squared distance of two people's points, point by point. */
  function PersonDist(x: seq<seq<int>>, y: seq<seq<int>>): (r: int)
    ensures r >= 0
  {
    if x == [] || y == [] then 0 else SqDist(x[0], y[0]) + PersonDist(x[1..], y[1..])
  }

  /** The squared distance of two frames, person by person. */
  function PeopleDist(x: Frame, y: Frame): (r: int)
    ensures r >= 0
  {
    if x == [] || y == [] then 0 else PersonDist(x[0], y[0]) + PeopleDist(x[1..], y[1..])
  }

  /** Concatenation of a sequence of sequences. */
  /** `frame.reshape(-1)`: the coordinates of a frame, person by person and
      point by point. */
  function FlatFrame(f: Frame): seq<int> {
    Flatten(seq(|f|, q requires 0 <= q < |f| => Flatten(f[q])))
  }

  /** The squared distance of two frames as `cdist` takes it: the squared
      Euclidean distance of the flattened frames. */
  function FrameDist(x: Frame, y: Frame): (r: int)
    ensures r >= 0
  {
    SqDist(FlatFrame(x), FlatFrame(y))
  }

  /** The trailing dimensions of a body's data array: people, points per
      person and coordinates per point. Every frame of the array has them,
      and slicing the array keeps them even when no frame is left. */
  datatype Shape = Shape(people: nat, points: nat, dims: nat)

  /** A frame of that shape. */
  predicate HasShape(f: Frame, s: Shape) {
    |f| == s.people
    && forall q :: 0 <= q < |f| ==> |f[q]| == s.points && forall p :: 0 <= p < |f[q]| ==> |f[q][p]| == s.dims
  }

  /** The shape of a frame, read off its first person and first point. */
  function FrameShape(f: Frame): Shape {
    Shape(|f|, if |f| > 0 then |f[0]| else 0, if |f| > 0 && |f[0]| > 0 then |f[0][0]| else 0)
  }

  /** The shape of a body's frames. A body without frames has none to read;
      the search below refuses such a body before shapes matter. */
  function ShapeOf(b: Body): Shape {
    if |b.data| > 0 then FrameShape(b.data[0]) else Shape(0, 0, 0)
  }

  /** The number of columns `reshape(len, -1)` gives a frame of that shape. */
  function Width(s: Shape): nat {
    s.people * s.points * s.dims
  }

  lemma {:induction false} FlattenUniform<T>(x: seq<seq<T>>, n: nat)
    requires forall i :: 0 <= i < |x| ==> |x[i]| == n
    ensures |Flatten(x)| == |x| * n
    decreases |x|
  {
    if x != [] {
      FlattenUniform(x[1..], n);
      assert |x| * n == n + (|x| - 1) * n;
    }
  }

  /** A frame of a shape flattens to a vector of its width. */
  lemma FlatFrameWidth(f: Frame, s: Shape)
    requires HasShape(f, s)
    ensures |FlatFrame(f)| == Width(s)
  {
    var rows := seq(|f|, q requires 0 <= q < |f| => Flatten(f[q]));
    forall q | 0 <= q < |f|
      ensures |rows[q]| == s.points * s.dims
    {
      FlattenUniform(f[q], s.dims);
    }
    FlattenUniform(rows, s.points * s.dims);
    assert FlatFrame(f) == Flatten(rows);
    MulAssoc(s.people, s.points, s.dims);
  }

  lemma MulAssoc(a: nat, b: nat, c: nat)
    ensures a * (b * c) == a * b * c
  {
  }

  /** Sequences of sequences of the same lengths. */
  predicate SameShape<T>(x: seq<seq<T>>, y: seq<seq<T>>) {
    |x| == |y| && forall q :: 0 <= q < |x| ==> |x[q]| == |y[q]|
  }

  /** The distance splits over concatenations of equal-length parts. */
  lemma {:induction false} SqDistConcat(a: seq<int>, b: seq<int>, c: seq<int>, d: seq<int>)
    requires |a| == |c|
    ensures SqDist(a + b, c + d) == SqDist(a, c) + SqDist(b, d)
    decreases |a|
  {
    if a == [] {
      assert a + b == b && c + d == d;
    } else {
      SqDistConcat(a[1..], b, c[1..], d);
      assert (a + b)[0] == a[0] && (c + d)[0] == c[0];
      assert (a + b)[1..] == a[1..] + b && (c + d)[1..] == c[1..] + d;
    }
  }

  lemma {:induction false} FlattenLength<T>(x: seq<seq<T>>, y: seq<seq<T>>)
    requires SameShape(x, y)
    ensures |Flatten(x)| == |Flatten(y)|
    decreases |x|
  {
    if x != [] {
      FlattenLength(x[1..], y[1..]);
    }
  }

  lemma {:induction false} PersonDistFlat(x: seq<seq<int>>, y: seq<seq<int>>)
    requires SameShape(x, y)
    ensures PersonDist(x, y) == SqDist(Flatten(x), Flatten(y))
    decreases |x|
  {
    if x != [] {
      PersonDistFlat(x[1..], y[1..]);
      SqDistConcat(x[0], Flatten(x[1..]), y[0], Flatten(y[1..]));
    }
  }

  /** For frames of one shape, the distance of the flattened frames, which
      `cdist` takes the root of, is the sum of the people's distances. */
  lemma {:induction false} FrameDistByPerson(x: Frame, y: Frame)
    requires |x| == |y| && forall q :: 0 <= q < |x| ==> SameShape(x[q], y[q])
    ensures FrameDist(x, y) == PeopleDist(x, y)
    decreases |x|
  {
    if x != [] {
      FrameDistByPerson(x[1..], y[1..]);
      PersonDistFlat(x[0], y[0]);
      FlattenLength(x[0], y[0]);
      FlatFrameCons(x);
      FlatFrameCons(y);
      SqDistConcat(Flatten(x[0]), FlatFrame(x[1..]), Flatten(y[0]), FlatFrame(y[1..]));
    }
  }

  /** A frame's coordinates are its first person's, then the rest's. */
  lemma FlatFrameCons(x: Frame)
    requires x != []
    ensures FlatFrame(x) == Flatten(x[0]) + FlatFrame(x[1..])
  {
    var fx := seq(|x|, q requires 0 <= q < |x| => Flatten(x[q]));
    assert fx[1..] == seq(|x| - 1, q requires 0 <= q < |x| - 1 => Flatten(x[1..][q]));
  }

  /** `cdist(last_vectors, first_vectors)`, squared: row `a`, column `b`
      holds the distance between frames `d1[lo + a]` and `d2[b]`. */
  function DistanceMatrix(d1: seq<Frame>, lo: nat, hi: nat, d2: seq<Frame>, cols: nat): (m: seq<seq<int>>)
    requires lo <= hi <= |d1| && cols <= |d2|
    ensures |m| == hi - lo && forall a :: 0 <= a < |m| ==> |m[a]| == cols
  {
    seq(hi - lo, a requires 0 <= a < hi - lo =>
      seq(cols, b requires 0 <= b < cols => FrameDist(d1[lo + a], d2[b])))
  }

  /** A matrix with rows of `cols` entries. */
  predicate IsMatrix(m: seq<seq<int>>, cols: nat) {
    forall a :: 0 <= a < |m| ==> |m[a]| == cols
  }

  /** `np.argmin`: the first position of the smallest element. */
  function ArgMin(s: seq<int>): (r: nat)
    requires |s| > 0
    ensures r < |s|
  {
    if |s| == 1 then 0
    else
      var k := ArgMin(s[..|s| - 1]);
      if s[|s| - 1] < s[k] then |s| - 1 else k
  }

  /** The position found holds a smallest element, and every element before
      it is larger. */
  lemma {:induction false} ArgMinSpec(s: seq<int>)
    requires |s| > 0
    ensures forall k :: 0 <= k < |s| ==> s[ArgMin(s)] <= s[k]
    ensures forall k :: 0 <= k < ArgMin(s) ==> s[ArgMin(s)] < s[k]
    decreases |s|
  {
    if |s| > 1 {
      var prev := s[..|s| - 1];
      ArgMinSpec(prev);
      assert forall k :: 0 <= k < |s| - 1 ==> prev[k] == s[k];
    }
  }

  /** Entry `(i, j)` is a smallest entry of the matrix, and smaller than
      every entry before it in row-major order. */
  predicate IsFirstMin(m: seq<seq<int>>, cols: nat, i: nat, j: nat)
    requires IsMatrix(m, cols) && i < |m| && j < cols
  {
    (forall a, b :: 0 <= a < |m| && 0 <= b < cols ==> m[i][j] <= m[a][b])
    && (forall a, b :: 0 <= a < |m| && 0 <= b < cols && (a < i || (a == i && b < j)) ==> m[i][j] < m[a][b])
  }

  /** `np.unravel_index(np.argmin(m), m.shape)`: row and column of the first
      smallest entry in row-major order, found row by row. */
  function ArgMin2(m: seq<seq<int>>, cols: nat): (r: (nat, nat))
    requires |m| > 0 && cols > 0 && IsMatrix(m, cols)
    ensures r.0 < |m| && r.1 < cols
    decreases |m|
  {
    var n := |m|;
    var c := ArgMin(m[n - 1]);
    if n == 1 then (0, c)
    else
      var (i, j) := ArgMin2(m[..n - 1], cols);
      if m[n - 1][c] < m[i][j] then (n - 1, c) else (i, j)
  }

  /** The entry found is the first smallest one. */
  lemma {:induction false} ArgMin2Spec(m: seq<seq<int>>, cols: nat)
    requires |m| > 0 && cols > 0 && IsMatrix(m, cols)
    ensures IsFirstMin(m, cols, ArgMin2(m, cols).0, ArgMin2(m, cols).1)
    decreases |m|
  {
    var n := |m|;
    ArgMinSpec(m[n - 1]);
    if n > 1 {
      var prev := m[..n - 1];
      ArgMin2Spec(prev, cols);
      var (i, j) := ArgMin2(prev, cols);
      assert forall a :: 0 <= a < n - 1 ==> prev[a] == m[a];
    }
  }

  /** `pose1.body.data[len(pose1.body.data) - p1_size:]` starts at this
      frame. */
  function LastStart(b: Body): (r: nat)
    ensures r <= |b.data|
  {
    SliceBound(|b.data| - WindowSize(b.fps, |b.data|), |b.data|)
  }

  /** `pose2.body.data[:p2_size]` has this many frames. */
  function FirstCount(b: Body): (r: nat)
    ensures r <= |b.data|
  {
    SliceBound(WindowSize(b.fps, |b.data|), |b.data|)
  }

  /** `find_best_connection_point(pose1, pose2)`: the index in `pose1` and
      the index in `pose2` of the closest pair of window frames;
      `ValueError` when a window is empty, and the `ValueError` of `cdist`
      when the two poses' frames flatten to vectors of different lengths. */
  function FindBestConnectionPoint(b1: Body, b2: Body): (r: Result<(int, int)>)
    ensures r.Err? ==> r.error == ValueError
  {
    var lo := LastStart(b1);
    var cols := FirstCount(b2);
    if lo == |b1.data| || cols == 0 then Err(ValueError)
    else if Width(ShapeOf(b1)) != Width(ShapeOf(b2)) then Err(ValueError)
    else
      var (i, j) := ArgMin2(DistanceMatrix(b1.data, lo, |b1.data|, b2.data, cols), cols);
      Ok((|b1.data| - WindowSize(b1.fps, |b1.data|) + i, j))
  }

  /** The end window is the last `p1_size` frames when `p1_size` is
      positive and empty otherwise; the start window is the first `p2_size`
      frames for a positive frame rate. */
  lemma WindowsSpec(b: Body)
    ensures var w := WindowSize(b.fps, |b.data|);
      (w >= 1 ==> LastStart(b) == |b.data| - w) && (w < 1 ==> LastStart(b) == |b.data|)
    ensures b.fps > 0.0 ==> FirstCount(b) == WindowSize(b.fps, |b.data|)
  {
    WindowSizeBounds(b.fps, |b.data|);
  }

  /** Where the connection point lies: the first index in the end window of
      `pose1`, the second in the start window of `pose2`. */
  lemma SeamBounds(b1: Body, b2: Body)
    requires FindBestConnectionPoint(b1, b2).Ok?
    ensures var (e, s) := FindBestConnectionPoint(b1, b2).value;
      var w1 := WindowSize(b1.fps, |b1.data|);
      1 <= w1 && b1.fps > 0.0
      && |b1.data| - w1 <= e < |b1.data| && 0 <= s < FirstCount(b2) <= |b2.data|
      && (b2.fps > 0.0 ==> s < WindowSize(b2.fps, |b2.data|))
  {
    WindowsSpec(b1);
    WindowsSpec(b2);
    WindowSizeBounds(b1.fps, |b1.data|);
  }

  /** The connection point is the closest pair of a frame of the end window
      of `pose1` and a frame of the start window of `pose2`, and no pair
      earlier in row-major order is as close. */
  lemma SeamIsClosest(b1: Body, b2: Body)
    requires FindBestConnectionPoint(b1, b2).Ok?
    ensures var p := FindBestConnectionPoint(b1, b2).value;
      LastStart(b1) <= p.0 < |b1.data| && 0 <= p.1 < FirstCount(b2)
    ensures var p := FindBestConnectionPoint(b1, b2).value;
      ClosestAt(b1.data, LastStart(b1), b2.data, FirstCount(b2), p.0, p.1)
  {
    SeamAt(b1, b2);
    var p := FindBestConnectionPoint(b1, b2).value;
    ClosestPair(b1.data, LastStart(b1), b2.data, FirstCount(b2), p.0, p.1);
  }

  /** The connection point is the first smallest entry of the distance
      matrix, its row counted from the start of the end window. */
  lemma SeamAt(b1: Body, b2: Body)
    requires FindBestConnectionPoint(b1, b2).Ok?
    ensures LastStart(b1) < |b1.data| && 0 < FirstCount(b2)
    ensures var r := ArgMin2(DistanceMatrix(b1.data, LastStart(b1), |b1.data|, b2.data, FirstCount(b2)), FirstCount(b2));
      FindBestConnectionPoint(b1, b2).value.0 == LastStart(b1) + r.0
      && FindBestConnectionPoint(b1, b2).value.1 == r.1
  {
    var w := WindowSize(b1.fps, |b1.data|);
    WindowsSpec(b1);
    assert LastStart(b1) == |b1.data| - w;
  }

  /** Frames `d1[e]` and `d2[s]` are the closest pair of a frame of
      `d1[lo..]` and one of `d2[..cols]`, and no pair earlier in row-major
      order is as close. */
  predicate ClosestAt(d1: seq<Frame>, lo: nat, d2: seq<Frame>, cols: nat, e: nat, s: nat)
    requires e < |d1| && s < cols <= |d2|
  {
    forall a, b :: lo <= a < |d1| && 0 <= b < cols ==>
      && FrameDist(d1[e], d2[s]) <= FrameDist(d1[a], d2[b])
      && (a < e || (a == e && b < s) ==> FrameDist(d1[e], d2[s]) < FrameDist(d1[a], d2[b]))
  }

  /** The first smallest entry of the distance matrix is the closest pair. */
  lemma ClosestPair(d1: seq<Frame>, lo: nat, d2: seq<Frame>, cols: nat, e: int, s: int)
    requires lo < |d1| && 0 < cols <= |d2|
    requires var r := ArgMin2(DistanceMatrix(d1, lo, |d1|, d2, cols), cols);
      e == lo + r.0 && s == r.1
    ensures 0 <= e < |d1| && 0 <= s < cols && ClosestAt(d1, lo, d2, cols, e, s)
  {
    var m := DistanceMatrix(d1, lo, |d1|, d2, cols);
    ArgMin2Spec(m, cols);
    forall a, b | lo <= a < |d1| && 0 <= b < cols
      ensures && FrameDist(d1[e], d2[s]) <= FrameDist(d1[a], d2[b])
              && (a < e || (a == e && b < s) ==> FrameDist(d1[e], d2[s]) < FrameDist(d1[a], d2[b]))
    {
      CloserThan(d1, lo, d2, cols, e, s, a, b);
    }
  }

  /** The first smallest entry against the pair `(a, b)`. */
  lemma CloserThan(d1: seq<Frame>, lo: nat, d2: seq<Frame>, cols: nat, e: nat, s: nat, a: nat, b: nat)
    requires lo <= e < |d1| && s < cols <= |d2| && lo <= a < |d1| && b < cols
    requires IsFirstMin(DistanceMatrix(d1, lo, |d1|, d2, cols), cols, e - lo, s)
    ensures FrameDist(d1[e], d2[s]) <= FrameDist(d1[a], d2[b])
    ensures a < e || (a == e && b < s) ==> FrameDist(d1[e], d2[s]) < FrameDist(d1[a], d2[b])
  {
    var m := DistanceMatrix(d1, lo, |d1|, d2, cols);
    assert m[e - lo][s] <= m[a - lo][b];
    DistanceEntry(d1, lo, d2, cols, a - lo, b);
    DistanceEntry(d1, lo, d2, cols, e - lo, s);
  }

  lemma DistanceEntry(d1: seq<Frame>, lo: nat, d2: seq<Frame>, cols: nat, a: nat, b: nat)
    requires lo + a < |d1| && b < cols <= |d2|
    ensures DistanceMatrix(d1, lo, |d1|, d2, cols)[a][b] == FrameDist(d1[lo + a], d2[b])
  {
  }

  /** With a positive frame rate, the search fails exactly when a pose has
      no frames, so that its window is empty, or when the frames of the two
      poses have different widths. */
  lemma FindBestConnectionPointFails(b1: Body, b2: Body)
    requires b1.fps > 0.0 && b2.fps > 0.0
    ensures FindBestConnectionPoint(b1, b2).Err?
      <==> |b1.data| == 0 || |b2.data| == 0 || Width(ShapeOf(b1)) != Width(ShapeOf(b2))
  {
    WindowsSpec(b1);
    WindowsSpec(b2);
    WindowSizeBounds(b1.fps, |b1.data|);
    WindowSizeBounds(b2.fps, |b2.data|);
  }

  // ---------------------------------------------------------------------
  // The cut of each pose

  /** A way of finding the seam between two poses. The plan below is
      stated for any finder; the smoothing uses `FindBestConnectionPoint`. */
  type SeamFinder = (Body, Body) -> Result<(int, int)>

  /** The first `m` seams, searched in order; the first seam that cannot be
      found ends the search with its error. */
  function Seams(bodies: seq<Body>, m: nat, find: SeamFinder): (r: Result<seq<(int, int)>>)
    requires m < |bodies|
    ensures r.Ok? ==> |r.value| == m
  {
    if m == 0 then Ok([])
    else
      var prev :- Seams(bodies, m - 1, find);
      var seam :- find(bodies[m - 1], bodies[m]);
      Ok(prev + [seam])
  }

  /** Seam `k` is the first that cannot be found. */
  predicate FirstMissing(bodies: seq<Body>, k: nat, find: SeamFinder)
    requires k + 1 < |bodies|
  {
    find(bodies[k], bodies[k + 1]).Err? && forall j :: 0 <= j < k ==> find(bodies[j], bodies[j + 1]).Ok?
  }

  /** The seams are found exactly when every seam is, and are those seams;
      otherwise the error is that of the first seam not found. */
  lemma SeamsSpec(bodies: seq<Body>, m: nat, find: SeamFinder)
    requires m < |bodies|
    ensures Seams(bodies, m, find).Ok? <==> forall k :: 0 <= k < m ==> find(bodies[k], bodies[k + 1]).Ok?
    ensures Seams(bodies, m, find).Ok? ==>
      forall k :: 0 <= k < m ==> find(bodies[k], bodies[k + 1]) == Ok(Seams(bodies, m, find).value[k])
    ensures Seams(bodies, m, find).Err? ==>
      exists k :: 0 <= k < m && FirstMissing(bodies, k, find) && find(bodies[k], bodies[k + 1]) == Err(Seams(bodies, m, find).error)
  {
    SeamsFound(bodies, m, find);
    SeamsMissing(bodies, m, find);
  }

  lemma {:induction false} SeamsFound(bodies: seq<Body>, m: nat, find: SeamFinder)
    requires m < |bodies|
    ensures Seams(bodies, m, find).Ok? <==> forall k :: 0 <= k < m ==> find(bodies[k], bodies[k + 1]).Ok?
    ensures Seams(bodies, m, find).Ok? ==>
      forall k :: 0 <= k < m ==> find(bodies[k], bodies[k + 1]) == Ok(Seams(bodies, m, find).value[k])
    decreases m
  {
    if m > 0 {
      SeamsFound(bodies, m - 1, find);
      var r := Seams(bodies, m, find);
      var prev := Seams(bodies, m - 1, find);
      if prev.Ok? && r.Ok? {
        assert r.value == prev.value + [find(bodies[m - 1], bodies[m]).value];
      }
    }
  }

  lemma {:induction false} SeamsMissing(bodies: seq<Body>, m: nat, find: SeamFinder)
    requires m < |bodies|
    ensures Seams(bodies, m, find).Err? ==>
      exists k :: 0 <= k < m && FirstMissing(bodies, k, find) && find(bodies[k], bodies[k + 1]) == Err(Seams(bodies, m, find).error)
    decreases m
  {
    if m > 0 {
      var r := Seams(bodies, m, find);
      var prev := Seams(bodies, m - 1, find);
      if prev.Err? {
        SeamsMissing(bodies, m - 1, find);
      } else if r.Err? {
        SeamsFound(bodies, m - 1, find);
        assert find(bodies[m - 1], bodies[m]) == Err(r.error);
        assert FirstMissing(bodies, m - 1, find);
      }
    }
  }

  /** Once a seam is missing, searching further changes nothing. */
  lemma {:induction false} SeamsStayFailed(bodies: seq<Body>, m: nat, m': nat, find: SeamFinder)
    requires m <= m' < |bodies| && Seams(bodies, m, find).Err?
    ensures Seams(bodies, m', find) == Seams(bodies, m, find)
    decreases m' - m
  {
    if m < m' {
      SeamsStayFailed(bodies, m, m' - 1, find);
    }
  }

  /** The `[start, end)` cut of pose `k`: it starts where the seam with the
      previous pose enters it (the first pose at 0), and ends where the seam
      with the next pose leaves it (the last pose at its length). */
  function CutOf(bodies: seq<Body>, seams: seq<(int, int)>, k: nat): (int, int)
    requires k < |bodies| && k <= |seams| && (k < |bodies| - 1 ==> k < |seams|)
  {
    (if k == 0 then 0 else seams[k - 1].1,
     if k == |bodies| - 1 then |bodies[k].data| else seams[k].0)
  }

  /** The cuts of all poses, or the error of the first seam that cannot be
      found. */
  function Plan(bodies: seq<Body>, find: SeamFinder): (r: Result<seq<(int, int)>>)
    requires |bodies| > 0
    ensures r.Ok? ==> |r.value| == |bodies|
  {
    var seams :- Seams(bodies, |bodies| - 1, find);
    Ok(seq(|bodies|, k requires 0 <= k < |bodies| => CutOf(bodies, seams, k)))
  }

  /** One more seam. */
  lemma SeamsStep(bodies: seq<Body>, m: nat, seams: seq<(int, int)>, find: SeamFinder)
    requires m + 1 < |bodies| && Seams(bodies, m, find) == Ok(seams)
    ensures find(bodies[m], bodies[m + 1]).Err? ==> Seams(bodies, m + 1, find) == Err(find(bodies[m], bodies[m + 1]).error)
    ensures find(bodies[m], bodies[m + 1]).Ok? ==> Seams(bodies, m + 1, find) == Ok(seams + [find(bodies[m], bodies[m + 1]).value])
  {
  }

  /** A failed search fails the plan with its error. */
  lemma PlanFailsFrom(bodies: seq<Body>, m: nat, find: SeamFinder)
    requires m < |bodies| && Seams(bodies, m, find).Err?
    ensures Plan(bodies, find) == Err(Seams(bodies, m, find).error)
  {
    SeamsStayFailed(bodies, m, |bodies| - 1, find);
  }

  /** All seams found: the plan is the cut of every pose. */
  lemma PlanOfSeams(bodies: seq<Body>, seams: seq<(int, int)>, find: SeamFinder)
    requires |bodies| > 0 && Seams(bodies, |bodies| - 1, find) == Ok(seams)
    ensures Plan(bodies, find).Ok?
    ensures forall k :: 0 <= k < |bodies| ==> Plan(bodies, find).value[k] == CutOf(bodies, seams, k)
  {
  }

  /** How many seams are found before the first that cannot be: the largest
      `r <= m` whose seams are all found. */
  function FoundSeams(bodies: seq<Body>, m: nat, find: SeamFinder): (r: nat)
    requires m < |bodies|
    ensures r <= m && Seams(bodies, r, find).Ok?
    ensures r < m ==> Seams(bodies, r + 1, find).Err?
  {
    if Seams(bodies, m, find).Ok? then m else FoundSeams(bodies, m - 1, find)
  }

  lemma {:induction false} FoundSeamsAt(bodies: seq<Body>, i: nat, m: nat, find: SeamFinder)
    requires i < m < |bodies| && Seams(bodies, i, find).Ok? && Seams(bodies, i + 1, find).Err?
    ensures FoundSeams(bodies, m, find) == i
    decreases m
  {
    SeamsStayFailed(bodies, i + 1, m, find);
    if m > i + 1 {
      FoundSeamsAt(bodies, i, m - 1, find);
    }
  }

  /** The bodies the cutting loop leaves when a seam cannot be found: the
      poses before it cut by the seams found, the others as they were. */
  function CutsBeforeFailure(bodies: seq<Body>, find: SeamFinder): (r: seq<Body>)
    requires |bodies| > 0 && Plan(bodies, find).Err?
    ensures |r| == |bodies|
  {
    var k := FoundSeams(bodies, |bodies| - 1, find);
    CutBefore(bodies, Seams(bodies, k, find).value, k)
  }

  /** The poses before `k` cut by the seams, the others as they were. */
  function CutBefore(bodies: seq<Body>, seams: seq<(int, int)>, k: nat): (r: seq<Body>)
    requires k == |seams| && k + 1 < |bodies|
    ensures |r| == |bodies|
  {
    seq(|bodies|, j requires 0 <= j < |bodies| => if j < k then CutBody(bodies, seams, j) else bodies[j])
  }

  /** The failure state of a search that found `i` seams. */
  lemma CutsBeforeFailureAt(bodies: seq<Body>, find: SeamFinder, i: nat, seams: seq<(int, int)>)
    requires i + 1 < |bodies| && Seams(bodies, i, find) == Ok(seams) && Seams(bodies, i + 1, find).Err?
    ensures Plan(bodies, find).Err?
    ensures CutsBeforeFailure(bodies, find) == CutBefore(bodies, seams, i)
  {
    FoundSeamsAt(bodies, i, |bodies| - 1, find);
    PlanFailsFrom(bodies, i + 1, find);
  }

  /** When the seam after pose `k` is the first that cannot be found, the
      plan fails, the poses before `k` are cut between the seams around
      them, and pose `k` and the later ones are left as they were. */
  lemma CutsBeforeFailureSpec(bodies: seq<Body>, find: SeamFinder, k: nat)
    requires k + 1 < |bodies| && FirstMissing(bodies, k, find)
    ensures Plan(bodies, find).Err?
    ensures forall j :: k <= j < |bodies| ==> CutsBeforeFailure(bodies, find)[j] == bodies[j]
    ensures forall j :: 0 <= j < k ==>
      CutsBeforeFailure(bodies, find)[j]
        == SliceBody(bodies[j], if j == 0 then 0 else find(bodies[j - 1], bodies[j]).value.1,
                     find(bodies[j], bodies[j + 1]).value.0)
  {
    SeamsFound(bodies, k, find);
    var seams := Seams(bodies, k, find).value;
    assert Seams(bodies, k + 1, find).Err?;
    CutsBeforeFailureAt(bodies, find, k, seams);
    forall j | 0 <= j < k
      ensures CutsBeforeFailure(bodies, find)[j]
        == SliceBody(bodies[j], if j == 0 then 0 else find(bodies[j - 1], bodies[j]).value.1,
                     find(bodies[j], bodies[j + 1]).value.0)
    {
      assert CutsBeforeFailure(bodies, find)[j] == CutBody(bodies, seams, j);
    }
  }

  /** Pose `k` cut by the seams found so far. */
  function CutBody(bodies: seq<Body>, seams: seq<(int, int)>, k: nat): Body
    requires k < |bodies| && k <= |seams| && (k < |bodies| - 1 ==> k < |seams|)
  {
    var c := CutOf(bodies, seams, k);
    SliceBody(bodies[k], c.0, c.1)
  }

  /** The bodies while the poses are being cut: the first `i` cut by the
      seams found so far, the rest as they were. */
  ghost predicate CutsSoFar(bodies: seq<Body>, seams: seq<(int, int)>, cur: seq<Body>, i: nat) {
    |cur| == |bodies| && i <= |bodies| && i <= |seams| + 1 && (i < |bodies| ==> i <= |seams|)
    && (forall k :: 0 <= k < i ==> cur[k] == CutBody(bodies, seams, k))
    && (forall k :: i <= k < |cur| ==> cur[k] == bodies[k])
  }

  /** Pose `i` cut from where the previous seam enters it to where the next
      seam leaves it (or its end, for the last pose). */
  lemma CutsSoFarStep(bodies: seq<Body>, seams: seq<(int, int)>, seams': seq<(int, int)>, cur: seq<Body>, i: nat,
                      start: int, end: int)
    requires CutsSoFar(bodies, seams, cur, i) && i < |bodies|
    requires |seams| <= |seams'| && seams'[..|seams|] == seams
    requires i <= |seams'| && (i < |bodies| - 1 ==> i < |seams'|)
    requires start == if i == 0 then 0 else seams'[i - 1].1
    requires end == if i == |bodies| - 1 then |bodies[i].data| else seams'[i].0
    ensures CutsSoFar(bodies, seams', cur[i := SliceBody(bodies[i], start, end)], i + 1)
  {
    var cur' := cur[i := SliceBody(bodies[i], start, end)];
    forall k | 0 <= k < i + 1
      ensures cur'[k] == CutBody(bodies, seams', k)
    {
      if k < i {
        assert seams'[k] == seams[k] by { assert k < |seams|; }
        if k > 0 {
          assert seams'[k - 1] == seams[k - 1];
        }
      }
    }
  }

  /** Every pose cut as the plan says. */
  function Cuts(bodies: seq<Body>, plan: seq<(int, int)>): (r: seq<Body>)
    requires |plan| == |bodies|
    ensures |r| == |bodies|
  {
    seq(|bodies|, k requires 0 <= k < |bodies| => SliceBody(bodies[k], plan[k].0, plan[k].1))
  }

  /** All poses cut by all the seams: the plan's cuts. */
  lemma CutsSoFarPlan(bodies: seq<Body>, seams: seq<(int, int)>, cur: seq<Body>, find: SeamFinder)
    requires |seams| == |bodies| - 1 && Seams(bodies, |seams|, find) == Ok(seams)
    requires CutsSoFar(bodies, seams, cur, |bodies|)
    ensures Plan(bodies, find).Ok? && cur == Cuts(bodies, Plan(bodies, find).value)
  {
    PlanOfSeams(bodies, seams, find);
  }

  /** A cut inside the pose: `0 <= start <= end <= len`. */
  predicate ValidCut(b: Body, c: (int, int)) {
    0 <= c.0 <= c.1 <= |b.data|
  }

  /** A finder whose seams leave each pose a valid cut: a seam ends the
      first pose before its last frame and enters the second within it, and
      where a pose is between two seams it is entered no later than left. */
  ghost predicate ChainsWell(find: SeamFinder) {
    (forall x, y :: find(x, y).Ok? ==>
       0 <= find(x, y).value.0 < |x.data| && 0 <= find(x, y).value.1 < |y.data|)
    && (forall x, y, z :: find(x, y).Ok? && find(y, z).Ok? ==> find(x, y).value.1 <= find(y, z).value.0)
  }

  /** The plan of all poses: the first starts at frame 0, the last ends at
      its length, each seam is found between its two poses, and for a finder
      that chains well every cut lies within its pose and every pose but the
      last loses at least its last frame. */
  lemma PlanSpec(bodies: seq<Body>, find: SeamFinder)
    requires |bodies| > 0 && Plan(bodies, find).Ok?
    ensures var plan := Plan(bodies, find).value;
      plan[0].0 == 0 && plan[|plan| - 1].1 == |bodies[|bodies| - 1].data|
    ensures var plan := Plan(bodies, find).value;
      forall k :: 0 <= k < |plan| - 1 ==> find(bodies[k], bodies[k + 1]) == Ok((plan[k].1, plan[k + 1].0))
    ensures ChainsWell(find) ==> var plan := Plan(bodies, find).value;
      forall k :: 0 <= k < |plan| ==> ValidCut(bodies[k], plan[k])
    ensures ChainsWell(find) ==> var plan := Plan(bodies, find).value;
      forall k :: 0 <= k < |plan| - 1 ==> plan[k].1 < |bodies[k].data|
  {
    var n := |bodies|;
    var seams := Seams(bodies, n - 1, find).value;
    var plan := Plan(bodies, find).value;
    SeamsSpec(bodies, n - 1, find);
    forall k | 0 <= k < n - 1
      ensures find(bodies[k], bodies[k + 1]) == Ok((plan[k].1, plan[k + 1].0))
    {
    }
    if ChainsWell(find) {
      forall k | 0 <= k < n
        ensures ValidCut(bodies[k], plan[k])
        ensures k < n - 1 ==> plan[k].1 < |bodies[k].data|
      {
        if 0 < k < n - 1 {
          assert find(bodies[k - 1], bodies[k]).Ok? && find(bodies[k], bodies[k + 1]).Ok?;
        } else if k < n - 1 {
          assert find(bodies[k], bodies[k + 1]).Ok?;
        } else if k > 0 {
          assert find(bodies[k - 1], bodies[k]).Ok?;
        }
      }
    }
  }

  /** The plan fails exactly when some seam is not found, and then with the
      error of the first such seam. */
  lemma PlanFails(bodies: seq<Body>, find: SeamFinder)
    requires |bodies| > 0
    ensures Plan(bodies, find).Err? <==> exists k :: 0 <= k < |bodies| - 1 && find(bodies[k], bodies[k + 1]).Err?
    ensures Plan(bodies, find).Err? ==>
      exists k :: 0 <= k < |bodies| - 1 && FirstMissing(bodies, k, find) && find(bodies[k], bodies[k + 1]) == Err(Plan(bodies, find).error)
  {
    SeamsSpec(bodies, |bodies| - 1, find);
  }

  /** Two seams in a row leave the middle pose entered no later than left. */
  lemma SeamsNest(b0: Body, b1: Body, b2: Body)
    requires FindBestConnectionPoint(b0, b1).Ok? && FindBestConnectionPoint(b1, b2).Ok?
    ensures FindBestConnectionPoint(b0, b1).value.1 <= FindBestConnectionPoint(b1, b2).value.0
  {
    SeamBounds(b0, b1);
    SeamBounds(b1, b2);
    WindowSizeBounds(b1.fps, |b1.data|);
  }

  /** The connection points chain well: cutting at them keeps every cut
      within its pose. */
  lemma FindBestChainsWell()
    ensures ChainsWell(FindBestConnectionPoint)
  {
    forall x, y | FindBestConnectionPoint(x, y).Ok?
      ensures 0 <= FindBestConnectionPoint(x, y).value.0 < |x.data|
      ensures 0 <= FindBestConnectionPoint(x, y).value.1 < |y.data|
    {
      SeamBounds(x, y);
    }
    forall x, y, z | FindBestConnectionPoint(x, y).Ok? && FindBestConnectionPoint(y, z).Ok?
      ensures FindBestConnectionPoint(x, y).value.1 <= FindBestConnectionPoint(y, z).value.0
    {
      SeamsNest(x, y, z);
    }
  }

  // ---------------------------------------------------------------------
  // create_padding and concatenate_poses

  /** `int(time * fps)` frames. */
  function PaddingFrames(time: real, fps: real): int {
    Trunc(time * fps)
  }

  /** `np.zeros` of one frame's data. */
  function ZeroFrame(s: Shape): (r: Frame)
    ensures HasShape(r, s)
    ensures forall q, p, d :: 0 <= q < s.people && 0 <= p < s.points && 0 <= d < s.dims ==> r[q][p][d] == 0
  {
    seq(s.people, _ => seq(s.points, _ => seq(s.dims, _ => 0)))
  }

  /** `np.zeros` of one frame's confidence. */
  function ZeroConfidence(s: Shape): (r: FrameConfidence)
    ensures |r| == s.people
    ensures forall q :: 0 <= q < |r| ==> |r[q]| == s.points && forall p :: 0 <= p < |r[q]| ==> r[q][p] == 0
  {
    seq(s.people, _ => seq(s.points, _ => 0))
  }

  /** `create_padding(time, example)`: `n` frames of zero data and zero
      confidence with the example's frame shape, at its frame rate. */
  function PaddingBody(fps: real, shape: Shape, n: nat): (r: Body)
    ensures r.fps == fps && |r.data| == n && |r.confidence| == n
    ensures forall t :: 0 <= t < n ==> HasShape(r.data[t], shape) && r.data[t] == ZeroFrame(shape)
    ensures forall t :: 0 <= t < n ==> r.confidence[t] == ZeroConfidence(shape)
  {
    Body(fps, seq(n, _ => ZeroFrame(shape)), seq(n, _ => ZeroConfidence(shape)))
  }

  /** For a positive frame rate the padding lasts the padding time, to the
      frame below. */
  lemma PaddingFramesSpec(fps: real)
    requires fps > 0.0
    ensures var n := PaddingFrames(PADDING_TIME, fps);
      n >= 0 && n as real <= PADDING_TIME * fps < n as real + 1.0
  {
    TruncSpec(PADDING_TIME * fps);
  }

  /** One pose's body with the padding appended. */
  function Padded(b: Body, padding: Body): Body {
    Body(b.fps, b.data + padding.data, b.confidence + padding.confidence)
  }

  /** The first `m` bodies with the padding appended. */
  function PadFirst(bodies: seq<Body>, padding: Body, m: int): (r: seq<Body>)
    ensures |r| == |bodies|
  {
    seq(|bodies|, k requires 0 <= k < |bodies| => if k < m then Padded(bodies[k], padding) else bodies[k])
  }

  /** Every body but the last with the padding appended. */
  function PadAll(bodies: seq<Body>, padding: Body): (r: seq<Body>)
    ensures |r| == |bodies|
  {
    PadFirst(bodies, padding, |bodies| - 1)
  }

  /** How many poses `concatenate_poses` pads before it meets one whose
      frames are not shaped like the padding's: all but the last when every
      one of them is. */
  function PadCount(shapes: seq<Shape>, padShape: Shape): (r: nat)
    ensures r <= if |shapes| > 0 then |shapes| - 1 else 0
    ensures forall k :: 0 <= k < r ==> shapes[k] == padShape
    ensures r + 1 < |shapes| ==> shapes[r] != padShape
  {
    if |shapes| <= 1 || shapes[0] != padShape then 0 else 1 + PadCount(shapes[1..], padShape)
  }

  /** Every `np.concatenate` of `concatenate_poses` succeeds: every pose but
      the last takes the padding, and all poses then share the first one's
      frame shape. */
  predicate Concatenable(shapes: seq<Shape>, padShape: Shape) {
    (forall k :: 0 <= k < |shapes| - 1 ==> shapes[k] == padShape)
    && (forall k :: 0 <= k < |shapes| ==> shapes[k] == shapes[0])
  }

  /** When every concatenation succeeds, every pose but the last is padded. */
  lemma PadCountAll(shapes: seq<Shape>, padShape: Shape)
    requires |shapes| > 0 && Concatenable(shapes, padShape)
    ensures PadCount(shapes, padShape) == |shapes| - 1
  {
  }

  /** The bodies after cutting and padding every pose but the last. */
  function CutAndPadded(bodies: seq<Body>, plan: seq<(int, int)>, padding: Body): (r: seq<Body>)
    requires |plan| == |bodies|
    ensures |r| == |bodies|
  {
    PadAll(Cuts(bodies, plan), padding)
  }

  /** The data of the bodies one after the other. */
  function AllData(bodies: seq<Body>): seq<Frame> {
    if bodies == [] then [] else AllData(bodies[..|bodies| - 1]) + bodies[|bodies| - 1].data
  }

  function AllConfidence(bodies: seq<Body>): seq<FrameConfidence> {
    if bodies == [] then [] else AllConfidence(bodies[..|bodies| - 1]) + bodies[|bodies| - 1].confidence
  }

  /** `np.concatenate` of data and confidence, at the first pose's rate. */
  function Joined(bodies: seq<Body>): Body
    requires |bodies| > 0
  {
    Body(bodies[0].fps, AllData(bodies), AllConfidence(bodies))
  }

  /** The frames kept by the cuts together. */
  function KeptFrames(plan: seq<(int, int)>): int {
    if plan == [] then 0 else KeptFrames(plan[..|plan| - 1]) + (plan[|plan| - 1].1 - plan[|plan| - 1].0)
  }

  /** The frames kept by the cuts, each followed by `p` padding frames. */
  function PaddedFrames(plan: seq<(int, int)>, p: nat): int {
    if plan == [] then 0 else PaddedFrames(plan[..|plan| - 1], p) + (plan[|plan| - 1].1 - plan[|plan| - 1].0) + p
  }

  lemma {:induction false} PaddedFramesCount(plan: seq<(int, int)>, p: nat)
    ensures PaddedFrames(plan, p) == KeptFrames(plan) + |plan| * p
    decreases |plan|
  {
    if plan != [] {
      PaddedFramesCount(plan[..|plan| - 1], p);
      assert (|plan| - 1) * p + p == |plan| * p;
    }
  }

  /** A cut and padded body has the frames of its cut, plus the padding for
      every pose but the last. */
  lemma CutAndPaddedLength(bodies: seq<Body>, plan: seq<(int, int)>, padding: Body, k: nat)
    requires |plan| == |bodies| && k < |bodies| && ValidCut(bodies[k], plan[k])
    ensures |CutAndPadded(bodies, plan, padding)[k].data|
      == plan[k].1 - plan[k].0 + (if k < |bodies| - 1 then |padding.data| else 0)
  {
    SliceInRange(bodies[k].data, plan[k].0, plan[k].1);
  }

  /** The first `m` padded poses hold their kept frames and a padding each. */
  lemma {:induction false} AllDataPrefix(bodies: seq<Body>, plan: seq<(int, int)>, padding: Body, m: nat)
    requires |plan| == |bodies| && m < |bodies|
    requires forall k :: 0 <= k < |bodies| ==> ValidCut(bodies[k], plan[k])
    ensures |AllData(CutAndPadded(bodies, plan, padding)[..m])| == PaddedFrames(plan[..m], |padding.data|)
    decreases m
  {
    if m > 0 {
      var all := CutAndPadded(bodies, plan, padding);
      AllDataPrefix(bodies, plan, padding, m - 1);
      assert all[..m][..m - 1] == all[..m - 1];
      CutAndPaddedLength(bodies, plan, padding, m - 1);
      assert plan[..m][..m - 1] == plan[..m - 1];
    }
  }

  /** The joined frames before interpolation: the kept frames of every pose
      plus `n - 1` paddings. */
  lemma FrameCount(bodies: seq<Body>, padding: Body)
    requires |bodies| > 0 && Plan(bodies, FindBestConnectionPoint).Ok?
    ensures var plan := Plan(bodies, FindBestConnectionPoint).value;
      |Joined(CutAndPadded(bodies, plan, padding)).data|
        == KeptFrames(plan) + (|bodies| - 1) * |padding.data|
  {
    var plan := Plan(bodies, FindBestConnectionPoint).value;
    var all := CutAndPadded(bodies, plan, padding);
    var n := |bodies|;
    FindBestChainsWell();
    PlanSpec(bodies, FindBestConnectionPoint);
    AllDataPrefix(bodies, plan, padding, n - 1);
    PaddedFramesCount(plan[..n - 1], |padding.data|);
    assert all[..n - 1] == all[..n][..n - 1] && all[..n] == all;
    assert plan[..n] == plan && plan[..n][..n - 1] == plan[..n - 1];
    CutAndPaddedLength(bodies, plan, padding, n - 1);
  }

  // ---------------------------------------------------------------------
  // pose_savgol_filter

  /** The component of the face points. */
  const FaceComponent: string := "FACE_LANDMARKS"

  /** The half-open range of face points the filter skips: from the index of
      the first to the index of the last point of the only FACE_LANDMARKS
      component. */
  function FaceRange(h: Header): Result<(nat, nat)> {
    var faces := Filter(h.components, (c: Component) => c.name == FaceComponent);
    if |faces| != 1 then Err(ValueError)
    else if |faces[0].points| == 0 then Err(IndexError)
    else
      var lo :- PointIndex(h.components, FaceComponent, faces[0].points[0]);
      var hi :- PointIndex(h.components, FaceComponent, faces[0].points[|faces[0].points| - 1]);
      Ok((lo, hi))
  }

  /** The trajectory of coordinate `d` of point `p` of person 0. */
  function Column(data: seq<Frame>, p: nat, d: nat): seq<int> {
    seq(|data|, t requires 0 <= t < |data| =>
      if |data[t]| > 0 && p < |data[t][0]| && d < |data[t][0][p]| then data[t][0][p][d] else 0)
  }

  function SmoothedAt(data: seq<Frame>, t: nat, p: nat, d: nat, savgol: seq<int> -> seq<int>): int
    requires t < |data| && |data[t]| > 0 && p < |data[t][0]| && d < |data[t][0][p]|
  {
    var c := savgol(Column(data, p, d));
    if t < |c| then c[t] else data[t][0][p][d]
  }

  function SmoothedPoint(data: seq<Frame>, t: nat, p: nat, savgol: seq<int> -> seq<int>): seq<int>
    requires t < |data| && |data[t]| > 0 && p < |data[t][0]|
  {
    seq(|data[t][0][p]|, d requires 0 <= d < |data[t][0][p]| => SmoothedAt(data, t, p, d, savgol))
  }

  function SmoothedPerson(data: seq<Frame>, t: nat, face: (nat, nat), savgol: seq<int> -> seq<int>)
    : seq<seq<int>>
    requires t < |data| && |data[t]| > 0
  {
    seq(|data[t][0]|, p requires 0 <= p < |data[t][0]| =>
      if face.0 <= p < face.1 then data[t][0][p] else SmoothedPoint(data, t, p, savgol))
  }

  /** The filter applied to every trajectory of person 0 outside the face
      range. */
  function Savgol(data: seq<Frame>, face: (nat, nat), savgol: seq<int> -> seq<int>): (r: seq<Frame>)
    ensures |r| == |data|
  {
    seq(|data|, t requires 0 <= t < |data| =>
      seq(|data[t]|, q requires 0 <= q < |data[t]| =>
        if q != 0 then data[t][q] else SmoothedPerson(data, t, face, savgol)))
  }

  /** The filter touches only person 0 and skips exactly the points in
      `[first face index, last face index)`, so the last face point is
      filtered; shapes are kept. */
  lemma SavgolTouches(data: seq<Frame>, face: (nat, nat), savgol: seq<int> -> seq<int>)
    ensures var r := Savgol(data, face, savgol);
      forall t, q :: 0 <= t < |data| && 0 <= q < |data[t]| ==>
        |r[t]| == |data[t]| && |r[t][q]| == |data[t][q]|
        && (q != 0 ==> r[t][q] == data[t][q])
        && (forall p :: 0 <= p < |data[t][q]| && face.0 <= p < face.1 ==> r[t][q][p] == data[t][q][p])
        && (forall p :: 0 <= p < |data[t][q]| && q == 0 && !(face.0 <= p < face.1) ==>
              r[t][0][p] == SmoothedPoint(data, t, p, savgol))
  {
  }

  /** `savgol_filter(x, 3, 1)` in its default mode raises ValueError on a
      trajectory shorter than its window of 3; the first call is made when
      some point of person 0 outside the face range has a coordinate. With
      no frames the array keeps its points, and the call is made on an
      empty trajectory. */
  predicate TooShort(data: seq<Frame>, face: (nat, nat)) {
    |data| < 3
    && (|data| == 0
        || (|data[0]| > 0 && exists p :: 0 <= p < |data[0][0]| && !(face.0 <= p < face.1) && |data[0][0][p]| > 0))
  }

  /** The loop of `pose_savgol_filter`: the filter's ValueError on a short
      pose, before any trajectory is replaced, or the smoothed data. */
  function SavgolChecked(data: seq<Frame>, face: (nat, nat), savgol: seq<int> -> seq<int>): (r: Result<seq<Frame>>)
  {
    if TooShort(data, face) then Err(ValueError) else Ok(Savgol(data, face, savgol))
  }

  // ---------------------------------------------------------------------
  // smooth_concatenate_poses

  function BodiesOf(poses: seq<Pose>): (r: seq<Body>)
    reads poses
    ensures |r| == |poses|
  {
    seq(|poses|, k requires 0 <= k < |poses| reads poses => poses[k].body)
  }

  /** The frame shape of each body. */
  function ShapesOf(bodies: seq<Body>): (r: seq<Shape>)
    ensures |r| == |bodies|
  {
    seq(|bodies|, k requires 0 <= k < |bodies| => ShapeOf(bodies[k]))
  }

  /** `pose_savgol_filter` on the joined pose under `header`. */
  function SmoothedJoin(joined: Body, header: Header, savgol: seq<int> -> seq<int>): Result<Body> {
    var face :- FaceRange(header);
    var smoothed :- SavgolChecked(joined.data, face, savgol);
    Ok(Body(joined.fps, smoothed, joined.confidence))
  }

  /** What `smooth_concatenate_poses` leaves in the input poses and what it
      returns, for at least two poses. The poses are cut one by one, so a
      seam that cannot be found leaves only the poses before it cut. The
      padding has the first pose's frame shape, which its cut keeps even
      when no frame is left; the poses are padded in place until one does
      not have that shape, and the join needs one shape throughout. The
      joined body is interpolated and smoothed. */
  function SmoothPlan(bodies: seq<Body>, header: Header, interpolate: Body -> Body, savgol: seq<int> -> seq<int>)
    : (r: (seq<Body>, Result<Body>))
    requires |bodies| >= 2
    ensures |r.0| == |bodies|
  {
    var planned := Plan(bodies, FindBestConnectionPoint);
    if planned.Err? then (CutsBeforeFailure(bodies, FindBestConnectionPoint), Err(planned.error))
    else JoinCuts(Cuts(bodies, planned.value), ShapesOf(bodies), header, interpolate, savgol)
  }

  /** The rest of `smooth_concatenate_poses` once every pose is cut, the
      cut poses having the frame shapes `shapes`: the padding, the join and
      the smoothing. */
  function JoinCuts(cuts: seq<Body>, shapes: seq<Shape>, header: Header, interpolate: Body -> Body,
                    savgol: seq<int> -> seq<int>)
    : (r: (seq<Body>, Result<Body>))
    requires |cuts| == |shapes| && |cuts| > 0
    ensures |r.0| == |cuts|
  {
    var n := PaddingFrames(PADDING_TIME, cuts[0].fps);
    if n < 0 then (cuts, Err(ValueError))
    else
      var padding := PaddingBody(cuts[0].fps, shapes[0], n);
      var padded := PadFirst(cuts, padding, PadCount(shapes, shapes[0]));
      if !Concatenable(shapes, shapes[0]) then (padded, Err(ValueError))
      else (padded, SmoothedJoin(interpolate(Joined(padded)), header, savgol))
  }

  /** Once every pose is cut, each pose keeps its cut frames, and whatever
      the padding appends to it is zero frames of the first pose's shape as
      it was before its cut, however few frames that cut left. When every
      concatenation succeeds, every pose but the last gets the whole
      padding. */
  lemma PaddingKeepsShape(bodies: seq<Body>, header: Header, interpolate: Body -> Body,
                          savgol: seq<int> -> seq<int>, k: nat)
    requires |bodies| >= 2 && Plan(bodies, FindBestConnectionPoint).Ok? && k < |bodies|
    ensures var cut := Cuts(bodies, Plan(bodies, FindBestConnectionPoint).value)[k];
      var left := SmoothPlan(bodies, header, interpolate, savgol).0[k];
      left.fps == cut.fps && |cut.data| <= |left.data| && left.data[..|cut.data|] == cut.data
      && forall t :: |cut.data| <= t < |left.data| ==> left.data[t] == ZeroFrame(ShapeOf(bodies[0]))
    ensures var cuts := Cuts(bodies, Plan(bodies, FindBestConnectionPoint).value);
      var n := PaddingFrames(PADDING_TIME, cuts[0].fps);
      n >= 0 && Concatenable(ShapesOf(bodies), ShapeOf(bodies[0])) && k < |bodies| - 1 ==>
        |SmoothPlan(bodies, header, interpolate, savgol).0[k].data| == |cuts[k].data| + n
  {
  }


  /** One pass of the cutting loop over pose `i`: the seam with the next
      pose is searched (the last pose has none), then the pose is cut in
      place from `start` to where that seam leaves it, and the start of the
      next pose is where the seam enters it. */
  method CutNext(poses: seq<Pose>, ghost b0: seq<Body>, find: SeamFinder, i: nat, start: int,
                 ghost seams: seq<(int, int)>, ghost cur: seq<Body>)
    returns (next: Result<int>, ghost seams': seq<(int, int)>, ghost cur': seq<Body>)
    requires i < |poses| == |b0| && |seams| == i
    requires forall i, j :: 0 <= i < j < |poses| ==> poses[i] != poses[j]
    requires Seams(b0, |seams|, find) == Ok(seams)
    requires start == if i == 0 then 0 else seams[i - 1].1
    requires CutsSoFar(b0, seams, cur, i)
    requires forall k :: 0 <= k < |poses| ==> poses[k].body == cur[k]
    modifies poses`body
    ensures next.Err? ==>
      Plan(b0, find) == Err(next.error) && i + 1 < |poses| && Seams(b0, i + 1, find).Err?
      && seams' == seams && cur' == cur && forall k :: 0 <= k < |poses| ==> poses[k].body == cur[k]
    ensures next.Ok? ==>
      |seams'| == (if i + 1 < |poses| then i + 1 else i)
      && Seams(b0, |seams'|, find) == Ok(seams')
      && (i + 1 < |poses| ==> next.value == seams'[i].1)
      && CutsSoFar(b0, seams', cur', i + 1)
      && forall k :: 0 <= k < |poses| ==> poses[k].body == cur'[k]
  {
    var end, nextStart;
    seams' := seams;
    if i != |poses| - 1 {
      var seam := find(poses[i].body, poses[i + 1].body);
      assert cur[i] == b0[i] && cur[i + 1] == b0[i + 1];
      SeamsStep(b0, i, seams, find);
      if seam.Err? {
        PlanFailsFrom(b0, i + 1, find);
        return Err(seam.error), seams, cur;
      }
      end, nextStart := seam.value.0, seam.value.1;
      seams' := seams + [seam.value];
    } else {
      end, nextStart := |poses[i].body.data|, 0;
    }
    CutsSoFarStep(b0, seams, seams', cur, i, start, end);
    poses[i].body := SliceBody(poses[i].body, start, end);
    cur' := cur[i := poses[i].body];
    next := Ok(nextStart);
  }

  /** Every pose cut by the seams in place; on failure, the error of the
      first seam that could not be found. */
  method CutPoses(poses: seq<Pose>, ghost b0: seq<Body>, find: SeamFinder) returns (r: Result<()>)
    requires |poses| > 0 && |b0| == |poses|
    requires forall k :: 0 <= k < |poses| ==> poses[k].body == b0[k]
    requires forall i, j :: 0 <= i < j < |poses| ==> poses[i] != poses[j]
    modifies poses`body
    ensures var plan := Plan(b0, find);
      plan.Err? ==> r == Err(plan.error) && forall k :: 0 <= k < |poses| ==> poses[k].body == CutsBeforeFailure(b0, find)[k]
    ensures var plan := Plan(b0, find);
      plan.Ok? ==> r.Ok? && forall k :: 0 <= k < |poses| ==> poses[k].body == Cuts(b0, plan.value)[k]
  {
    var n := |poses|;
    var start := 0;
    ghost var seams: seq<(int, int)> := [];
    ghost var cur := b0;
    var i := 0;
    while i < n
      invariant 0 <= i <= n
      invariant |seams| == if i < n then i else n - 1
      invariant Seams(b0, |seams|, find) == Ok(seams)
      invariant 0 < i < n ==> start == seams[i - 1].1
      invariant i == 0 ==> start == 0
      invariant CutsSoFar(b0, seams, cur, i)
      invariant forall k :: 0 <= k < n ==> poses[k].body == cur[k]
    {
      var next;
      next, seams, cur := CutNext(poses, b0, find, i, start, seams, cur);
      if next.Err? {
        CutsBeforeFailureAt(b0, find, i, seams);
        assert cur == CutBefore(b0, seams, i);
        return Err(next.error);
      }
      start := next.value;
      i := i + 1;
    }
    CutsSoFarPlan(b0, seams, cur, find);
    r := Ok(());
  }

  /** `concatenate_poses(poses, padding)`, where `shapes` are the frame
      shapes of the poses' arrays and `padShape` that of the padding's: the
      padding is appended in place to every pose but the last, and a new
      pose under the first pose's header holds all the frames one after the
      other, interpolated. `np.concatenate` raises `ValueError` on a pose
      not shaped like the padding, with the poses before it padded, and on
      poses not all shaped alike. */
  method ConcatenatePoses(poses: seq<Pose>, padding: Body, padShape: Shape, shapes: seq<Shape>,
                          interpolate: Body -> Body, ghost cur: seq<Body>)
    returns (r: Result<Pose>)
    requires |poses| > 0 && |cur| == |poses| && |shapes| == |poses|
    requires forall k :: 0 <= k < |poses| ==> poses[k].body == cur[k]
    requires forall i, j :: 0 <= i < j < |poses| ==> poses[i] != poses[j]
    modifies poses`body
    ensures forall k :: 0 <= k < |poses| ==> poses[k].body == PadFirst(cur, padding, PadCount(shapes, padShape))[k]
    ensures !Concatenable(shapes, padShape) ==> r == Err(ValueError)
    ensures Concatenable(shapes, padShape) ==>
      r.Ok? && fresh(r.value) && r.value.header == poses[0].header
      && r.value.body == interpolate(Joined(PadAll(cur, padding)))
  {
    var j := 0;
    while j < |poses| - 1
      invariant 0 <= j <= |poses| - 1
      invariant forall k :: 0 <= k < j ==> shapes[k] == padShape
      invariant forall k :: 0 <= k < j ==> poses[k].body == Padded(cur[k], padding)
      invariant forall k :: j <= k < |poses| ==> poses[k].body == cur[k]
    {
      if shapes[j] != padShape {
        assert PadCount(shapes, padShape) == j;
        return Err(ValueError);
      }
      poses[j].body := Padded(poses[j].body, padding);
      j := j + 1;
    }
    assert PadCount(shapes, padShape) == |poses| - 1;
    if exists k :: 0 <= k < |poses| && shapes[k] != shapes[0] {
      return Err(ValueError);
    }
    assert BodiesOf(poses) == PadAll(cur, padding);
    var joined := interpolate(Joined(BodiesOf(poses)));
    var single := new Pose(poses[0].header, joined);
    r := Ok(single);
  }

  /** `pose_savgol_filter(pose)`, in place: a header without exactly one
      FACE_LANDMARKS component (or without its points) is refused, and so
      is a pose too short for the filter's window; either way the pose is
      left as it was. */
  method PoseSavgolFilter(pose: Pose, savgol: seq<int> -> seq<int>) returns (r: Result<()>)
    modifies pose`body
    ensures FaceRange(pose.header).Err? ==>
      r == Err(FaceRange(pose.header).error) && pose.body == old(pose.body)
    ensures FaceRange(pose.header).Ok? && TooShort(old(pose.body.data), FaceRange(pose.header).value) ==>
      r == Err(ValueError) && pose.body == old(pose.body)
    ensures FaceRange(pose.header).Ok? && !TooShort(old(pose.body.data), FaceRange(pose.header).value) ==>
      r.Ok? && pose.body == Body(old(pose.body.fps), Savgol(old(pose.body.data), FaceRange(pose.header).value, savgol),
                                 old(pose.body.confidence))
  {
    var face := FaceRange(pose.header);
    if face.Err? {
      return Err(face.error);
    }
    var smoothed := SavgolChecked(pose.body.data, face.value, savgol);
    if smoothed.Err? {
      return Err(smoothed.error);
    }
    pose.body := Body(pose.body.fps, smoothed.value, pose.body.confidence);
    r := Ok(());
  }

  /** `smooth_concatenate_poses(poses)`. The input poses are distinct
      objects; each is cut in place, and all but the last are padded in
      place, as the source does. */
  method SmoothConcatenatePoses(poses: seq<Pose>, ghost bodies: seq<Body>, interpolate: Body -> Body,
                                savgol: seq<int> -> seq<int>)
    returns (r: Result<Pose>)
    requires |bodies| == |poses| && forall k :: 0 <= k < |poses| ==> poses[k].body == bodies[k]
    requires forall i, j :: 0 <= i < j < |poses| ==> poses[i] != poses[j]
    modifies poses`body
    ensures |poses| == 0 ==> r == Err(ValueError)
    ensures |poses| == 1 ==> r == Ok(poses[0]) && poses[0].body == old(poses[0].body)
    ensures |poses| >= 2 ==>
      var expected := SmoothPlan(bodies, poses[0].header, interpolate, savgol);
      (forall k :: 0 <= k < |poses| ==> poses[k].body == expected.0[k])
      && (expected.1.Err? ==> r == Err(expected.1.error))
      && (expected.1.Ok? ==>
            r.Ok? && fresh(r.value) && r.value.header == poses[0].header && r.value.body == expected.1.value)
  {
    var n := |poses|;
    if n == 0 {
      return Err(ValueError);
    }
    if n == 1 {
      return Ok(poses[0]);
    }
    r := SmoothSeveral(poses, bodies, interpolate, savgol);
  }

  /** The work of `smooth_concatenate_poses` on two poses or more. */
  method SmoothSeveral(poses: seq<Pose>, ghost bodies: seq<Body>, interpolate: Body -> Body,
                       savgol: seq<int> -> seq<int>)
    returns (r: Result<Pose>)
    requires |poses| >= 2
    requires |bodies| == |poses| && forall k :: 0 <= k < |poses| ==> poses[k].body == bodies[k]
    requires forall i, j :: 0 <= i < j < |poses| ==> poses[i] != poses[j]
    modifies poses`body
    ensures var expected := SmoothPlan(bodies, poses[0].header, interpolate, savgol);
      (forall k :: 0 <= k < |poses| ==> poses[k].body == expected.0[k])
      && (expected.1.Err? ==> r == Err(expected.1.error))
      && (expected.1.Ok? ==>
            r.Ok? && fresh(r.value) && r.value.header == poses[0].header && r.value.body == expected.1.value)
  {
    // The cut keeps each array's frame shape, which a pose cut down to no
    // frames no longer shows, so the shapes are read before the cut.
    var shapes := ShapesOf(BodiesOf(poses));
    assert shapes == ShapesOf(bodies) by {
      assert BodiesOf(poses) == bodies;
    }
    var cut := CutPoses(poses, bodies, FindBestConnectionPoint);
    if cut.Err? {
      return Err(cut.error);
    }
    ghost var plan := Plan(bodies, FindBestConnectionPoint).value;
    r := JoinCutPoses(poses, shapes, Cuts(bodies, plan), interpolate, savgol);
  }

  /** The padding, the join and the smoothing of the cut poses, which have
      the frame shapes `shapes`. */
  method JoinCutPoses(poses: seq<Pose>, shapes: seq<Shape>, ghost cuts: seq<Body>, interpolate: Body -> Body,
                      savgol: seq<int> -> seq<int>)
    returns (r: Result<Pose>)
    requires |poses| > 0 && |cuts| == |poses| && |shapes| == |poses|
    requires forall k :: 0 <= k < |poses| ==> poses[k].body == cuts[k]
    requires forall i, j :: 0 <= i < j < |poses| ==> poses[i] != poses[j]
    modifies poses`body
    ensures var expected := JoinCuts(cuts, shapes, poses[0].header, interpolate, savgol);
      (forall k :: 0 <= k < |poses| ==> poses[k].body == expected.0[k])
      && (expected.1.Err? ==> r == Err(expected.1.error))
      && (expected.1.Ok? ==>
            r.Ok? && fresh(r.value) && r.value.header == poses[0].header && r.value.body == expected.1.value)
  {
    var frames := PaddingFrames(PADDING_TIME, poses[0].body.fps);
    if frames < 0 {
      return Err(ValueError);
    }
    var padding := PaddingBody(poses[0].body.fps, shapes[0], frames);
    var single := ConcatenatePoses(poses, padding, shapes[0], shapes, interpolate, cuts);
    if single.Err? {
      return Err(single.error);
    }
    PadCountAll(shapes, shapes[0]);
    var smoothed := PoseSavgolFilter(single.value, savgol);
    if smoothed.Err? {
      return Err(smoothed.error);
    }
    r := Ok(single.value);
  }
}
