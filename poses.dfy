/** The part of a `pose_format` pose that the lookup and assembly code uses.

    A pose has a header (canvas dimensions and named components, each with
    named points) and a body: the frame rate and two frame-major arrays,
    `data[frame][person][point][dimension]` and
    `confidence[frame][person][point]`. Coordinates are integers here. */
module Poses {
  import opened Wrappers
  import opened PyStrings

  datatype Dimensions = Dimensions(width: int, height: int, depth: int)

  datatype Component = Component(name: string, points: seq<string>)

  datatype Header = Header(dimensions: Dimensions, components: seq<Component>)

  /** One frame of data: person, point, dimension. */
  type Frame = seq<seq<seq<int>>>

  /** One frame of confidence: person, point. */
  type FrameConfidence = seq<seq<int>>

  datatype Body = Body(fps: real, data: seq<Frame>, confidence: seq<FrameConfidence>)

  /** A pose as a value, as the cache stores it and the lookup returns it. */
  datatype PoseData = PoseData(header: Header, body: Body)

  /** A pose object whose header and body the assembly code rebinds in place. */
  class Pose {
    var header: Header
    var body: Body

    constructor (header: Header, body: Body)
      ensures this.header == header && this.body == body
    {
      this.header := header;
      this.body := body;
    }

    function Value(): PoseData
      reads this
    {
      PoseData(header, body)
    }
  }

  /** The number of frames. */
  function Length(b: Body): nat {
    |b.data|
  }

  /** `body[start:end]`: both arrays are sliced on the frame axis with
      Python's bounds; the frame rate is kept. */
  function SliceBody(b: Body, start: int, end: int): (r: Body)
    ensures r.fps == b.fps
    ensures r.data == Slice(b.data, start, end)
    ensures r.confidence == Slice(b.confidence, start, end)
  {
    Body(b.fps, Slice(b.data, start, end), Slice(b.confidence, start, end))
  }

  /** Data and confidence have one entry per frame each. */
  predicate FramesAgree(b: Body) {
    |b.data| == |b.confidence|
  }

  lemma SliceBodyKeepsAgreement(b: Body, start: int, end: int)
    requires FramesAgree(b)
    ensures FramesAgree(SliceBody(b, start, end))
  {
    SliceSameLength(b.data, b.confidence, start, end);
  }

  // ---------------------------------------------------------------------
  // Point indexes

  /** All point names of the header, component after component. */
  function AllPoints(components: seq<Component>): (r: seq<string>)
  {
    if components == [] then [] else components[0].points + AllPoints(components[1..])
  }

  /** The first position of `x` in `s`. */
  function PositionOf<T(==)>(s: seq<T>, x: T): (r: Option<nat>)
    ensures r.Some? ==> r.value < |s| && s[r.value] == x && x !in s[..r.value]
    ensures r.None? ==> x !in s
  {
    if s == [] then None
    else if s[0] == x then Some(0)
    else match PositionOf(s[1..], x)
      case None => None
      case Some(k) => assert s[..k + 1] == [s[0]] + s[1..][..k]; Some(k + 1)
  }

  /** `header._get_point_index(component, point)`: the offset of the first
      component of that name plus the position of the point in it;
      `ValueError` when either is missing. */
  function PointIndex(components: seq<Component>, component: string, point: string): (r: Result<nat>)
    ensures r.Ok? ==> r.value < |AllPoints(components)| && AllPoints(components)[r.value] == point
  {
    if components == [] then Err(ValueError)
    else if components[0].name == component then
      match PositionOf(components[0].points, point)
      case None => Err(ValueError)
      case Some(k) => Ok(k)
    else match PointIndex(components[1..], component, point)
      case Err(e) => Err(e)
      case Ok(k) => Ok(|components[0].points| + k)
  }

  /** Point `i` of the flattened list lies in the block of component `c`. */
  predicate InBlock(components: seq<Component>, c: int, i: int) {
    0 <= c < |components|
    && |AllPoints(components[..c])| <= i < |AllPoints(components[..c])| + |components[c].points|
  }

  /** The index lies inside the named component's block of points. */
  lemma {:induction false} PointIndexInComponent(components: seq<Component>, component: string, point: string)
    requires PointIndex(components, component, point).Ok?
    ensures exists c :: InBlock(components, c, PointIndex(components, component, point).value) && components[c].name == component
  {
    if components[0].name == component {
      assert components[..0] == [];
      assert AllPoints(components[..0]) == [];
    } else {
      PointIndexInComponent(components[1..], component, point);
      var c :| InBlock(components[1..], c, PointIndex(components[1..], component, point).value)
        && components[1..][c].name == component;
      assert components[..c + 1] == [components[0]] + components[1..][..c];
      assert components[..c + 1][1..] == components[1..][..c];
      assert InBlock(components, c + 1, PointIndex(components, component, point).value);
    }
  }
}
