/** `concatenate.py`: turning the looked-up poses of a sentence into one pose.

    Each pose is reduced to the points the output needs, normalised, and
    trimmed to the frames where a hand is visible; the poses are then joined
    by `smooth_concatenate_poses`, the body wrists are back-filled from the
    hand wrists, and the result is rescaled onto a fixed canvas.

    `pose.get_components`, `normalize` and the rescaling are calls into
    `pose_format` or floating-point arithmetic and are parameters here. */
module Concatenate {
  import opened Wrappers
  import opened PyStrings
  import opened Poses
  import Smoothing

  // ---------------------------------------------------------------------
  // reduce_holistic

  /** The MediaPipe face-mesh contour points, as hard-coded by the source. */
  const FACE_CONTOURS: seq<string> := [
    "0", "7", "10", "13", "14", "17", "21", "33", "37", "39", "40", "46", "52", "53", "54", "55", "58", "61", "63",
    "65", "66", "67", "70", "78", "80", "81", "82", "84", "87", "88", "91", "93", "95", "103", "105", "107", "109",
    "127", "132", "133", "136", "144", "145", "146", "148", "149", "150", "152", "153", "154", "155", "157", "158",
    "159", "160", "161", "162", "163", "172", "173", "176", "178", "181", "185", "191", "234", "246", "249", "251",
    "263", "267", "269", "270", "276", "282", "283", "284", "285", "288", "291", "293", "295", "296", "297", "300",
    "308", "310", "311", "312", "314", "317", "318", "321", "323", "324", "332", "334", "336", "338", "356", "361",
    "362", "365", "373", "374", "375", "377", "378", "379", "380", "381", "382", "384", "385", "386", "387", "388",
    "389", "390", "397", "398", "400", "402", "405", "409", "415", "454", "466"
  ]

  /** Body points naming a face, hand or foot part are dropped. */
  const IGNORE_NAMES: seq<string> :=
    ["EAR", "NOSE", "MOUTH", "EYE", "THUMB", "PINKY", "INDEX", "KNEE", "ANKLE", "HEEL", "FOOT_INDEX"]

  /** A body point is kept when no ignored name occurs in it. */
  predicate KeepBodyPoint(point: string) {
    forall i :: 0 <= i < |IGNORE_NAMES| ==> !Contains(point, IGNORE_NAMES[i])
  }

  /** The arguments of `pose.get_components`: the component names to keep,
      and for some of them the point names to keep. */
  datatype Selection = Selection(components: seq<string>, points: map<string, seq<string>>)

  /** `pose.get_components(components, points)`, a `pose_format` call. */
  type ComponentGetter = (PoseData, Selection) -> PoseData

  function Names(cs: seq<Component>): seq<string> {
    seq(|cs|, i requires 0 <= i < |cs| => cs[i].name)
  }

  /** The selection `reduce_holistic` asks for: every component but
      POSE_WORLD_LANDMARKS, the face contour points, and the points of the
      first POSE_LANDMARKS component that name no ignored part;
      `IndexError` when there is no POSE_LANDMARKS component. */
  function HolisticSelection(h: Header): (r: Result<Selection>)
    ensures r.Err? ==> r.error == IndexError
  {
    var bodyComponents := Filter(h.components, (c: Component) => c.name == "POSE_LANDMARKS");
    if bodyComponents == [] then Err(IndexError)
    else
      var bodyPoints := Filter(bodyComponents[0].points, KeepBodyPoint);
      var names := Names(Filter(h.components, (c: Component) => c.name != "POSE_WORLD_LANDMARKS"));
      Ok(Selection(names, map["FACE_LANDMARKS" := FACE_CONTOURS, "POSE_LANDMARKS" := bodyPoints]))
  }

  /** `reduce_holistic(pose)`. */
  function ReduceHolistic(p: PoseData, getComponents: ComponentGetter): (r: Result<PoseData>)
    ensures r.Err? <==> HolisticSelection(p.header).Err?
    ensures r.Err? ==> r.error == IndexError
  {
    var selection :- HolisticSelection(p.header);
    Ok(getComponents(p, selection))
  }

  /** Position `i` holds the first component of that name. */
  predicate IsFirstNamed(cs: seq<Component>, name: string, i: int) {
    0 <= i < |cs| && cs[i].name == name && forall j :: 0 <= j < i ==> cs[j].name != name
  }

  lemma {:induction false} FilterFirstNamed(cs: seq<Component>, name: string)
    requires Filter(cs, (c: Component) => c.name == name) != []
    ensures exists i :: IsFirstNamed(cs, name, i) && Filter(cs, (c: Component) => c.name == name)[0] == cs[i]
  {
    if cs[0].name != name {
      FilterFirstNamed(cs[1..], name);
      var i :| IsFirstNamed(cs[1..], name, i) && Filter(cs[1..], (c: Component) => c.name == name)[0] == cs[1..][i];
      assert IsFirstNamed(cs, name, i + 1);
    } else {
      assert IsFirstNamed(cs, name, 0);
    }
  }

  lemma {:induction false} NamesMembers(cs: seq<Component>, name: string)
    ensures name in Names(cs) <==> exists c :: c in cs && c.name == name
  {
    if name in Names(cs) {
      var i :| 0 <= i < |cs| && Names(cs)[i] == name;
      assert cs[i] in cs;
    }
    if exists c :: c in cs && c.name == name {
      var c :| c in cs && c.name == name;
      var i :| 0 <= i < |cs| && cs[i] == c;
      assert Names(cs)[i] == name;
    }
  }

  /** The selection fails exactly when there is no POSE_LANDMARKS component;
      otherwise it keeps every component name but POSE_WORLD_LANDMARKS,
      asks for exactly the face contours, and keeps exactly those points of
      the first POSE_LANDMARKS component in which no ignored name occurs. */
  lemma HolisticSelectionSpec(h: Header)
    ensures HolisticSelection(h).Err? <==> forall c :: c in h.components ==> c.name != "POSE_LANDMARKS"
    ensures HolisticSelection(h).Ok? ==>
      var s := HolisticSelection(h).value;
      (forall name :: name in s.components <==>
         name != "POSE_WORLD_LANDMARKS" && exists c :: c in h.components && c.name == name)
      && s.points.Keys == {"FACE_LANDMARKS", "POSE_LANDMARKS"}
      && s.points["FACE_LANDMARKS"] == FACE_CONTOURS
      && exists i :: IsFirstNamed(h.components, "POSE_LANDMARKS", i)
           && forall p :: p in s.points["POSE_LANDMARKS"] <==> p in h.components[i].points && KeepBodyPoint(p)
  {
    var isBody := (c: Component) => c.name == "POSE_LANDMARKS";
    var notWorld := (c: Component) => c.name != "POSE_WORLD_LANDMARKS";
    FilterMembers(h.components, isBody);
    FilterMembers(h.components, notWorld);
    var bodyComponents := Filter(h.components, isBody);
    if bodyComponents != [] {
      assert bodyComponents[0] in bodyComponents;
      FilterFirstNamed(h.components, "POSE_LANDMARKS");
      FilterMembers(bodyComponents[0].points, KeepBodyPoint);
      var kept := Filter(h.components, notWorld);
      forall name ensures name in Names(kept) <==>
        name != "POSE_WORLD_LANDMARKS" && exists c :: c in h.components && c.name == name
      {
        NamesMembers(kept, name);
      }
    } else {
      forall c | c in h.components ensures c.name != "POSE_LANDMARKS" {
        assert !(c in bodyComponents);
      }
    }
  }

  /** No occurrence of `sub` when one of its characters is missing. */
  lemma MissingCharNotContained(s: string, sub: string, k: nat)
    requires k < |sub| && sub[k] !in s
    ensures !Contains(s, sub)
  {
  }

  /** A point is kept when each ignored name has a character the point
      lacks; `missing[i]` is the position of that character. */
  lemma KeptWhenCharsMissing(point: string, missing: seq<nat>)
    requires |missing| == |IGNORE_NAMES|
    requires forall i :: 0 <= i < |IGNORE_NAMES| ==> missing[i] < |IGNORE_NAMES[i]| && IGNORE_NAMES[i][missing[i]] !in point
    ensures KeepBodyPoint(point)
  {
    forall i | 0 <= i < |IGNORE_NAMES| ensures !Contains(point, IGNORE_NAMES[i]) {
      MissingCharNotContained(point, IGNORE_NAMES[i], missing[i]);
    }
  }

  /** Both body wrists survive the reduction, which `correct_wrist` and the
      trimming depend on. */
  lemma BodyWristsKept()
    ensures KeepBodyPoint("LEFT_WRIST") && KeepBodyPoint("RIGHT_WRIST")
  {
    LeftWristKept();
    RightWristKept();
  }

  lemma RightWristKept()
    ensures KeepBodyPoint("RIGHT_WRIST")
  {
    var point := "RIGHT_WRIST";
    assert forall c :: c in point ==> c in {'R', 'I', 'G', 'H', 'T', '_', 'W', 'S'};
    KeptWhenCharsMissing(point, [1, 0, 0, 0, 2, 0, 1, 0, 0, 1, 1]);
  }

  lemma LeftWristKept()
    ensures KeepBodyPoint("LEFT_WRIST")
  {
    var point := "LEFT_WRIST";
    assert forall c :: c in point ==> c in {'L', 'E', 'F', 'T', '_', 'W', 'R', 'I', 'S'};
    KeptWhenCharsMissing(point, [1, 0, 0, 1, 2, 0, 1, 0, 0, 0, 1]);
  }

  /** Finger and mouth points are dropped. */
  lemma FingersDropped()
    ensures !KeepBodyPoint("LEFT_THUMB") && !KeepBodyPoint("RIGHT_PINKY") && !KeepBodyPoint("MOUTH_LEFT")
  {
    assert OccursAt("LEFT_THUMB", IGNORE_NAMES[4], 5);
    assert OccursAt("RIGHT_PINKY", IGNORE_NAMES[5], 6);
    assert OccursAt("MOUTH_LEFT", IGNORE_NAMES[2], 0);
  }

  // ---------------------------------------------------------------------
  // correct_wrist

  /** Point `i` can be read in every row of both arrays, which have one row
      of people per frame and one entry per point: what indexing
      `data[:, :, i]` needs of a numpy array. */
  predicate Readable(b: Body, i: nat) {
    |b.data| == |b.confidence|
    && (forall f :: 0 <= f < |b.data| ==> |b.data[f]| == |b.confidence[f]|)
    && (forall f, p :: 0 <= f < |b.data| && 0 <= p < |b.data[f]| ==>
          i < |b.data[f][p]| && i < |b.confidence[f][p]|)
  }

  /** Points `i` and `j` have the same number of coordinates everywhere. */
  predicate SameDims(b: Body, i: nat, j: nat)
    requires Readable(b, i) && Readable(b, j)
  {
    forall f, p :: 0 <= f < |b.data| && 0 <= p < |b.data[f]| ==> |b.data[f][p][i]| == |b.data[f][p][j]|
  }

  /** `where(hand == 0, body, hand)`, coordinate by coordinate. */
  function FillZeros(hand: seq<int>, body: seq<int>): seq<int>
    requires |hand| == |body|
  {
    seq(|hand|, d requires 0 <= d < |hand| => if hand[d] == 0 then body[d] else hand[d])
  }

  /** The body with slot `bi` replaced by the hand wrist `wi` wherever that
      is non-zero, in data and in confidence. */
  function WristFilled(b: Body, wi: nat, bi: nat): (r: Body)
    requires Readable(b, wi) && Readable(b, bi) && SameDims(b, wi, bi)
  {
    Body(b.fps,
      seq(|b.data|, f requires 0 <= f < |b.data| =>
        seq(|b.data[f]|, p requires 0 <= p < |b.data[f]| =>
          b.data[f][p][bi := FillZeros(b.data[f][p][wi], b.data[f][p][bi])])),
      seq(|b.confidence|, f requires 0 <= f < |b.confidence| =>
        seq(|b.confidence[f]|, p requires 0 <= p < |b.confidence[f]| =>
          b.confidence[f][p][bi := if b.confidence[f][p][wi] == 0 then b.confidence[f][p][bi]
                                   else b.confidence[f][p][wi]])))
  }

  /** What `correct_wrist(pose, hand)` makes of a body: `ValueError` when the
      header lacks either wrist, `IndexError` when the arrays cannot be
      indexed there. */
  function CorrectedWrist(h: Header, b: Body, hand: string): Result<Body> {
    var wi :- PointIndex(h.components, hand + "_HAND_LANDMARKS", "WRIST");
    if !Readable(b, wi) then Err(IndexError)
    else
      var bi :- PointIndex(h.components, "POSE_LANDMARKS", hand + "_WRIST");
      if !Readable(b, bi) || !SameDims(b, wi, bi) then Err(IndexError)
      else Ok(WristFilled(b, wi, bi))
  }

  /** `correct_wrists(pose)`: LEFT, then RIGHT. */
  function CorrectedWrists(h: Header, b: Body): Result<Body> {
    var left :- CorrectedWrist(h, b, "LEFT");
    CorrectedWrist(h, left, "RIGHT")
  }

  /** Only the body-wrist slot changes: every coordinate takes the hand
      wrist's value where that is non-zero and keeps the body wrist's
      otherwise, confidence likewise; shapes and the frame rate are kept. */
  lemma WristFilledSpec(b: Body, wi: nat, bi: nat)
    requires Readable(b, wi) && Readable(b, bi) && SameDims(b, wi, bi)
    ensures var r := WristFilled(b, wi, bi);
      r.fps == b.fps && |r.data| == |b.data| && |r.confidence| == |b.confidence|
      && forall f, p :: 0 <= f < |b.data| && 0 <= p < |b.data[f]| ==>
           |r.data[f]| == |b.data[f]| && |r.data[f][p]| == |b.data[f][p]|
           && |r.confidence[f]| == |b.confidence[f]| && |r.confidence[f][p]| == |b.confidence[f][p]|
           && (forall i :: 0 <= i < |b.data[f][p]| && i != bi ==> r.data[f][p][i] == b.data[f][p][i])
           && (forall i :: 0 <= i < |b.confidence[f][p]| && i != bi ==> r.confidence[f][p][i] == b.confidence[f][p][i])
           && |r.data[f][p][bi]| == |b.data[f][p][bi]|
           && (forall d :: 0 <= d < |b.data[f][p][bi]| ==>
                 r.data[f][p][bi][d] == if b.data[f][p][wi][d] != 0 then b.data[f][p][wi][d] else b.data[f][p][bi][d])
           && r.confidence[f][p][bi] == if b.confidence[f][p][wi] != 0 then b.confidence[f][p][wi] else b.confidence[f][p][bi]
  {
  }

  /** Back-filling is idempotent: a second pass over the same slots changes
      nothing. */
  lemma WristFilledIdempotent(b: Body, wi: nat, bi: nat)
    requires Readable(b, wi) && Readable(b, bi) && SameDims(b, wi, bi) && wi != bi
    ensures var r := WristFilled(b, wi, bi);
      Readable(r, wi) && Readable(r, bi) && SameDims(r, wi, bi) && WristFilled(r, wi, bi) == r
  {
    var r := WristFilled(b, wi, bi);
    assert Readable(r, wi) && Readable(r, bi) && SameDims(r, wi, bi);
    var r2 := WristFilled(r, wi, bi);
    assert r2.data == r.data by {
      forall f | 0 <= f < |r.data| ensures r2.data[f] == r.data[f] {
        forall p | 0 <= p < |r.data[f]| ensures r2.data[f][p] == r.data[f][p] {
          assert FillZeros(r.data[f][p][wi], r.data[f][p][bi]) == r.data[f][p][bi];
        }
      }
    }
    assert r2.confidence == r.confidence by {
      forall f | 0 <= f < |r.confidence| ensures r2.confidence[f] == r.confidence[f] {
        forall p | 0 <= p < |r.confidence[f]| ensures r2.confidence[f][p] == r.confidence[f][p] {
        }
      }
    }
  }

  /** `correct_wrist(pose, hand)`, in place: on an error the pose is left as
      it was. */
  method CorrectWrist(pose: Pose, hand: string) returns (r: Result<()>)
    modifies pose`body
    ensures var e := CorrectedWrist(pose.header, old(pose.body), hand);
      (e.Err? ==> r == Err(e.error) && pose.body == old(pose.body)) && (e.Ok? ==> r.Ok? && pose.body == e.value)
  {
    var wristIndex := PointIndex(pose.header.components, hand + "_HAND_LANDMARKS", "WRIST");
    if wristIndex.Err? {
      return Err(wristIndex.error);
    }
    if !Readable(pose.body, wristIndex.value) {
      return Err(IndexError);
    }
    var bodyWristIndex := PointIndex(pose.header.components, "POSE_LANDMARKS", hand + "_WRIST");
    if bodyWristIndex.Err? {
      return Err(bodyWristIndex.error);
    }
    if !Readable(pose.body, bodyWristIndex.value) || !SameDims(pose.body, wristIndex.value, bodyWristIndex.value) {
      return Err(IndexError);
    }
    pose.body := WristFilled(pose.body, wristIndex.value, bodyWristIndex.value);
    r := Ok(());
  }

  /** `correct_wrists(pose)`, in place. */
  method CorrectWrists(pose: Pose) returns (r: Result<()>)
    modifies pose`body
    ensures var e := CorrectedWrists(pose.header, old(pose.body));
      (e.Err? ==> r == Err(e.error)) && (e.Ok? ==> r.Ok? && pose.body == e.value)
  {
    r := CorrectWrist(pose, "LEFT");
    if r.Err? {
      return;
    }
    r := CorrectWrist(pose, "RIGHT");
  }

  // ---------------------------------------------------------------------
  // trim_pose

  /** `np.argmax` of a boolean array: the first `true`, or 0 if there is
      none. */
  function FirstTrue(s: seq<bool>): (r: nat)
    ensures (exists i :: 0 <= i < |s| && s[i]) ==> r < |s| && s[r] && forall i :: 0 <= i < r ==> !s[i]
    ensures (forall i :: 0 <= i < |s| ==> !s[i]) ==> r == 0
  {
    if s == [] then 0
    else if s[0] then 0
    else
      var k := FirstTrue(s[1..]);
      if k < |s| - 1 && s[1..][k] then k + 1 else 0
  }

  function Reverse<T>(s: seq<T>): (r: seq<T>)
    ensures |r| == |s|
  {
    seq(|s|, i requires 0 <= i < |s| => s[|s| - 1 - i])
  }

  /** `len(s) - np.argmax(s[::-1]) - 1`: the last `true`, or `len(s) - 1`
      if there is none. */
  function LastTrue(s: seq<bool>): int {
    |s| - FirstTrue(Reverse(s)) - 1
  }

  lemma LastTrueSpec(s: seq<bool>)
    ensures (exists i :: 0 <= i < |s| && s[i]) ==>
      0 <= LastTrue(s) < |s| && s[LastTrue(s)] && forall i :: LastTrue(s) < i < |s| ==> !s[i]
    ensures (forall i :: 0 <= i < |s| ==> !s[i]) ==> LastTrue(s) == |s| - 1
  {
    var r := Reverse(s);
    if exists i :: 0 <= i < |s| && s[i] {
      var i :| 0 <= i < |s| && s[i];
      assert r[|s| - 1 - i];
      var k := FirstTrue(r);
      forall j | |s| - 1 - k < j < |s| ensures !s[j] {
        assert !r[|s| - 1 - j];
      }
    } else {
      forall j | 0 <= j < |r| ensures !r[j] {
        assert r[j] == s[|s| - 1 - j];
      }
    }
  }

  /** The confidence of both hand wrists of person 0 can be read in every
      frame. */
  predicate WristsReadable(conf: seq<FrameConfidence>, lw: nat, rw: nat) {
    forall f :: 0 <= f < |conf| ==> |conf[f]| > 0 && lw < |conf[f][0]| && rw < |conf[f][0]|
  }

  /** `either_hand`: per frame, whether the wrist confidences of person 0
      sum to more than zero. */
  function EitherHand(conf: seq<FrameConfidence>, lw: nat, rw: nat): (r: seq<bool>)
    requires WristsReadable(conf, lw, rw)
    ensures |r| == |conf|
  {
    seq(|conf|, f requires 0 <= f < |conf| => conf[f][0][lw] + conf[f][0][rw] > 0)
  }

  /** The wrist points that `trim_pose` reads. */
  const LeftHand: string := "LEFT_HAND_LANDMARKS"
  const RightHand: string := "RIGHT_HAND_LANDMARKS"
  const Wrist: string := "WRIST"

  /** What `trim_pose(pose, start, end)` makes of a body: an empty body is
      kept; otherwise the frames from the first visible one (with `start`)
      up to, not including, the last visible one (with `end`). */
  function Trimmed(h: Header, b: Body, start: bool, end: bool): Result<Body> {
    if |b.data| == 0 then Ok(b)
    else
      var lw :- PointIndex(h.components, LeftHand, Wrist);
      var rw :- PointIndex(h.components, RightHand, Wrist);
      if !WristsReadable(b.confidence, lw, rw) then Err(IndexError)
      else
        var either := EitherHand(b.confidence, lw, rw);
        // `np.argmax` of an empty array raises.
        if (start || end) && either == [] then Err(ValueError)
        else
          var first := if start then FirstTrue(either) else 0;
          var last := if end then LastTrue(either) else |either|;
          Ok(SliceBody(b, first, last))
  }

  /** The frame `k` is the first, or the last, where a hand is visible. */
  predicate IsFirstVisible(either: seq<bool>, k: int) {
    0 <= k < |either| && either[k] && forall i :: 0 <= i < k ==> !either[i]
  }

  predicate IsLastVisible(either: seq<bool>, k: int) {
    0 <= k < |either| && either[k] && forall i :: k < i < |either| ==> !either[i]
  }

  /** With a visible hand, the kept frames run from the first visible frame
      (or 0 without `start`) up to the last visible frame, which is dropped
      (or to the end without `end`); with none visible, `start` keeps 0 and
      `end` still drops the final frame. */
  lemma TrimmedSpec(h: Header, b: Body, start: bool, end: bool)
    requires |b.data| > 0 && Trimmed(h, b, start, end).Ok?
    ensures var lw := PointIndex(h.components, LeftHand, Wrist).value;
      var rw := PointIndex(h.components, RightHand, Wrist).value;
      var either := EitherHand(b.confidence, lw, rw);
      var r := Trimmed(h, b, start, end).value;
      ((exists i :: 0 <= i < |either| && either[i]) ==>
         exists first, last :: IsFirstVisible(either, first) && IsLastVisible(either, last) && first <= last
           && r == SliceBody(b, if start then first else 0, if end then last else |either|))
      && ((forall i :: 0 <= i < |either| ==> !either[i]) ==>
            r == SliceBody(b, 0, if end then |either| - 1 else |either|))
  {
    var lw := PointIndex(h.components, LeftHand, Wrist).value;
    var rw := PointIndex(h.components, RightHand, Wrist).value;
    var either := EitherHand(b.confidence, lw, rw);
    LastTrueSpec(either);
    if exists i :: 0 <= i < |either| && either[i] {
      var first := FirstTrue(either);
      var last := LastTrue(either);
      assert IsFirstVisible(either, first) && IsLastVisible(either, last);
    }
  }

  /** A body with exactly one visible frame trimmed at both ends loses every
      frame. */
  lemma TrimmedSingleVisible(h: Header, b: Body, k: nat)
    requires |b.data| > 0 && Trimmed(h, b, true, true).Ok? && FramesAgree(b)
    requires var lw := PointIndex(h.components, LeftHand, Wrist).value;
      var rw := PointIndex(h.components, RightHand, Wrist).value;
      var either := EitherHand(b.confidence, lw, rw);
      k < |either| && either[k] && forall i :: 0 <= i < |either| && i != k ==> !either[i]
    ensures Trimmed(h, b, true, true).value.data == []
  {
    TrimmedSpec(h, b, true, true);
  }

  /** `trim_pose(pose, start, end)`, in place: on an error the pose is left
      as it was. */
  method TrimPose(pose: Pose, start: bool, end: bool) returns (r: Result<()>)
    modifies pose`body
    ensures var e := Trimmed(pose.header, old(pose.body), start, end);
      (e.Err? ==> r == Err(e.error) && pose.body == old(pose.body)) && (e.Ok? ==> r.Ok? && pose.body == e.value)
  {
    if |pose.body.data| == 0 {
      return Ok(());
    }
    var left := PointIndex(pose.header.components, LeftHand, Wrist);
    if left.Err? {
      return Err(left.error);
    }
    var right := PointIndex(pose.header.components, RightHand, Wrist);
    if right.Err? {
      return Err(right.error);
    }
    if !WristsReadable(pose.body.confidence, left.value, right.value) {
      return Err(IndexError);
    }
    var eitherHand := EitherHand(pose.body.confidence, left.value, right.value);
    if (start || end) && eitherHand == [] {
      return Err(ValueError);
    }
    var firstNonZero := if start then FirstTrue(eitherHand) else 0;
    var lastNonZero := if end then |eitherHand| - FirstTrue(Reverse(eitherHand)) - 1 else |eitherHand|;
    pose.body := SliceBody(pose.body, firstNonZero, lastNonZero);
    r := Ok(());
  }

  // ---------------------------------------------------------------------
  // concatenate_poses

  /** `normalize_pose(pose)`, a `pose_format` call. */
  type Normalizer = PoseData -> PoseData

  /** `(data + 1.25) * 500`, floating-point arithmetic on the coordinates. */
  type Rescaler = seq<Frame> -> seq<Frame>

  const NEW_WIDTH: real := 500.0

  const SHIFT: real := 1.25

  /** The new canvas width and height, `int(new_width * shift * 2)`. */
  function OutputSize(): (r: int)
    ensures r == 1250
  {
    Smoothing.Trunc(NEW_WIDTH * SHIFT * 2.0)
  }

  function Resized(h: Header): Header {
    Header(Dimensions(OutputSize(), OutputSize(), h.dimensions.depth), h.components)
  }

  /** The outcome of reducing each input. */
  function Reductions(inputs: seq<PoseData>, getComponents: ComponentGetter): (r: seq<Result<PoseData>>)
    ensures |r| == |inputs|
  {
    seq(|inputs|, k requires 0 <= k < |inputs| => ReduceHolistic(inputs[k], getComponents))
  }

  /** The outcome of trimming each pose: all but the first are trimmed at
      the start, all but the last at the end. */
  function Trims(ps: seq<PoseData>): (r: seq<Result<Body>>)
    ensures |r| == |ps|
  {
    seq(|ps|, k requires 0 <= k < |ps| => Trimmed(ps[k].header, ps[k].body, k > 0, k < |ps| - 1))
  }

  /** What `smooth_concatenate_poses` returns for the trimmed bodies under the
      first pose's header. */
  function SmoothJoined(header: Header, bodies: seq<Body>, interpolate: Body -> Body, savgol: seq<int> -> seq<int>)
    : Result<PoseData>
  {
    if |bodies| == 0 then Err(ValueError)
    else if |bodies| == 1 then Ok(PoseData(header, bodies[0]))
    else
      var joined :- Smoothing.SmoothPlan(bodies, header, interpolate, savgol).1;
      Ok(PoseData(header, joined))
  }

  /** The reduced and normalised poses, or the first reduction error. */
  function Prepared(inputs: seq<PoseData>, getComponents: ComponentGetter, normalize: Normalizer)
    : Result<seq<PoseData>>
  {
    var reduced :- AllOk(Reductions(inputs, getComponents));
    Ok(seq(|reduced|, k requires 0 <= k < |reduced| => normalize(reduced[k])))
  }

  /** The prepared poses trimmed and smoothly joined. */
  function Assembled(ps: seq<PoseData>, interpolate: Body -> Body, savgol: seq<int> -> seq<int>): (r: Result<PoseData>)
    ensures r.Ok? ==> ps != [] && r.value.header == ps[0].header
  {
    var trimmed :- AllOk(Trims(ps));
    if ps == [] then Err(ValueError) else SmoothJoined(ps[0].header, trimmed, interpolate, savgol)
  }

  /** The joined pose with its wrists corrected, rescaled onto the new
      canvas. */
  function Finished(joined: PoseData, rescale: Rescaler): (r: Result<PoseData>)
    ensures r.Ok? ==> r.value.header == Resized(joined.header)
  {
    var corrected :- CorrectedWrists(joined.header, joined.body);
    Ok(PoseData(Resized(joined.header), Body(corrected.fps, rescale(corrected.data), corrected.confidence)))
  }

  /** What `concatenate_poses(poses)` returns. */
  function Concatenated(inputs: seq<PoseData>, getComponents: ComponentGetter, normalize: Normalizer,
                        interpolate: Body -> Body, savgol: seq<int> -> seq<int>, rescale: Rescaler)
    : Result<PoseData>
  {
    var prepared :- Prepared(inputs, getComponents, normalize);
    var joined :- Assembled(prepared, interpolate, savgol);
    Finished(joined, rescale)
  }

  /** `t` is `b` without some of its final frames. */
  ghost predicate KeepsStart(b: Body, t: Body) {
    t == b || exists end :: t == SliceBody(b, 0, end)
  }

  /** `t` is `b` without some of its first frames. */
  ghost predicate KeepsEnd(b: Body, t: Body) {
    t == b || exists start :: t == SliceBody(b, start, |b.confidence|)
  }

  /** Trimming without `start` keeps the first frame, without `end` the
      last. */
  lemma TrimmedFlags(h: Header, b: Body, start: bool, end: bool)
    requires Trimmed(h, b, start, end).Ok?
    ensures !start ==> KeepsStart(b, Trimmed(h, b, start, end).value)
    ensures !end ==> KeepsEnd(b, Trimmed(h, b, start, end).value)
  {
    if |b.data| > 0 {
      var lw := PointIndex(h.components, LeftHand, Wrist).value;
      var rw := PointIndex(h.components, RightHand, Wrist).value;
      var either := EitherHand(b.confidence, lw, rw);
      var t := Trimmed(h, b, start, end).value;
      assert t == SliceBody(b, if start then FirstTrue(either) else 0, if end then LastTrue(either) else |either|);
    }
  }

  /** The first pose is never trimmed at the start and the last never at
      the end. */
  lemma TrimsKeepOuterEnds(ps: seq<PoseData>)
    requires |ps| >= 1 && AllOk(Trims(ps)).Ok?
    ensures var t := AllOk(Trims(ps)).value;
      |t| == |ps| && KeepsStart(ps[0].body, t[0]) && KeepsEnd(ps[|ps| - 1].body, t[|ps| - 1])
  {
    var rs := Trims(ps);
    AllOkSpec(rs);
    var n := |ps| - 1;
    assert rs[0].Ok? && rs[n].Ok?;
    TrimmedFlags(ps[0].header, ps[0].body, 0 > 0, 0 < |ps| - 1);
    TrimmedFlags(ps[n].header, ps[n].body, n > 0, n < |ps| - 1);
  }

  /** No pose, or a pose that cannot be reduced, fails the whole
      concatenation, with the error of the first failing reduction. */
  lemma ConcatenatedFails(inputs: seq<PoseData>, getComponents: ComponentGetter, normalize: Normalizer,
                          interpolate: Body -> Body, savgol: seq<int> -> seq<int>, rescale: Rescaler)
    ensures inputs == [] ==> Concatenated(inputs, getComponents, normalize, interpolate, savgol, rescale) == Err(ValueError)
    ensures (exists k :: 0 <= k < |inputs| && HolisticSelection(inputs[k].header).Err?) ==>
      Concatenated(inputs, getComponents, normalize, interpolate, savgol, rescale) == Err(IndexError)
  {
    if exists k :: 0 <= k < |inputs| && HolisticSelection(inputs[k].header).Err? {
      var k :| 0 <= k < |inputs| && HolisticSelection(inputs[k].header).Err?;
      ReductionsFail(inputs, getComponents, k);
    }
  }

  /** One pose without a body component makes the reductions fail with
      `IndexError`. */
  lemma ReductionsFail(inputs: seq<PoseData>, getComponents: ComponentGetter, k: nat)
    requires k < |inputs| && HolisticSelection(inputs[k].header).Err?
    ensures AllOk(Reductions(inputs, getComponents)) == Err(IndexError)
  {
    var rs := Reductions(inputs, getComponents);
    assert rs[k].Err?;
    FirstFailing(rs, k);
    var m :| 0 <= m <= k && rs[m].Err? && forall j :: 0 <= j < m ==> rs[j].Ok?;
    AllOkFirstError(rs, m);
  }

  /** The result lies on a 1250 by 1250 canvas and keeps the components of
      the first prepared pose. */
  lemma ConcatenatedCanvas(inputs: seq<PoseData>, getComponents: ComponentGetter, normalize: Normalizer,
                           interpolate: Body -> Body, savgol: seq<int> -> seq<int>, rescale: Rescaler)
    requires Concatenated(inputs, getComponents, normalize, interpolate, savgol, rescale).Ok?
    ensures var e := Concatenated(inputs, getComponents, normalize, interpolate, savgol, rescale).value;
      var ps := Prepared(inputs, getComponents, normalize).value;
      ps != [] && e.header.dimensions.width == 1250 && e.header.dimensions.height == 1250
      && e.header.components == ps[0].header.components
  {
    var c := Concatenated(inputs, getComponents, normalize, interpolate, savgol, rescale);
    var p := Prepared(inputs, getComponents, normalize);
    assert p.Ok?;
    var a := Assembled(p.value, interpolate, savgol);
    assert a.Ok?;
    assert c == Finished(a.value, rescale);
  }

  /** Below a failing element, some element is the first to fail. */
  lemma {:induction false} FirstFailing<T>(rs: seq<Result<T>>, k: nat)
    requires k < |rs| && rs[k].Err?
    ensures exists m :: 0 <= m <= k && rs[m].Err? && forall j :: 0 <= j < m ==> rs[j].Ok?
    decreases k
  {
    if exists j :: 0 <= j < k && rs[j].Err? {
      var j :| 0 <= j < k && rs[j].Err?;
      FirstFailing(rs, j);
    }
  }

  /** The poses of a list comprehension: new, distinct objects holding the
      given values. */
  method MakePoses(values: seq<PoseData>) returns (poses: seq<Pose>)
    ensures |poses| == |values|
    ensures forall k :: 0 <= k < |poses| ==>
      fresh(poses[k]) && poses[k].header == values[k].header && poses[k].body == values[k].body
    ensures forall i, j :: 0 <= i < j < |poses| ==> poses[i] != poses[j]
  {
    poses := [];
    var i := 0;
    while i < |values|
      invariant 0 <= i <= |values| && |poses| == i
      invariant forall k :: 0 <= k < i ==>
        fresh(poses[k]) && poses[k].header == values[k].header && poses[k].body == values[k].body
      invariant forall k, m :: 0 <= k < m < i ==> poses[k] != poses[m]
    {
      var pose := new Pose(values[i].header, values[i].body);
      poses := poses + [pose];
      i := i + 1;
    }
  }

  /** The first `i` poses are trimmed, with the outcomes of the
      comprehension so far; the others are as they were. */
  ghost predicate TrimmedSoFar(ps: seq<PoseData>, cur: seq<Body>, i: nat) {
    |cur| == |ps| && i <= |ps| && AllOk(Trims(ps)[..i]) == Ok(cur[..i])
    && forall k :: i <= k < |ps| ==> cur[k] == ps[k].body
  }

  /** `[trim_pose(p, i > 0, i < len(poses) - 1) for i, p in enumerate(poses)]`,
      trimming each pose in place. */
  method TrimPoses(poses: seq<Pose>, ghost ps: seq<PoseData>) returns (r: Result<()>)
    requires |ps| == |poses|
    requires forall k :: 0 <= k < |poses| ==> poses[k].header == ps[k].header && poses[k].body == ps[k].body
    requires forall i, j :: 0 <= i < j < |poses| ==> poses[i] != poses[j]
    modifies poses`body
    ensures var e := AllOk(Trims(ps));
      (e.Err? ==> r == Err(e.error)) && (e.Ok? ==> r.Ok? && forall k :: 0 <= k < |poses| ==> poses[k].body == e.value[k])
  {
    ghost var cur := seq(|ps|, k requires 0 <= k < |ps| => ps[k].body);
    assert Trims(ps)[..0] == [] && cur[..0] == [];
    var n := |poses|;
    var i := 0;
    while i < n
      invariant 0 <= i <= n && TrimmedSoFar(ps, cur, i)
      invariant forall k :: 0 <= k < n ==> poses[k].body == cur[k]
    {
      r, cur := TrimNext(poses, ps, i, cur);
      if r.Err? {
        return;
      }
      i := i + 1;
    }
    assert Trims(ps)[..n] == Trims(ps) && cur[..n] == cur;
    r := Ok(());
  }

  /** One pass of the trimming comprehension. */
  method TrimNext(poses: seq<Pose>, ghost ps: seq<PoseData>, i: nat, ghost cur: seq<Body>)
    returns (r: Result<()>, ghost cur': seq<Body>)
    requires i < |ps| == |poses| && TrimmedSoFar(ps, cur, i)
    requires poses[i].header == ps[i].header
    requires forall k :: 0 <= k < |poses| ==> poses[k].body == cur[k]
    requires forall i, j :: 0 <= i < j < |poses| ==> poses[i] != poses[j]
    modifies poses`body
    ensures r.Err? ==> AllOk(Trims(ps)) == Err(r.error)
    ensures r.Ok? ==> TrimmedSoFar(ps, cur', i + 1) && forall k :: 0 <= k < |poses| ==> poses[k].body == cur'[k]
  {
    ghost var rs := Trims(ps);
    assert rs[i] == Trimmed(poses[i].header, poses[i].body, i > 0, i < |poses| - 1);
    r := TrimPose(poses[i], i > 0, i < |poses| - 1);
    if r.Err? {
      AllOkStopsAt(rs, i);
      return r, cur;
    }
    AllOkSnoc(rs, i, cur[..i]);
    cur' := cur[i := poses[i].body];
    assert cur'[..i + 1] == cur[..i] + [cur'[i]];
  }

  /** The prepared poses as new objects, trimmed and smoothly joined. */
  method AssemblePoses(prepared: seq<PoseData>, interpolate: Body -> Body, savgol: seq<int> -> seq<int>)
    returns (r: Result<Pose>)
    ensures var e := Assembled(prepared, interpolate, savgol);
      (e.Err? ==> r == Err(e.error)) && (e.Ok? ==> r.Ok? && fresh(r.value) && r.value.Value() == e.value)
  {
    var poses := MakePoses(prepared);
    var trimmed := TrimPoses(poses, prepared);
    if trimmed.Err? {
      return Err(trimmed.error);
    }
    ghost var bodies := AllOk(Trims(prepared)).value;
    r := Smoothing.SmoothConcatenatePoses(poses, bodies, interpolate, savgol);
  }

  /** The wrists of the joined pose corrected and the pose rescaled onto the
      new canvas, in place. */
  method FinishPose(pose: Pose, rescale: Rescaler) returns (r: Result<()>)
    modifies pose
    ensures var e := Finished(old(pose.Value()), rescale);
      (e.Err? ==> r == Err(e.error)) && (e.Ok? ==> r.Ok? && pose.Value() == e.value)
  {
    r := CorrectWrists(pose);
    if r.Err? {
      return;
    }
    pose.body := Body(pose.body.fps, rescale(pose.body.data), pose.body.confidence);
    pose.header := Resized(pose.header);
  }

  /** `concatenate_poses(poses)`: the input poses are not changed; the
      result is a new pose. */
  method ConcatenatePoses(inputs: seq<PoseData>, getComponents: ComponentGetter, normalize: Normalizer,
                          interpolate: Body -> Body, savgol: seq<int> -> seq<int>, rescale: Rescaler)
    returns (r: Result<Pose>)
    ensures var e := Concatenated(inputs, getComponents, normalize, interpolate, savgol, rescale);
      (e.Err? ==> r == Err(e.error)) && (e.Ok? ==> r.Ok? && fresh(r.value) && r.value.Value() == e.value)
  {
    var prepared := Prepared(inputs, getComponents, normalize);
    if prepared.Err? {
      return Err(prepared.error);
    }
    r := AssemblePoses(prepared.value, interpolate, savgol);
    if r.Err? {
      return;
    }
    var finished := FinishPose(r.value, rescale);
    if finished.Err? {
      return Err(finished.error);
    }
  }
}
