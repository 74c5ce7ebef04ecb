/** The face pipeline of `attendance_app/face_utils.py`: clamp detector
    rectangles to the image, encode the first detected face, and decide whether
    two descriptors match under a distance tolerance.

    The three dlib models are foreign code; they are the fields of `Models`, a
    bundle loaded once and passed to every call. */
module FaceUtils {
  import opened Wrappers

  /** Upsampling passes given to the frontal-face detector (`face_detector(image, 1)`). */
  const UPSAMPLE: nat := 1

  /** Jittered re-samplings averaged by the descriptor encoder (`num_jitters=5`). */
  const NUM_JITTERS: nat := 5

  /** A decoded RGB pixel array; `height` and `width` are `image.shape[0]` and `image.shape[1]`. */
  datatype Image = Image(height: nat, width: nat, pixels: seq<bv8>)

  /** A `dlib.rectangle` as the detector returns it; its edges may lie outside the image. */
  datatype Rect = Rect(left: int, top: int, right: int, bottom: int)

  /** One part of a `dlib.full_object_detection`. */
  datatype Point = Point(x: int, y: int)

  /** The landmark predictor's output: its parts in the model's own order. */
  datatype Shape = Shape(parts: seq<Point>)

  /** A face descriptor, as the numpy vector holding it. */
  type Descriptor = seq<real>

  /** The Python tuple `(top, right, bottom, left)` of a face box. */
  type Coord = (int, int, int, int)

  /** The Python tuple `(x, y)` of one landmark. */
  type Landmark = (int, int)

  /** The models loaded at import time: the frontal-face detector (image and
      upsampling count to rectangles), the 68-point shape predictor and the
      ResNet face encoder (image, shape and jitter count to a descriptor). */
  datatype Models = Models(
    detector: (Image, nat) -> seq<Rect>,
    predictor68: (Image, Rect) -> Shape,
    encoder: (Image, Shape, nat) -> Descriptor)

  function Max(a: int, b: int): int { if a < b then b else a }

  function Min(a: int, b: int): int { if a < b then a else b }

  // ---------------------------------------------------------------------
  // Clamping a detection to the image
  // ---------------------------------------------------------------------

  /** The box `(top, right, bottom, left)` of a detection, each edge clamped on
      its own: top and left are raised to 0, right is lowered to the width and
      bottom to the height. An edge already inside the image is kept. */
  function ClampFace(image: Image, face: Rect): (c: Coord)
    ensures c.0 >= 0 && c.3 >= 0
    ensures c.1 <= image.width && c.2 <= image.height
    ensures c.0 == (if face.top >= 0 then face.top else 0)
    ensures c.1 == (if face.right <= image.width then face.right else image.width)
    ensures c.2 == (if face.bottom <= image.height then face.bottom else image.height)
    ensures c.3 == (if face.left >= 0 then face.left else 0)
  {
    (Max(face.top, 0), Min(face.right, image.width), Min(face.bottom, image.height), Max(face.left, 0))
  }

  /** Each edge of the box depends only on the same edge of the detection. */
  lemma ClampPerEdge(image: Image, f: Rect, g: Rect)
    ensures f.top == g.top ==> ClampFace(image, f).0 == ClampFace(image, g).0
    ensures f.right == g.right ==> ClampFace(image, f).1 == ClampFace(image, g).1
    ensures f.bottom == g.bottom ==> ClampFace(image, f).2 == ClampFace(image, g).2
    ensures f.left == g.left ==> ClampFace(image, f).3 == ClampFace(image, g).3
  {
  }

  /** A well-formed detection that overlaps the image gives a well-formed box. */
  lemma ClampKeepsOrder(image: Image, face: Rect)
    requires face.top <= face.bottom && face.left <= face.right
    requires face.top <= image.height && face.bottom >= 0
    requires face.left <= image.width && face.right >= 0
    ensures ClampFace(image, face).0 <= ClampFace(image, face).2
    ensures ClampFace(image, face).3 <= ClampFace(image, face).1
  {
  }

  /** Clamping alone does not order the edges: a detection lying below the
      image gives a box whose top is under its bottom. */
  lemma ClampMayInvert()
    ensures var c := ClampFace(Image(10, 10, []), Rect(0, 12, 5, 20)); c.0 > c.2
  {
  }

  /** `transform(image, face_locations)`: one clamped box per detection, in the
      detector's order. */
  method Transform(image: Image, faceLocations: seq<Rect>) returns (coordFaces: seq<Coord>)
    ensures |coordFaces| == |faceLocations|
    ensures forall i :: 0 <= i < |faceLocations| ==> coordFaces[i] == ClampFace(image, faceLocations[i])
  {
    coordFaces := [];
    for k := 0 to |faceLocations|
      invariant |coordFaces| == k
      invariant forall i :: 0 <= i < k ==> coordFaces[i] == ClampFace(image, faceLocations[i])
    {
      var coordFace := ClampFace(image, faceLocations[k]);
      coordFaces := coordFaces + [coordFace];
    }
  }

  // ---------------------------------------------------------------------
  // Encoding the first face
  // ---------------------------------------------------------------------

  /** `[(p.x, p.y) for p in shape.parts()]`. */
  function Landmarks(shape: Shape): (r: seq<Landmark>)
    ensures |r| == |shape.parts|
  {
    seq(|shape.parts|, i requires 0 <= i < |shape.parts| => (shape.parts[i].x, shape.parts[i].y))
  }

  /** The points a landmark list stands for. */
  function ToPoints(landmarks: seq<Landmark>): (r: seq<Point>)
    ensures |r| == |landmarks|
  {
    seq(|landmarks|, i requires 0 <= i < |landmarks| => Point(landmarks[i].0, landmarks[i].1))
  }

  /** The landmark list keeps every part of the shape, in the predictor's order. */
  lemma LandmarksKeepParts(shape: Shape)
    ensures ToPoints(Landmarks(shape)) == shape.parts
  {
  }

  /** `encode_face(image)`: detect with one upsampling pass; with no detection,
      `(None, None, None)`; otherwise the descriptor, the clamped box and the
      landmarks of detection 0. */
  function EncodeFace(m: Models, image: Image): (r: (Option<Descriptor>, Option<Coord>, Option<seq<Landmark>>))
    ensures r.0.None? <==> m.detector(image, UPSAMPLE) == []
    ensures r.0.None? <==> r.1.None?
    ensures r.0.None? <==> r.2.None?
    ensures r.1.Some? ==> ClampFace(image, m.detector(image, UPSAMPLE)[0]) == r.1.value
  {
    var faceLocations := m.detector(image, UPSAMPLE);
    if faceLocations == [] then
      (None, None, None)
    else
      var faceLocation := faceLocations[0];
      var shape := m.predictor68(image, faceLocation);
      var faceEncoding := m.encoder(image, shape, NUM_JITTERS);
      var coordFace := ClampFace(image, faceLocation);
      (Some(faceEncoding), Some(coordFace), Some(Landmarks(shape)))
  }

  /** Only detection 0 matters: two detectors that agree on their first
      rectangle give the same encoding, box and landmarks, whatever else they
      found and in whatever order. */
  lemma FirstDetectionDecides(m: Models, m': Models, image: Image)
    requires m.predictor68 == m'.predictor68 && m.encoder == m'.encoder
    requires m.detector(image, UPSAMPLE) != [] && m'.detector(image, UPSAMPLE) != []
    requires m.detector(image, UPSAMPLE)[0] == m'.detector(image, UPSAMPLE)[0]
    ensures EncodeFace(m, image) == EncodeFace(m', image)
  {
  }

  /** With detections, the pieces of the result come from detection 0: the
      descriptor from the encoder at five jitters over its shape, and the
      landmarks are that shape's parts. */
  lemma EncodeFaceUsesFirstDetection(m: Models, image: Image)
    requires m.detector(image, UPSAMPLE) != []
    ensures var face := m.detector(image, UPSAMPLE)[0];
      var shape := m.predictor68(image, face);
      && EncodeFace(m, image).0 == Some(m.encoder(image, shape, NUM_JITTERS))
      && EncodeFace(m, image).2.Some?
      && ToPoints(EncodeFace(m, image).2.value) == shape.parts
  {
    LandmarksKeepParts(m.predictor68(image, m.detector(image, UPSAMPLE)[0]));
  }

  /** The box of `encode_face` is the first box `transform` gives for the same detections. */
  method EncodeFaceBoxAgreesWithTransform(m: Models, image: Image) returns (box: Option<Coord>)
    ensures box == EncodeFace(m, image).1
  {
    var faceLocations := m.detector(image, UPSAMPLE);
    if faceLocations == [] {
      box := None;
    } else {
      var coordFaces := Transform(image, faceLocations);
      box := Some(coordFaces[0]);
    }
  }

  /** The predictor always yields 68 parts, as the 68-point model does. */
  ghost predicate Predicts68(m: Models)
  {
    forall image, face :: |m.predictor68(image, face).parts| == 68
  }

  /** With the 68-point model, a landmark list has 68 entries. */
  lemma SixtyEightLandmarks(m: Models, image: Image)
    requires Predicts68(m)
    ensures EncodeFace(m, image).2.Some? ==> |EncodeFace(m, image).2.value| == 68
  {
  }

  // ---------------------------------------------------------------------
  // Comparing descriptors
  // ---------------------------------------------------------------------

  /** A Euclidean distance, held exactly as its square: `L2(q)` is the
      non-negative real whose square is `q`. */
  datatype Distance = L2(squared: real)

  /** `x` is the real number `d` stands for. */
  ghost predicate Denotes(d: Distance, x: real)
  {
    x >= 0.0 && x * x == d.squared
  }

  /** The distance `compare_faces` reports when an encoding is missing: 1.0. */
  const SENTINEL: Distance := L2(1.0)

  /** `distance <= tolerance`, decided on the square: for the number `d`
      stands for, this is the comparison itself, inclusive at equality. */
  predicate AtMost(d: Distance, tolerance: real): (r: bool)
    ensures r ==> tolerance >= 0.0
    ensures forall x :: Denotes(d, x) ==> (r <==> x <= tolerance)
  {
    ThresholdOnSquares(d, tolerance);
    tolerance >= 0.0 && d.squared <= tolerance * tolerance
  }

  /** Comparing squares decides the comparison of the non-negative roots. */
  lemma ThresholdOnSquares(d: Distance, tolerance: real)
    ensures forall x :: Denotes(d, x) ==>
      ((tolerance >= 0.0 && d.squared <= tolerance * tolerance) <==> x <= tolerance)
  {
    forall x | Denotes(d, x)
      ensures (tolerance >= 0.0 && d.squared <= tolerance * tolerance) <==> x <= tolerance
    {
      if tolerance >= 0.0 {
        if x < tolerance {
          SquareIncreasing(x, tolerance);
        } else if tolerance < x {
          SquareIncreasing(tolerance, x);
        }
      }
    }
  }

  /** Squaring is strictly increasing on the non-negative reals. */
  lemma SquareIncreasing(x: real, y: real)
    requires 0.0 <= x < y
    ensures x * x < y * y
  {
    var gap := y - x;
    assert gap > 0.0 && y > 0.0;
    assert gap * y > 0.0;
    assert y * y == x * y + gap * y;
    MultiplyLeft(x, x, y);
    calc {
      x * x;
    <= x * y;
    < y * y;
    }
  }

  lemma MultiplyLeft(c: real, a: real, b: real)
    requires c >= 0.0 && a <= b
    ensures c * a <= c * b
  {
    assert c * b - c * a == c * (b - a);
  }

  /** A square is non-negative, and zero only for zero. */
  lemma SquareSign(x: real)
    ensures x * x >= 0.0
    ensures x * x == 0.0 ==> x == 0.0
  {
    if x < 0.0 {
      SquareIncreasing(0.0, -x);
    } else if x > 0.0 {
      SquareIncreasing(0.0, x);
    }
  }

  /** A distance stands for at most one number. */
  lemma DenotesUnique(d: Distance, x: real, y: real)
    requires Denotes(d, x) && Denotes(d, y)
    ensures x == y
  {
    if x < y {
      SquareIncreasing(x, y);
    } else if y < x {
      SquareIncreasing(y, x);
    }
  }

  /** The sentinel stands for 1.0. */
  lemma SentinelIsOne()
    ensures Denotes(SENTINEL, 1.0)
    ensures forall x :: Denotes(SENTINEL, x) ==> x == 1.0
  {
    forall x | Denotes(SENTINEL, x)
      ensures x == 1.0
    {
      DenotesUnique(SENTINEL, x, 1.0);
    }
  }

  /** The test on the square is the test `distance <= tolerance` on the number,
      inclusive at equality. */
  lemma AtMostIsThreshold(d: Distance, x: real, tolerance: real)
    requires Denotes(d, x)
    ensures AtMost(d, tolerance) <==> x <= tolerance
  {
  }

  /** Sum of the squares of the entries of a vector. */
  function SumOfSquares(v: seq<real>): (s: real)
    ensures s >= 0.0
    ensures s == 0.0 <==> forall i :: 0 <= i < |v| ==> v[i] == 0.0
  {
    if v == [] then 0.0
    else
      var rest := SumOfSquares(v[1..]);
      SquareSign(v[0]);
      assert forall i :: 1 <= i < |v| ==> v[i] == v[1..][i - 1];
      v[0] * v[0] + rest
  }

  /** numpy can subtract two vectors when their lengths agree or one has length 1. */
  predicate Broadcastable(a: seq<real>, b: seq<real>)
  {
    |a| == |b| || |a| == 1 || |b| == 1
  }

  /** The entry of `a` that numpy pairs with position `i`: a length-1 vector is
      repeated. */
  function At(a: seq<real>, i: nat): real
    requires |a| == 1 || i < |a|
  {
    if |a| == 1 then a[0] else a[i]
  }

  /** numpy's `a - b` with broadcasting. */
  function Subtract(a: seq<real>, b: seq<real>): (d: seq<real>)
    requires Broadcastable(a, b)
    ensures |d| == (if |a| == 1 then |b| else |a|)
  {
    var n := if |a| == 1 then |b| else |a|;
    seq(n, i requires 0 <= i < n => At(a, i) - At(b, i))
  }

  /** `np.linalg.norm(a - b)`. */
  function EuclideanDistance(a: seq<real>, b: seq<real>): (d: Distance)
    requires Broadcastable(a, b)
    ensures d.squared >= 0.0
    ensures d.squared == 0.0 <==> forall i :: 0 <= i < |Subtract(a, b)| ==> Subtract(a, b)[i] == 0.0
  {
    L2(SumOfSquares(Subtract(a, b)))
  }

  /** Negating every entry keeps the sum of squares. */
  lemma {:induction false} SumOfSquaresNegated(v: seq<real>, w: seq<real>)
    requires |v| == |w|
    requires forall i :: 0 <= i < |v| ==> w[i] == -v[i]
    ensures SumOfSquares(v) == SumOfSquares(w)
  {
    if v != [] {
      SumOfSquaresNegated(v[1..], w[1..]);
      assert w[0] * w[0] == v[0] * v[0];
      assert SumOfSquares(v) == v[0] * v[0] + SumOfSquares(v[1..]);
      assert SumOfSquares(w) == w[0] * w[0] + SumOfSquares(w[1..]);
    }
  }

  /** The distance is symmetric. */
  lemma DistanceSymmetric(a: seq<real>, b: seq<real>)
    requires Broadcastable(a, b)
    ensures EuclideanDistance(a, b) == EuclideanDistance(b, a)
  {
    SumOfSquaresNegated(Subtract(a, b), Subtract(b, a));
  }

  /** Two vectors of the same length are at distance zero exactly when they are equal. */
  lemma DistanceZeroIffEqual(a: seq<real>, b: seq<real>)
    requires |a| == |b|
    ensures EuclideanDistance(a, b).squared == 0.0 <==> a == b
  {
    var d := Subtract(a, b);
    if |a| == 1 {
      assert d[0] == a[0] - b[0];
    } else {
      assert forall i :: 0 <= i < |a| ==> d[i] == a[i] - b[i];
    }
    if d == [] || forall i :: 0 <= i < |d| ==> d[i] == 0.0 {
      assert a == b;
    }
  }

  /** Why `compare_faces` could not produce a decision: numpy refused to subtract. */
  datatype CompareError = NotBroadcastable

  /** The pair `(is_match, distance)`. */
  datatype Comparison = Comparison(isMatch: bool, distance: Distance)

  /** `compare_faces(known, unknown, tolerance)`: with a missing encoding,
      no match at distance 1.0; otherwise the Euclidean distance of the two
      vectors, a match when it is at most the tolerance. Vectors numpy cannot
      subtract raise. */
  function CompareFaces(known: Option<Descriptor>, unknown: Option<Descriptor>, tolerance: real): (r: Result<Comparison, CompareError>)
    ensures known.None? || unknown.None? ==> r == Success(Comparison(false, SENTINEL))
    ensures known.Some? && unknown.Some? ==>
      (r.Success? <==> Broadcastable(known.value, unknown.value))
    ensures known.Some? && unknown.Some? && r.Success? ==>
      && r.value.distance == EuclideanDistance(known.value, unknown.value)
      && (r.value.isMatch <==> AtMost(r.value.distance, tolerance))
  {
    if known.None? || unknown.None? then
      Success(Comparison(false, SENTINEL))
    else if !Broadcastable(known.value, unknown.value) then
      Failure(NotBroadcastable)
    else
      var distance := EuclideanDistance(known.value, unknown.value);
      var isMatch := AtMost(distance, tolerance);
      Success(Comparison(isMatch, distance))
  }

  /** Comparing is symmetric in the two encodings. */
  lemma CompareSymmetric(known: Option<Descriptor>, unknown: Option<Descriptor>, tolerance: real)
    ensures CompareFaces(known, unknown, tolerance) == CompareFaces(unknown, known, tolerance)
  {
    if known.Some? && unknown.Some? && Broadcastable(known.value, unknown.value) {
      DistanceSymmetric(known.value, unknown.value);
    }
  }

  /** An encoding matches itself under any non-negative tolerance, at distance 0. */
  lemma SelfMatch(e: Descriptor, tolerance: real)
    requires tolerance >= 0.0
    ensures CompareFaces(Some(e), Some(e), tolerance) == Success(Comparison(true, L2(0.0)))
  {
    DistanceZeroIffEqual(e, e);
  }

  /** 128 zeros against 128 zeros at tolerance 0: a match at distance 0. */
  lemma ZeroVectorsMatchAtZeroTolerance()
    ensures var zero := seq(128, _ => 0.0);
      CompareFaces(Some(zero), Some(zero), 0.0) == Success(Comparison(true, L2(0.0)))
  {
    SelfMatch(seq(128, _ => 0.0), 0.0);
  }
}
