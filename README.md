# Face verification in the Smart Attendance System, modelled in Dafny

The attendance system checks a student's identity from a webcam capture. The
`verify_face` view looks the student up and reads the stored 128-number face
encoding. It then takes the image out of its `data:` URL and encodes the live
face. The live encoding is compared with the stored one under a distance
tolerance. Every comparison is recorded as an `Attendance` row, and the view
is meant to answer in JSON. It does not always: a NULL stored encoding, an
image string that does not split in two, bad base64 and bytes that are not an
image raise exceptions the view does not catch, and the compare path raises
after the row is written (see "## Findings"). This project models that decision layer and proves its
properties:

- `face_utils.dfy` (module `FaceUtils`) models `attendance_app/face_utils.py`.
  `Transform` clamps detector rectangles to the image, one edge at a time, in a
  loop. `EncodeFace` encodes the first detected face. `CompareFaces` is the
  thresholded Euclidean comparison with its absent-encoding sentinel. The dlib
  detector, 68-point shape predictor and ResNet encoder are the function-valued
  fields of a `Models` bundle, loaded once and passed to every call.
- `views.dfy` (module `Views`) models `verify_face` in
  `attendance_app/views.py`. `Verify` is the decision the view is evidently
  meant to make: response plus the row it creates, with the early exits in
  the source's order. `VerifyAsWritten` is what the code actually does; it
  differs only on the success path (see "## Findings"). `VerifyFace` is the
  view as written, with early returns. It writes through
  `AttendanceLog.Create`, the model of `Attendance.objects.create`, and is
  proved to answer as `VerifyAsWritten` does and to append exactly its row.
- `text.dfy` (module `Text`) models the part of Python's `str.split` the view
  uses: a split on a non-empty separator, with `join` as its inverse.
- `wrappers.dfy` holds `Option` and `Result`.

Distances are exact. `Distance` is `L2(squared)`, the non-negative real whose
square is `squared`. The test `distance <= tolerance` is decided on the square,
and `AtMostIsThreshold` proves this agrees with comparing the root itself,
inclusive at equality. The sentinel `1.0` is `L2(1.0)`.

`;base64,` cuts a `data:` URL of section 3 of RFC 2397 only roughly. The
extension is whatever follows the last `/` before the separator. For
`data:image/png;base64,...` it is `png`, and for `data:image/svg+xml;base64,...`
it is `svg+xml`. A URL without `;base64,`, or with it twice, fails the
two-name unpacking.

Some behaviour of the code is easy to misread; the model follows the code:

- Face boxes. The code clamps right and bottom to `<=` width and height, not
  to `<`. It does not keep `top <= bottom` or `left <= right`.
  `ClampMayInvert` exhibits an inverted box. `ClampKeepsOrder` states when
  the order does hold: the detection is well formed and overlaps the image.
- Stored encodings of the wrong length. They are not turned into
  "Invalid student data." numpy raises on subtraction, which is uncaught and
  becomes a server error. The exception is a length-1 vector, which numpy
  broadcasts against the live one.
- A NULL stored encoding. `delete_encodings` sets it, and a photo without a
  face leaves it unset. `json.loads(None)` then raises a `TypeError`. The
  view does not catch it, so this too is a server error, not
  "Invalid student data."
- The 68 landmarks. Their count is the predictor's business, not the code's.
  `SixtyEightLandmarks` proves it under the assumption that the predictor
  always yields 68 parts.

## Model

| member | source | states |
|---|---|---|
| `FaceUtils.ClampFace` | attendance_app/face_utils.py:21-22 | top and left are at least 0, right is at most the width and bottom at most the height; an edge already inside the image is kept, one outside is moved to the border |
| `FaceUtils.ClampPerEdge` | attendance_app/face_utils.py:22 | each edge of the box depends only on the same edge of the detection |
| `FaceUtils.ClampKeepsOrder` | attendance_app/face_utils.py:22 | a well-formed detection that overlaps the image gives a box with top <= bottom and left <= right |
| `FaceUtils.ClampMayInvert` | attendance_app/face_utils.py:43 | clamping does not order the edges: a detection below the image gives top > bottom |
| `FaceUtils.Transform` | attendance_app/face_utils.py:18-24 | one clamped box per detection, same count, same order |
| `FaceUtils.Landmarks` | attendance_app/face_utils.py:45 | one landmark pair per shape part |
| `FaceUtils.LandmarksKeepParts` | attendance_app/face_utils.py:45 | the landmark pairs are the shape's parts, in the predictor's order |
| `FaceUtils.EncodeFace` | attendance_app/face_utils.py:26-47 | all three results are absent exactly when the detector (one upsampling pass) finds nothing; otherwise all three are present and the box is detection 0 clamped |
| `FaceUtils.FirstDetectionDecides` | attendance_app/face_utils.py:35-43 | only detection 0 matters: detectors that agree on their first rectangle give the same result, with no re-ranking |
| `FaceUtils.EncodeFaceUsesFirstDetection` | attendance_app/face_utils.py:35-45 | the descriptor is the encoder's at 5 jitters over detection 0's shape, and the landmarks are that shape's parts |
| `FaceUtils.EncodeFaceBoxAgreesWithTransform` | attendance_app/face_utils.py:41-43 | the box `encode_face` returns is `transform(image, detections)[0]` |
| `FaceUtils.SixtyEightLandmarks` | attendance_app/face_utils.py:36-45 | with the 68-point predictor the landmark list has 68 entries |
| `FaceUtils.DenotesUnique` | attendance_app/face_utils.py:57 | a distance held as its square stands for exactly one non-negative number |
| `FaceUtils.SentinelIsOne` | attendance_app/face_utils.py:55 | the absent-encoding sentinel stands for 1.0 and nothing else |
| `FaceUtils.AtMostIsThreshold` | attendance_app/face_utils.py:58 | the decision on the square is `distance <= tolerance` on the distance itself, inclusive at equality and never true for a negative tolerance |
| `FaceUtils.AtMost` | attendance_app/face_utils.py:58 | the test on the square holds exactly when the number the distance stands for is at most the tolerance, and never for a negative tolerance |
| `FaceUtils.EuclideanDistance` | attendance_app/face_utils.py:57 | the norm's square is non-negative and zero exactly when every broadcast difference is zero |
| `FaceUtils.SumOfSquares` | attendance_app/face_utils.py:57 | the squared norm is non-negative and zero exactly when every entry is zero |
| `FaceUtils.Subtract` | attendance_app/face_utils.py:57 | numpy's broadcast subtraction has the longer operand's length, or the other one's when one side has length 1 |
| `FaceUtils.DistanceSymmetric` | attendance_app/face_utils.py:57 | the Euclidean distance is symmetric |
| `FaceUtils.DistanceZeroIffEqual` | attendance_app/face_utils.py:57 | two equal-length encodings are at distance zero exactly when they are equal |
| `FaceUtils.CompareFaces` | attendance_app/face_utils.py:50-59 | an absent encoding gives no match at the sentinel 1.0; otherwise it raises exactly when numpy cannot subtract, and the match holds iff the Euclidean distance is at most the tolerance |
| `FaceUtils.CompareSymmetric` | attendance_app/face_utils.py:54-59 | comparing is symmetric in the two encodings, the sentinel and error cases included |
| `FaceUtils.SelfMatch` | attendance_app/face_utils.py:57-58 | an encoding matches itself at distance 0 under any non-negative tolerance |
| `FaceUtils.ZeroVectorsMatchAtZeroTolerance` | attendance_app/face_utils.py:57-58 | 128 zeros against 128 zeros at tolerance 0 is a match at distance 0 |
| `Text.Find` | attendance_app/views.py:61 | a found index is an occurrence of the separator at or after the start |
| `Text.FindLeftmost` | attendance_app/views.py:61 | the found occurrence is the leftmost from the start, and nothing is found exactly when no occurrence starts there or later |
| `Text.Split` | attendance_app/views.py:61 | a split always has at least one piece |
| `Text.SplitOnce` | attendance_app/views.py:61 | a split has exactly one piece iff the separator does not occur |
| `Text.JoinSplit` | attendance_app/views.py:61 | joining the pieces of a split with the separator gives back the text |
| `Text.SplitPartsAreFree` | attendance_app/views.py:61 | no piece of a split holds the separator |
| `Text.SplitInTwo` | attendance_app/views.py:61 | for a separator that cannot overlap itself, a text splits into exactly two given pieces iff it is the first piece, the separator and the second, with neither piece holding the separator |
| `Text.LastPiece` | attendance_app/views.py:62 | the last piece of a split is the text after the last separator |
| `Views.SplitDataUrlIff` | attendance_app/views.py:61 | the image string unpacks into `format` and `imgstr` iff it is `format;base64,imgstr` with neither piece holding `;base64,` |
| `Views.ExtensionAfterLastSlash` | attendance_app/views.py:62 | `ext` is the suffix of the format after its last `/`, or the whole format when it has none |
| `Views.LoadStudent` | attendance_app/views.py:55-59 | an unknown student or undecodable JSON gives "Invalid student data."; a NULL encoding escapes as a `TypeError`; otherwise the result is the student and the decoded encoding |
| `Views.Get` | attendance_app/views.py:52-53 | `request.POST.get` gives the field's value when it is present and `None` otherwise |
| `Views.SplitDataUrl` | attendance_app/views.py:61 | the unpacking succeeds exactly when the split on `;base64,` gives two pieces, and yields those two pieces |
| `Views.Extension` | attendance_app/views.py:62 | the extension is no longer than the format and holds no `/` |
| `Views.DecodeImage` | attendance_app/views.py:61-69 | a missing image field raises, a string that does not split in two raises, an undecodable payload raises the base64 error, bytes that are not an image raise the OpenCV error; otherwise the snapshot is named after the student, the current time and the extension, holds the decoded bytes, and comes with the decoded image |
| `Views.StatusOf` | attendance_app/views.py:81 | the status is PRESENT iff the faces match, FAILED_MATCH otherwise |
| `Views.LocationOf` | attendance_app/views.py:93-98 | `face_location` maps tuple positions 0, 1, 2, 3 to top, right, bottom, left, and is present iff the box is |
| `Views.Verify` | attendance_app/views.py:50-104 | the intended answer: a row is created exactly when a match result is sent with status 200; its status is PRESENT iff the response says `match`, and its confidence is the response's |
| `Views.VerifyAsWritten` | attendance_app/views.py:82-102 | the view as written writes the same row as `Verify`, answers exactly as `Verify` on every path that writes no row, fails with the serialization `TypeError` exactly when it writes one, and never sends a match result |
| `Views.AttendanceLog.Create` | attendance_app/views.py:82-87 | creating a row appends it to the table and changes nothing else |
| `Views.VerifyFace` | attendance_app/views.py:50-104 | the view as written answers as `VerifyAsWritten` does and appends exactly its row, if any, to the table |
| `Views.NonPostRefused` | attendance_app/views.py:104 | a method other than POST gets "Invalid request method." with status 405, and no row |
| `Views.InvalidStudentComesFirst` | attendance_app/views.py:55-59 | an unknown student or undecodable stored JSON gives "Invalid student data." and no row, whatever the image, decoders and models do |
| `Views.DataUrlMustSplitInTwo` | attendance_app/views.py:61 | past the student checks, an image string that does not split in two around `;base64,` raises, and no row is written |
| `Views.NullEncodingEscapes` | attendance_app/views.py:56-58 | a known student with a NULL encoding makes `json.loads` raise a `TypeError` the `except` does not name: a server error, and no row |
| `Views.ImageFailureEscapes` | attendance_app/views.py:61-69 | once the student checks pass, any failure taking the image out of its URL or decoding it escapes as that exception, and no row is written |
| `Views.NoFaceNoRecord` | attendance_app/views.py:74-75 | a decoded image without a detected face gives "No face detected in the image." and no row |
| `Views.VerifiedOutcome` | attendance_app/views.py:72-102 | on the success path the intended response carries the match decision, the Euclidean distance of the stored and live encodings as confidence (the absent-encoding branch is never taken, since the stored side is always an array), detection 0's clamped box and its landmarks; exactly one row is written with the same decision and distance |
| `Views.SuccessPathFailsAfterWrite` | attendance_app/views.py:78-102 | on that success path the view as written writes the row and then answers with a server error instead of the decision |

## Findings

| source | as written | input that shows it | evidently intended | confidence | as-written member | corrected member |
|---|---|---|---|---|---|---|
| attendance_app/face_utils.py:58, attendance_app/views.py:82-102 | `is_match = distance <= tolerance` on the `float64` from `np.linalg.norm` is a `numpy.bool_`; `JsonResponse` cannot serialize it under `'match'` and raises a `TypeError` after `Attendance.objects.create` has written the row | any POST for a known student whose stored encoding decodes to a vector numpy can subtract from the live one (128 entries, or 1), with an image URL that splits in two, a payload that decodes to an image, and a face detected in it (the preconditions of `SuccessPathFailsAfterWrite`) | the row is written and the view answers 200 with `match`, `confidence`, `face_location` and `landmarks` | not executed; follows from numpy's and Django's documented types | `Views.VerifyAsWritten`, `Views.SuccessPathFailsAfterWrite` | `Views.Verify`, `Views.VerifiedOutcome` |

## Left out

- Loading the dlib models is not modelled (`attendance_app/face_utils.py:8-16`). Neither is the models' own inference. They are the fields of `Models`, which any caller supplies. The 5-point predictor is loaded but never used, so it has no field.
- The encoder's jitter randomness is not modelled. `num_jitters=5` averages five randomly perturbed crops, so two calls on the same image need not agree. The encoder is taken as a deterministic function of image, shape and jitter count, which `FirstDetectionDecides`, `EncodeFaceUsesFirstDetection` and the determinism of `EncodeFace` rely on.
- Floating point. Descriptors are `seq<real>`, and the distance is the exact real square root, held through its square. numpy's rounding is not reproduced.
- numpy broadcasting is modelled for one-dimensional vectors only. `json.loads` is a collaborator that yields a vector of reals or a decode error. Stored JSON of another shape (a number, nested lists, `null`) is not modelled.
- Base64 decoding, `ContentFile`, `cv2.imdecode` and `cvtColor` are collaborators in `Env`. Each yields a value or the exception that escapes the view.
- The snapshot's file name is kept as its parts (student id, `int(time.time())`, extension) rather than as the formatted string. The clock is a field of `Env`.
- The Django ORM is reduced to a map from `student_id` to the row and a log of created rows. A request without `student_id` is an unknown student; the view's `get(student_id=None)` finds no row. `MultipleObjectsReturned`, transactions and timestamps are not modelled.
- Uncaught exceptions are not turned into Django's actual 500 page. They are the `ServerError` response, naming the exception.
- `QRScanView`, `HomeView` and `export_attendance` are not modelled. They are wrappers around pyzbar, template rendering and pandas.
- The management commands `generate_encodings` and `delete_encodings` are not modelled. They are ORM batch loops around `encode_face` and `json.dumps`.
- The React `FaceScan` component is not modelled. It is webcam access, timers and asynchronous HTTP.
