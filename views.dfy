/** The `verify_face` view of `attendance_app/views.py`: look up the student
    and the stored encoding, cut the image out of its `data:` URL, encode the
    live face, compare it with the stored one, record the attempt and answer
    in JSON.

    The database, the JSON and base64 decoders, OpenCV's image decoder and the
    clock are collaborators; they are the fields of `Env`. */
module Views {
  import opened Wrappers
  import opened FaceUtils
  import Text

  /** The literal `image_data_url` is split on. */
  const SEPARATOR: string := ";base64,"

  const INVALID_STUDENT: string := "Invalid student data."
  const NO_FACE: string := "No face detected in the image."
  const INVALID_METHOD: string := "Invalid request method."

  /** A `Student` row as the view reads it; `face_encoding` may be NULL. */
  datatype Student = Student(studentId: string, faceEncoding: Option<string>)

  /** An HTTP request: its method (`request.method`) and its POST fields. */
  datatype Request = Request(verb: string, post: map<string, string>)

  /** What the view relies on and does not compute: the `Student` table keyed
      by `student_id`, `json.loads` of a stored encoding (`None` for a
      `JSONDecodeError`), `base64.b64decode` (`None` when it raises),
      `cv2.imdecode` followed by the BGR-to-RGB conversion (`None` when the
      bytes are not an image and `cvtColor` raises), the dlib models, the
      configured tolerance and `int(time.time())`. */
  datatype Env = Env(
    students: map<string, Student>,
    jsonLoads: string -> Option<Descriptor>,
    b64decode: string -> Option<seq<bv8>>,
    imdecode: seq<bv8> -> Option<Image>,
    models: Models,
    tolerance: real,
    now: int)

  /** Exceptions the view does not catch; Django answers them with a server error. */
  datatype Uncaught =
    | NullEncoding      // json.loads(None): TypeError
    | MissingImage      // None.split(...): AttributeError
    | NotTwoParts       // unpacking the split into two names: ValueError
    | BadBase64         // base64.b64decode: binascii.Error
    | NotAnImage        // cv2.cvtColor on a failed decode: cv2.error
    | ShapeMismatch     // numpy subtraction of the encodings: ValueError
    | NotSerializable   // JsonResponse of a numpy.bool_ under 'match': TypeError

  /** The `face_location` object of the response. */
  datatype FaceLocation = FaceLocation(top: int, right: int, bottom: int, left: int)

  /** The JSON bodies the view sends; `isMatch` is the `match` key. */
  datatype Body =
    | ErrorBody(error: string)
    | MatchErrorBody(isMatch: bool, error: string)
    | MatchBody(isMatch: bool, confidence: Distance, faceLocation: Option<FaceLocation>, landmarks: Option<seq<Landmark>>)

  datatype Response = JsonResponse(status: nat, body: Body) | ServerError(cause: Uncaught)

  /** `Attendance.status`. */
  datatype Status = Present | FailedMatch

  /** The `ContentFile` saved as the snapshot: the decoded bytes, named
      `{student_id}_{seconds}.{ext}`. */
  datatype Snapshot = Snapshot(studentId: string, seconds: int, ext: string, content: seq<bv8>)

  /** One `Attendance` row. */
  datatype Record = Record(student: Student, status: Status, snapshot: Snapshot, confidence: Distance)

  /** `request.POST.get(key)`: the field's value, or `None` when it is absent. */
  function Get(fields: map<string, string>, key: string): (r: Option<string>)
    ensures r.Some? <==> key in fields
    ensures r.Some? ==> r.value == fields[key]
  {
    if key in fields then Some(fields[key]) else None
  }

  // ---------------------------------------------------------------------
  // The steps of the view
  // ---------------------------------------------------------------------

  /** The `try` block: `Student.objects.get` and `json.loads` of its encoding.
      A missing student or undecodable JSON is answered "Invalid student
      data."; a NULL encoding escapes as a `TypeError`. */
  function LoadStudent(env: Env, studentId: Option<string>): (r: Result<(Student, Descriptor), Response>)
    ensures studentId.None? || studentId.value !in env.students ==>
      r == Failure(JsonResponse(200, MatchErrorBody(false, INVALID_STUDENT)))
    ensures studentId.Some? && studentId.value in env.students ==>
      var student := env.students[studentId.value];
      && (student.faceEncoding.None? ==> r == Failure(ServerError(NullEncoding)))
      && (student.faceEncoding.Some? && env.jsonLoads(student.faceEncoding.value).None? ==>
            r == Failure(JsonResponse(200, MatchErrorBody(false, INVALID_STUDENT))))
      && (student.faceEncoding.Some? && env.jsonLoads(student.faceEncoding.value).Some? ==>
            r == Success((student, env.jsonLoads(student.faceEncoding.value).value)))
  {
    if studentId.None? || studentId.value !in env.students then
      Failure(JsonResponse(200, MatchErrorBody(false, INVALID_STUDENT)))
    else
      var student := env.students[studentId.value];
      if student.faceEncoding.None? then
        Failure(ServerError(NullEncoding))
      else
        match env.jsonLoads(student.faceEncoding.value)
        case None => Failure(JsonResponse(200, MatchErrorBody(false, INVALID_STUDENT)))
        case Some(stored) => Success((student, stored))
  }

  /** `format, imgstr = image_data_url.split(';base64,')`: the two pieces, or
      `None` when the split does not give exactly two. */
  function SplitDataUrl(url: string): (r: Option<(string, string)>)
    ensures r.Some? <==> |Text.Split(url, SEPARATOR)| == 2
    ensures r.Some? ==> Text.Split(url, SEPARATOR) == [r.value.0, r.value.1]
  {
    var parts := Text.Split(url, SEPARATOR);
    if |parts| == 2 then Some((parts[0], parts[1])) else None
  }

  /** `format.split('/')[-1]`. */
  function Extension(format: string): (ext: string)
    ensures |ext| <= |format|
    ensures !Text.Contains(ext, "/")
  {
    var parts := Text.Split(format, "/");
    Text.LastPiece(format, "/");
    parts[|parts| - 1]
  }

  /** The image half of the view: split the URL, name the snapshot, decode the
      payload and the image. */
  function DecodeImage(env: Env, studentId: string, imageDataUrl: Option<string>): (r: Result<(Snapshot, Image), Uncaught>)
    ensures imageDataUrl.None? ==> r == Failure(MissingImage)
    ensures imageDataUrl.Some? && SplitDataUrl(imageDataUrl.value).None? ==> r == Failure(NotTwoParts)
    ensures imageDataUrl.Some? && SplitDataUrl(imageDataUrl.value).Some? ==>
      var pieces := SplitDataUrl(imageDataUrl.value).value;
      var bytes := env.b64decode(pieces.1);
      && (bytes.None? ==> r == Failure(BadBase64))
      && (bytes.Some? && env.imdecode(bytes.value).None? ==> r == Failure(NotAnImage))
      && (bytes.Some? && env.imdecode(bytes.value).Some? ==>
            r == Success((Snapshot(studentId, env.now, Extension(pieces.0), bytes.value), env.imdecode(bytes.value).value)))
    ensures r.Success? ==> r.value.0.studentId == studentId && r.value.0.seconds == env.now
  {
    if imageDataUrl.None? then Failure(MissingImage)
    else match SplitDataUrl(imageDataUrl.value)
      case None => Failure(NotTwoParts)
      case Some((format, imgstr)) =>
        var ext := Extension(format);
        match env.b64decode(imgstr)
        case None => Failure(BadBase64)
        case Some(bytes) =>
          var imageData := Snapshot(studentId, env.now, ext, bytes);
          match env.imdecode(bytes)
          case None => Failure(NotAnImage)
          case Some(rgbImage) => Success((imageData, rgbImage))
  }

  /** `'PRESENT' if is_match else 'FAILED_MATCH'`. */
  function StatusOf(isMatch: bool): (s: Status)
    ensures s == Present <==> isMatch
  {
    if isMatch then Present else FailedMatch
  }

  /** The `face_location` entry: the box's tuple positions 0 to 3 as top,
      right, bottom and left, or `None` for no box. */
  function LocationOf(faceLocation: Option<Coord>): (r: Option<FaceLocation>)
    ensures r.Some? <==> faceLocation.Some?
    ensures r.Some? ==>
      var c := faceLocation.value;
      r.value.top == c.0 && r.value.right == c.1 && r.value.bottom == c.2 && r.value.left == c.3
  {
    match faceLocation
    case None => None
    case Some(c) => Some(FaceLocation(c.0, c.1, c.2, c.3))
  }

  /** `verify_face(request)` as it is evidently meant to answer: the response,
      and the `Attendance` row it creates if any. The exits come in the
      source's order: wrong method, student data, image, no face, then compare
      and record. A row is created exactly when a match result is sent; its
      status is `Present` exactly when the response says `match`, and its
      confidence is the response's. The code as written cannot send that match
      result; see `VerifyAsWritten`. */
  function Verify(req: Request, env: Env): (r: (Response, Option<Record>))
    ensures r.1.Some? <==> r.0.JsonResponse? && r.0.body.MatchBody?
    ensures r.1.Some? ==>
      && r.0.status == 200
      && (r.1.value.status == Present <==> r.0.body.isMatch)
      && r.1.value.confidence == r.0.body.confidence
  {
    if req.verb != "POST" then
      (JsonResponse(405, ErrorBody(INVALID_METHOD)), None)
    else
      var studentId := Get(req.post, "student_id");
      var imageDataUrl := Get(req.post, "image");
      match LoadStudent(env, studentId)
      case Failure(response) => (response, None)
      case Success((student, storedEncoding)) =>
        match DecodeImage(env, studentId.value, imageDataUrl)
        case Failure(cause) => (ServerError(cause), None)
        case Success((imageData, rgbImage)) =>
          var (liveEncoding, faceLocation, landmarks) := EncodeFace(env.models, rgbImage);
          if liveEncoding.None? then
            (JsonResponse(200, MatchErrorBody(false, NO_FACE)), None)
          else
            match CompareFaces(Some(storedEncoding), liveEncoding, env.tolerance)
            case Failure(_) => (ServerError(ShapeMismatch), None)
            case Success(Comparison(isMatch, distance)) =>
              var record := Record(student, StatusOf(isMatch), imageData, distance);
              var body := MatchBody(isMatch, distance, LocationOf(faceLocation), landmarks);
              (JsonResponse(200, body), Some(record))
  }

  /** `verify_face(request)` as written. `is_match` is the `numpy.bool_` that
      `distance <= tolerance` yields on a `float64`, and `JsonResponse` cannot
      serialize it. So once the row is created the view raises a `TypeError`
      instead of answering; every other exit is `Verify`'s. A row is written
      exactly when the view fails this way, and no match result is ever sent. */
  function VerifyAsWritten(req: Request, env: Env): (r: (Response, Option<Record>))
    ensures r.1 == Verify(req, env).1
    ensures r.1.None? ==> r == Verify(req, env)
    ensures r.1.Some? <==> r.0 == ServerError(NotSerializable)
    ensures !(r.0.JsonResponse? && r.0.body.MatchBody?)
  {
    var (response, record) := Verify(req, env);
    if record.Some? then (ServerError(NotSerializable), record) else (response, record)
  }

  // ---------------------------------------------------------------------
  // The Attendance table and the view that writes to it
  // ---------------------------------------------------------------------

  /** The `Attendance` table, as the rows the view has created. */
  class AttendanceLog {
    ghost var records: seq<Record>

    constructor ()
      ensures records == []
    {
      records := [];
    }

    /** `Attendance.objects.create(...)`. */
    method Create(record: Record)
      modifies this
      ensures records == old(records) + [record]
    {
      records := records + [record];
    }
  }

  /** `verify_face(request)` as written, with its one write: answers as
      `VerifyAsWritten` does and appends its row, if any, to the log. */
  method VerifyFace(req: Request, env: Env, log: AttendanceLog) returns (response: Response)
    modifies log
    ensures response == VerifyAsWritten(req, env).0
    ensures log.records == old(log.records) +
      (if VerifyAsWritten(req, env).1.Some? then [VerifyAsWritten(req, env).1.value] else [])
  {
    if req.verb == "POST" {
      var studentId := Get(req.post, "student_id");
      var imageDataUrl := Get(req.post, "image");
      var loaded := LoadStudent(env, studentId);
      if loaded.Failure? {
        return loaded.error;
      }
      var (student, storedEncoding) := loaded.value;
      var decoded := DecodeImage(env, studentId.value, imageDataUrl);
      if decoded.Failure? {
        return ServerError(decoded.error);
      }
      var (imageData, rgbImage) := decoded.value;
      var (liveEncoding, faceLocation, landmarks) := EncodeFace(env.models, rgbImage);
      if liveEncoding.None? {
        return JsonResponse(200, MatchErrorBody(false, NO_FACE));
      }
      var compared := CompareFaces(Some(storedEncoding), liveEncoding, env.tolerance);
      if compared.Failure? {
        return ServerError(ShapeMismatch);
      }
      var Comparison(isMatch, distance) := compared.value;
      var status := StatusOf(isMatch);
      log.Create(Record(student, status, imageData, distance));
      // JsonResponse(response_data) raises on the numpy.bool_ under 'match'
      return ServerError(NotSerializable);
    }
    return JsonResponse(405, ErrorBody(INVALID_METHOD));
  }

  // ---------------------------------------------------------------------
  // Properties of the view
  // ---------------------------------------------------------------------

  /** Any method but POST is refused with 405 and writes nothing. */
  lemma NonPostRefused(req: Request, env: Env)
    requires req.verb != "POST"
    ensures Verify(req, env) == (JsonResponse(405, ErrorBody(INVALID_METHOD)), None)
  {
  }

  /** An unknown student or an undecodable stored encoding is answered
      "Invalid student data." before the image is looked at: whatever the
      image field holds and whatever the decoders and models would do, no row
      is written. */
  lemma InvalidStudentComesFirst(req: Request, env: Env)
    requires req.verb == "POST"
    requires var id := Get(req.post, "student_id");
      || id.None?
      || id.value !in env.students
      || (env.students[id.value].faceEncoding.Some? && env.jsonLoads(env.students[id.value].faceEncoding.value).None?)
    ensures Verify(req, env) == (JsonResponse(200, MatchErrorBody(false, INVALID_STUDENT)), None)
  {
  }

  /** An image string that does not split into exactly two pieces around
      `;base64,` fails the unpacking, after the student checks and before any
      decoding; nothing is written. */
  lemma DataUrlMustSplitInTwo(req: Request, env: Env)
    requires req.verb == "POST"
    requires LoadStudent(env, Get(req.post, "student_id")).Success?
    requires "image" in req.post && |Text.Split(req.post["image"], SEPARATOR)| != 2
    ensures Verify(req, env) == (ServerError(NotTwoParts), None)
  {
  }

  /** A known student whose `face_encoding` is NULL: `json.loads(None)` raises
      a `TypeError`, which the view's `except` clause does not name, so the
      request fails before the image is looked at; nothing is written. */
  lemma NullEncodingEscapes(req: Request, env: Env)
    requires req.verb == "POST"
    requires "student_id" in req.post && req.post["student_id"] in env.students
    requires env.students[req.post["student_id"]].faceEncoding.None?
    ensures Verify(req, env) == (ServerError(NullEncoding), None)
  {
  }

  /** Once the student checks pass, an image that cannot be taken out of its
      URL, base64-decoded or decoded as a picture escapes as the exception
      `DecodeImage` names, and nothing is written. */
  lemma ImageFailureEscapes(req: Request, env: Env)
    requires req.verb == "POST"
    requires LoadStudent(env, Get(req.post, "student_id")).Success?
    requires DecodeImage(env, Get(req.post, "student_id").value, Get(req.post, "image")).Failure?
    ensures Verify(req, env) ==
      (ServerError(DecodeImage(env, Get(req.post, "student_id").value, Get(req.post, "image")).error), None)
  {
  }

  /** No face in the decoded image: "No face detected in the image.", and no
      row is written. */
  lemma NoFaceNoRecord(req: Request, env: Env)
    requires req.verb == "POST"
    requires LoadStudent(env, Get(req.post, "student_id")).Success?
    requires var decoded := DecodeImage(env, Get(req.post, "student_id").value, Get(req.post, "image"));
      decoded.Success? && env.models.detector(decoded.value.1, UPSAMPLE) == []
    ensures Verify(req, env) == (JsonResponse(200, MatchErrorBody(false, NO_FACE)), None)
  {
  }

  /** The whole success path: with a known student whose encoding decodes to
      `stored`, an image URL `format;base64,payload` whose payload decodes to
      an image holding a face, and encodings numpy can subtract, the intended
      answer is the match decision, the Euclidean distance as confidence, the
      box of detection 0 and its landmarks, and one row is written with the
      same decision and distance. The stored side is always present, so the
      absent-encoding branch of `compare_faces` is never taken: the confidence
      is the Euclidean distance of the two encodings. */
  lemma VerifiedOutcome(req: Request, env: Env, student: Student, stored: Descriptor,
                        format: string, payload: string, bytes: seq<bv8>, image: Image)
    requires req.verb == "POST"
    requires "student_id" in req.post && req.post["student_id"] in env.students
    requires student == env.students[req.post["student_id"]]
    requires student.faceEncoding.Some? && env.jsonLoads(student.faceEncoding.value) == Some(stored)
    requires "image" in req.post && SplitDataUrl(req.post["image"]) == Some((format, payload))
    requires env.b64decode(payload) == Some(bytes) && env.imdecode(bytes) == Some(image)
    requires env.models.detector(image, UPSAMPLE) != []
    requires Broadcastable(stored, EncodeFace(env.models, image).0.value)
    ensures var face := env.models.detector(image, UPSAMPLE)[0];
      var shape := env.models.predictor68(image, face);
      var live := env.models.encoder(image, shape, NUM_JITTERS);
      var distance := EuclideanDistance(stored, live);
      var isMatch := AtMost(distance, env.tolerance);
      var c := ClampFace(image, face);
      var snapshot := Snapshot(req.post["student_id"], env.now, Extension(format), bytes);
      Verify(req, env) ==
        (JsonResponse(200, MatchBody(isMatch, distance, Some(FaceLocation(c.0, c.1, c.2, c.3)), Some(Landmarks(shape)))),
         Some(Record(student, if isMatch then Present else FailedMatch, snapshot, distance)))
  {
  }

  /** On that same success path the view as written writes the row and then
      fails serializing `match`: the student is recorded but gets a server
      error instead of the decision. */
  lemma SuccessPathFailsAfterWrite(req: Request, env: Env, student: Student, stored: Descriptor,
                                   format: string, payload: string, bytes: seq<bv8>, image: Image)
    requires req.verb == "POST"
    requires "student_id" in req.post && req.post["student_id"] in env.students
    requires student == env.students[req.post["student_id"]]
    requires student.faceEncoding.Some? && env.jsonLoads(student.faceEncoding.value) == Some(stored)
    requires "image" in req.post && SplitDataUrl(req.post["image"]) == Some((format, payload))
    requires env.b64decode(payload) == Some(bytes) && env.imdecode(bytes) == Some(image)
    requires env.models.detector(image, UPSAMPLE) != []
    requires Broadcastable(stored, EncodeFace(env.models, image).0.value)
    ensures VerifyAsWritten(req, env).0 == ServerError(NotSerializable)
    ensures VerifyAsWritten(req, env).1.Some? && VerifyAsWritten(req, env).1 == Verify(req, env).1
    ensures Verify(req, env).0.JsonResponse? && Verify(req, env).0.body.MatchBody?
  {
    VerifiedOutcome(req, env, student, stored, format, payload, bytes, image);
  }

  // ---------------------------------------------------------------------
  // The data URL
  // ---------------------------------------------------------------------

  /** `;` appears in the separator only at its start, so it cannot overlap itself. */
  lemma SeparatorHeadIsUnique()
    ensures forall k :: 0 < k < |SEPARATOR| ==> SEPARATOR[k] != SEPARATOR[0]
  {
  }

  /** The image string splits into `format` and `payload` exactly when it is
      `format;base64,payload` and neither piece holds `;base64,`. */
  lemma SplitDataUrlIff(url: string, format: string, payload: string)
    ensures SplitDataUrl(url) == Some((format, payload)) <==>
      url == format + SEPARATOR + payload && !Text.Contains(format, SEPARATOR) && !Text.Contains(payload, SEPARATOR)
  {
    SeparatorHeadIsUnique();
    Text.SplitInTwo(url, SEPARATOR, format, payload);
  }

  /** The extension is the text after the last `/` of the format, or the whole
      format when it has none. */
  lemma ExtensionAfterLastSlash(format: string)
    ensures var ext := Extension(format);
      && |ext| <= |format|
      && ext == format[|format| - |ext|..]
      && (forall i :: 0 <= i < |ext| ==> ext[i] != '/')
      && (|ext| < |format| ==> format[|format| - |ext| - 1] == '/')
      && (|ext| == |format| ==> forall i :: 0 <= i < |format| ==> format[i] != '/')
  {
    var parts := Text.Split(format, "/");
    var ext := parts[|parts| - 1];
    Text.LastPiece(format, "/");
    forall i | 0 <= i < |ext|
      ensures ext[i] != '/'
    {
      assert ext[i] == '/' ==> Text.OccursAt(ext, "/", i) by {
        if ext[i] == '/' { assert ext[i..i + 1] == "/"; }
      }
    }
    if |parts| > 1 {
      var before := Text.Join(parts[..|parts| - 1], "/");
      assert format == before + "/" + ext;
      assert format[|format| - |ext|..] == ext;
    } else {
      assert format == ext;
    }
  }
}
