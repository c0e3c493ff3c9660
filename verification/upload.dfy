/**
  * The `/upload` request handler: a linear pipeline that can stop at several
  * points, each rejection answering `{ matches: [] }`, and an exception
  * anywhere after the file check answering status 500 with the same body.
  */
module Upload {
  import opened Wrappers
  import opened Faces
  import opened Matching

  const StatusOk: int := 200
  const StatusServerError: int := 500

  /** The multipart field `image` as seen by the handler: absent, or its buffer. */
  datatype UploadedFile = NoFile | File(bytes: Bytes)

  /** A document of the `tbl_face1` collection: the person's passthrough fields (`displayLabel` is the `label` field). */
  datatype Record = Record(displayLabel: string, fechaNacimiento: string, tlfEmergencia: string, cedula: string, imgUrl: string)

  /** One element of the `matches` array of the response (`displayLabel` is serialised as `label`). */
  datatype Match = Match(displayLabel: string, fechaNacimiento: string, tlfEmergencia: string, cedula: string, imgUrl: string, distance: real)

  /** The HTTP status together with the JSON body `{ matches }`. */
  datatype Response = Response(status: int, matches: seq<Match>)

  /** Fetching the document with a given id: it throws, is missing, or exists with its data. */
  type Store = string -> Attempt<Option<Record>>

  /** The largest decimal value that `Number.prototype.toFixed` does not print in exponent form. */
  const FixedLimit: real := 1000000000000000000000.0

  /** `r` is a whole number of thousandths. */
  predicate Thousandths(r: real) {
    (r * 1000.0).Floor as real == r * 1000.0
  }

  /** Rounding half up to a whole number of thousandths, for a value below the exponent-form limit. */
  lemma RoundedThousandths(x: real, n: int)
    requires 0.0 <= x
    requires n == (x * 1000.0 + 0.5).Floor
    ensures -0.0005 < n as real / 1000.0 - x <= 0.0005
    ensures Thousandths(n as real / 1000.0)
    ensures 0 <= n
    ensures x <= 1.0 ==> n <= 1000
  {
    var y := x * 1000.0 + 0.5;
    assert n as real <= y < n as real + 1.0;
    assert n as real / 1000.0 * 1000.0 == n as real;
  }

  /** `toFixed(3)` of a non-negative value, read back as a number: the nearest thousandth, halves rounded up. */
  function RoundMagnitude(x: real): (r: real)
    requires x >= 0.0
    ensures x < FixedLimit ==> -0.0005 < r - x <= 0.0005 && Thousandths(r)
    ensures x >= FixedLimit ==> r == x
    ensures r >= 0.0
    ensures x <= 1.0 ==> r <= 1.0
  {
    if x >= FixedLimit then x
    else
      var n := (x * 1000.0 + 0.5).Floor;
      RoundedThousandths(x, n);
      n as real / 1000.0
  }

  /** Negating a whole number of thousandths gives one. */
  lemma NegatedThousandths(r: real)
    requires Thousandths(r)
    ensures Thousandths(-r)
  {
    var n := (r * 1000.0).Floor;
    assert -r * 1000.0 == (-n) as real;
  }

  /**
    * `parseFloat(d.toFixed(3))`: the sign is taken off, the magnitude is
    * rounded to the nearest thousandth with halves going up, and the sign is
    * put back.
    */
  function RoundTo3(x: real): (r: real)
    ensures 0.0 <= x < FixedLimit ==> -0.0005 < r - x <= 0.0005 && Thousandths(r)
    ensures -FixedLimit < x < 0.0 ==> -0.0005 <= r - x < 0.0005 && Thousandths(r)
    ensures FixedLimit <= x || x <= -FixedLimit ==> r == x
    ensures 0.0 <= x ==> 0.0 <= r
    ensures x <= 1.0 ==> r <= 1.0
  {
    if x < 0.0 then
      var m := RoundMagnitude(-x);
      assert -x < FixedLimit ==> Thousandths(-m) by {
        if -x < FixedLimit {
          NegatedThousandths(m);
        }
      }
      -m
    else RoundMagnitude(x)
  }

  /** The match reported for a found document and the winning distance. */
  function MatchOf(rec: Record, distance: real): (m: Match)
    ensures m.displayLabel == rec.displayLabel && m.fechaNacimiento == rec.fechaNacimiento
    ensures m.tlfEmergencia == rec.tlfEmergencia && m.cedula == rec.cedula && m.imgUrl == rec.imgUrl
    ensures 0.0 <= distance < FixedLimit ==> -0.0005 < m.distance - distance <= 0.0005
    ensures -FixedLimit < distance < 0.0 ==> -0.0005 <= m.distance - distance < 0.0005
    ensures FixedLimit <= distance || distance <= -FixedLimit ==> m.distance == distance
    ensures -FixedLimit < distance < FixedLimit ==> Thousandths(m.distance)
  {
    Match(rec.displayLabel, rec.fechaNacimiento, rec.tlfEmergencia, rec.cedula, rec.imgUrl, RoundTo3(distance))
  }

  /** Two whole numbers of thousandths less than a thousandth apart are equal. */
  lemma ThousandthsApartAreEqual(r1: real, r2: real)
    requires Thousandths(r1) && Thousandths(r2)
    requires -0.001 < r1 - r2 < 0.001
    ensures r1 == r2
  {
    var n1, n2 := (r1 * 1000.0).Floor, (r2 * 1000.0).Floor;
    assert (n1 - n2) as real == (r1 - r2) * 1000.0;
  }

  /**
    * The reported distance is the one `toFixed(3)` prescribes: the only whole
    * number of thousandths within half a thousandth of the distance, an exact
    * half going to the candidate farther from zero.
    */
  lemma MatchOfIsNearestThousandth(rec: Record, distance: real, r: real)
    requires -FixedLimit < distance < FixedLimit
    requires Thousandths(r)
    requires 0.0 <= distance ==> -0.0005 < r - distance <= 0.0005
    requires distance < 0.0 ==> -0.0005 <= r - distance < 0.0005
    ensures MatchOf(rec, distance).distance == r
  {
    ThousandthsApartAreEqual(MatchOf(rec, distance).distance, r);
  }

  /** The handler for one request, given the frozen index of known faces. */
  function HandleUpload(index: seq<Entry>, upload: UploadedFile, detect: Detector, dist: Metric, store: Store): (r: Response)
    ensures r.status == StatusOk || r.status == StatusServerError
    ensures |r.matches| <= 1
    ensures r.status == StatusServerError ==> r.matches == []
  {
    match upload
    case NoFile => Response(StatusOk, [])
    case File(bytes) =>
      match detect(bytes)
      case Threw => Response(StatusServerError, [])
      case Done(None) => Response(StatusOk, [])
      case Done(Some(query)) =>
        var best := Scan(query, index, dist);
        match Gate(best)
        case None => Response(StatusOk, [])
        case Some(key) =>
          match store(key)
          case Threw => Response(StatusServerError, [])
          case Done(None) => Response(StatusOk, [])
          case Done(Some(rec)) => Response(StatusOk, [MatchOf(rec, best.distance)])
  }

  /** No uploaded file, and an uploaded photo without a detectable face, both answer an empty list. */
  lemma NothingToMatchAnswersEmpty(index: seq<Entry>, bytes: Bytes, detect: Detector, dist: Metric, store: Store)
    ensures HandleUpload(index, NoFile, detect, dist, store) == Response(StatusOk, [])
    ensures detect(bytes) == Done(None) ==> HandleUpload(index, File(bytes), detect, dist, store) == Response(StatusOk, [])
  {
  }

  /** When no known face is identified for the detected descriptor, the answer is an empty list. */
  lemma UnreliableMatchAnswersEmpty(index: seq<Entry>, bytes: Bytes, query: Descriptor, detect: Detector, dist: Metric, store: Store)
    requires detect(bytes) == Done(Some(query))
    requires forall i :: !Identifies(query, index, dist, i)
    ensures HandleUpload(index, File(bytes), detect, dist, store) == Response(StatusOk, [])
  {
    GateOnScan(query, index, dist);
  }

  /** An identified face whose document is missing answers an empty list: index and store may diverge. */
  lemma MissingRecordAnswersEmpty(index: seq<Entry>, bytes: Bytes, query: Descriptor, i: int, detect: Detector, dist: Metric, store: Store)
    requires detect(bytes) == Done(Some(query))
    requires Identifies(query, index, dist, i)
    requires store(index[i].name) == Done(None)
    ensures HandleUpload(index, File(bytes), detect, dist, store) == Response(StatusOk, [])
  {
    GateOnScan(query, index, dist);
  }

  /** An identified face whose document exists is reported as the single match, with the rounded distance. */
  lemma IdentifiedFaceIsReported(index: seq<Entry>, bytes: Bytes, query: Descriptor, i: int, rec: Record, detect: Detector, dist: Metric, store: Store)
    requires detect(bytes) == Done(Some(query))
    requires Identifies(query, index, dist, i)
    requires store(index[i].name) == Done(Some(rec))
    ensures HandleUpload(index, File(bytes), detect, dist, store)
         == Response(StatusOk, [MatchOf(rec, dist(query, index[i].descriptor))])
  {
    GateOnScan(query, index, dist);
    ScanPicksFirstClosest(query, index, dist, i);
  }

  /** A reported match always comes from the identified face and its existing document. */
  lemma ReportedMatchIsIdentified(index: seq<Entry>, upload: UploadedFile, detect: Detector, dist: Metric, store: Store)
    requires HandleUpload(index, upload, detect, dist, store).matches != []
    ensures upload.File? && detect(upload.bytes).Done? && detect(upload.bytes).value.Some?
    ensures exists i :: && Identifies(detect(upload.bytes).value.value, index, dist, i)
                        && store(index[i].name).Done? && store(index[i].name).value.Some?
                        && HandleUpload(index, upload, detect, dist, store)
                           == Response(StatusOk, [MatchOf(store(index[i].name).value.value, dist(detect(upload.bytes).value.value, index[i].descriptor))])
  {
    var query := detect(upload.bytes).value.value;
    GateOnScan(query, index, dist);
    var i :| Identifies(query, index, dist, i);
    ScanPicksFirstClosest(query, index, dist, i);
  }

  /** Status 500 is answered exactly when detection throws or the document lookup for the identified face throws. */
  lemma ServerErrorMeansException(index: seq<Entry>, upload: UploadedFile, detect: Detector, dist: Metric, store: Store)
    ensures HandleUpload(index, upload, detect, dist, store).status == StatusServerError
        <==> && upload.File?
             && (|| detect(upload.bytes).Threw?
                 || (&& detect(upload.bytes).value.Some?
                     && exists i :: Identifies(detect(upload.bytes).value.value, index, dist, i) && store(index[i].name).Threw?))
  {
    if upload.File? && detect(upload.bytes).Done? && detect(upload.bytes).value.Some? {
      var query := detect(upload.bytes).value.value;
      GateOnScan(query, index, dist);
      if Gate(Scan(query, index, dist)).Some? {
        var i :| Identifies(query, index, dist, i);
        ScanPicksFirstClosest(query, index, dist, i);
      }
    }
  }
}
