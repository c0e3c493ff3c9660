# Face-matching backend: matching, preload and request pipeline in Dafny

This project models the decision logic of the face-recognition backend in
`Backend/index.js`: an Express server that, at startup, preloads one face
descriptor per photo stored under `img/` in a Firebase Storage bucket into
the in-memory array `knownFaces`, and then answers `POST /upload` by
detecting a face in the uploaded image, scanning `knownFaces` for the
nearest descriptor, accepting it only within distance 0.6, and returning the
matching Firestore document of collection `tbl_face1` as
`{ matches: [ { label, fechaNacimiento, tlfEmergencia, cedula, imgUrl, distance } ] }`.

The model is purely functional. The foreign capabilities are parameters:

- the face detector (`canvas.loadImage` plus `faceapi.detectSingleFace(...).withFaceLandmarks().withFaceDescriptor()`)
  is a function from bytes to `Attempt<Option<Descriptor>>`: it throws, finds no face, or yields a descriptor;
- `faceapi.euclideanDistance` is an abstract real-valued `Metric`;
- each listed storage object carries the outcomes of its `getMetadata()` and `download()` calls;
- the Firestore lookup is a function from document id to `Attempt<Option<Record>>`;
- the bucket listing itself is an `Attempt` of the list of objects.

Modules, leaf first:

- `Wrappers` (`wrappers.dfy`): `Option` and `Attempt` (a call that resolves or throws).
- `Faces` (`faces.dfy`): descriptors, bytes, the detector and metric types, and `Entry` (one element of `knownFaces`).
- `Keys` (`keys.dfy`): `String.prototype.split` on one character, and the identity key `name.split('/').pop().split('.').shift()`.
- `Matching` (`matching.dfy`): the best-match scan over `knownFaces` (a left fold from the sentinel `{name: null, distance: 1}` that moves only on a strictly smaller distance) and the acceptance gate.
- `KnownFaces` (`known_faces.dfy`): the preload loop as a fold producing the index and one outcome per listed object (added, skipped as non-image, skipped for lack of a face, failed with a caught exception).
- `Upload` (`upload.dfy`): the `/upload` handler as a function from the index, the upload and the oracles to a `Response(status, matches)`, and the `parseFloat(toFixed(3))` rounding of the reported distance.
- `Lifecycle` (`lifecycle.dfy`): preload first, then every request answered against the index it built; the end-to-end example.

The index is never modified while serving: the handler receives it as an
immutable value and returns only a response, and `Lifecycle.Serve` answers
every request against the one index the preload produced.

Three behaviours of the code are easy to misread, and the model follows the code in each:

- the identity key is everything before the FIRST dot of the last path segment (`a.b.jpg` gives `a`), not the name with its final extension removed;
- the gate tests `!best.name`, so a winning entry with the empty key (an object named `img/.jpg` yields it; the directory placeholder `img/` also has the empty key but is never indexed, since it is not a decodable image) is rejected like a missing name;
- the preload awaits each object in turn, so the index is in listing order, not completion order.

## Model

| member | source | states |
|---|---|---|
| Keys.Split | Backend/index.js:133-134 | `split` on one character: at least one part, no part contains the separator, the first part is a prefix of the input, and the input splits into itself alone exactly when it has no separator (otherwise into at least two parts) |
| Keys.JoinSplit | Backend/index.js:133-134 | joining the parts of a split with the same separator gives the input back |
| Keys.Last | Backend/index.js:133 | `pop()` returns the element that, appended to all the others, rebuilds the list |
| Keys.LastSegment | Backend/index.js:133 | the last `/`-separated segment contains no `/` |
| Keys.BaseName | Backend/index.js:134 | the text before the first `.` contains no `.` and is a prefix of the file name |
| Keys.IdentityKey | Backend/index.js:133-134 | the key contains neither `/` nor `.`, and a name with neither is its own key |
| Keys.LastPartAfterSep | Backend/index.js:133 | after a final `/`, the rest of the name is exactly what `pop()` returns |
| Keys.FirstPartBeforeSep | Backend/index.js:134 | the text before the first `.` is exactly what `shift()` returns |
| Keys.KeyOfComposedPath | Backend/index.js:133-134 | a name composed of a directory prefix ending in `/`, a bare name and a dot-led extension yields the bare name as its key |
| Keys.AliceKey | Backend/index.js:133-134 | `img/alice.jpg` is keyed `alice` |
| Keys.FirstDotKey | Backend/index.js:134 | `img/a.b.jpg` is keyed `a`: only the text before the first dot is kept |
| Keys.DotFileKey | Backend/index.js:133-134 | `img/.jpg`, a name that starts with its dot, is keyed by the empty string |
| Keys.PlaceholderKey | Backend/index.js:133-134 | the directory placeholder `img/` is keyed by the empty string |
| Matching.Step | Backend/index.js:73-75 | one loop iteration keeps the current best or replaces it by the entry's name and distance; the new distance is the smaller of the two, and on a tie the current best stays |
| Matching.ScanStep | Backend/index.js:73-75 | one loop iteration (replace the best only on a strictly smaller distance) turns the exact summary of a prefix into the exact summary of the prefix plus one entry |
| Matching.Scan | Backend/index.js:71-76 | the best is at most 1 and at most every entry's distance; it has a name exactly when some entry is closer than 1; without a name it is the sentinel (null, 1); with a name it is the name and distance of the first entry that is closer than 1, no farther than any entry and strictly closer than every earlier entry |
| Matching.ScanPicksFirstClosest | Backend/index.js:71-76 | whenever an entry is the first closest one, the scan returns exactly its name and distance, so ties go to the earliest entry |
| Matching.NoCloserEntryKeepsBest | Backend/index.js:75 | appending an entry that is not strictly closer than the current best leaves the result unchanged (a later tie never displaces) |
| Matching.FarEntriesNeverWin | Backend/index.js:71-75 | dropping every entry at distance 1 or more does not change the result |
| Matching.Gate | Backend/index.js:79-83 | a best is accepted exactly when its name is present and non-empty and its distance is at most 0.6, and then the accepted key is that name |
| Matching.ThresholdIsInclusive | Backend/index.js:79 | distances 0.6 and 0.599 pass the gate, 0.601 does not |
| Matching.GateOnScan | Backend/index.js:71-83 | the gate passes the scan's result exactly when some entry is the first closest, has a non-empty name and lies within 0.6, and then passes that entry's name |
| KnownFaces.ContentType | Backend/index.js:139 | a declared content type is kept; the result is empty exactly when none is declared or the declared one is empty |
| KnownFaces.IsImage | Backend/index.js:140 | a content type is an image type exactly when its first six characters are `image/` |
| KnownFaces.ProcessFile | Backend/index.js:133-162 | each object's outcome carries its derived key; it is added exactly when the metadata call succeeds with an image content type (missing counts as empty), the download succeeds and a face is detected, and then with that descriptor; it is skipped as non-image exactly when the metadata succeeds with a content type not starting with `image/`, and then records that content type; it is skipped for lack of a face exactly when the metadata gives an image type, the download succeeds and the detector finds no face; it fails exactly when the metadata call throws, or it gives an image type and then the download or the detector throws |
| KnownFaces.Preload | Backend/index.js:130-163 | one outcome per listed object; the index is exactly the entries of the added outcomes in listing order; the index is no longer than the listing |
| KnownFaces.PreloadOne | Backend/index.js:132-159 | a listing of one object indexes exactly that object's entry if it was added, and nothing otherwise |
| KnownFaces.PreloadSnoc | Backend/index.js:154-159 | one more object appends its outcome, and appends its entry only when it was added |
| KnownFaces.PreloadConcat | Backend/index.js:132-163 | preloading two listings in turn gives the concatenated index and outcomes of preloading each alone |
| KnownFaces.OutcomesArePerFile | Backend/index.js:137-162 | every object's outcome is the one it has on its own, so a caught failure never stops or alters later objects |
| KnownFaces.IndexedKeysAreBare | Backend/index.js:133-155 | every preloaded key contains neither `/` nor `.` |
| Upload.RoundMagnitude | Backend/index.js:102 | a non-negative distance below 10^21 is rounded to a whole number of thousandths within half a thousandth (halves go up), one at or above 10^21 is kept; the result stays non-negative, and at most 1 when the input is |
| Upload.RoundTo3 | Backend/index.js:102 | below 10^21 in magnitude (where `toFixed` stops printing exponents), the reported distance is a whole number of thousandths within half a thousandth of the computed one, with an exact half rounded away from zero (up for a non-negative input, down for a negative one); at or above 10^21 in magnitude the value is kept; non-negative for a non-negative input and at most 1 for an input at most 1 |
| Upload.MatchOf | Backend/index.js:96-103 | the reported match carries the document's five fields unchanged and, below 10^21 in magnitude, a distance that is a whole number of thousandths within half a thousandth of the best distance, with halves rounded away from zero; at or above 10^21 the distance itself |
| Upload.MatchOfIsNearestThousandth | Backend/index.js:102 | any whole number of thousandths within half a thousandth of the distance (an exact half taken away from zero) is exactly the reported distance, so the rounding has one possible result |
| Upload.HandleUpload | Backend/index.js:40-114 | every response has status 200 or 500, at most one match, and no match with status 500 |
| Upload.NothingToMatchAnswersEmpty | Backend/index.js:40-67 | no uploaded file, or an upload without a detectable face, answers status 200 with no matches |
| Upload.UnreliableMatchAnswersEmpty | Backend/index.js:79-83 | when no entry is identified (none, or the first closest one is unnamed or farther than 0.6), the answer is status 200 with no matches |
| Upload.MissingRecordAnswersEmpty | Backend/index.js:85-91 | an identified entry whose document does not exist answers status 200 with no matches |
| Upload.IdentifiedFaceIsReported | Backend/index.js:96-109 | an identified entry whose document exists is answered with status 200 and exactly one match built from that document and the entry's distance |
| Upload.ReportedMatchIsIdentified | Backend/index.js:71-109 | any reported match comes from an uploaded photo with a detected face, the identified entry and its existing document |
| Upload.ServerErrorMeansException | Backend/index.js:53-114 | status 500 is answered exactly when the detector throws, or the document lookup for the identified entry throws |
| Lifecycle.PhotoIsIndexed | Backend/index.js:133-156 | a stored image `img/<name><ext>` with a detectable face is added under `<name>` with its descriptor |
| Lifecycle.AliceIndex | Backend/index.js:130-159 | preloading the single image `img/alice.jpg` with a detectable face gives the index holding only Alice's entry |
| Lifecycle.AliceEndToEnd | Backend/index.js:71-109 | with `img/alice.jpg` preloaded and a photo at distance 0.2 from it, the answer is status 200 with Alice's document and distance 0.2 |
| Lifecycle.AnswerAll | Backend/index.js:35-114 | there is one answer per request, and each is the handler's answer to that request alone against the same index, looking up documents in the store as that request finds it |
| Lifecycle.Serve | Backend/index.js:118-168 | the server answers nothing when listing the bucket throws; otherwise every request gets the handler's answer against the index the preload built, with the document store as it stands at that request |

## Left out

- Express routing, `multer` and `cors` middleware, `app.listen` and port 5000: transport. An upload is modelled as either no file or the file's bytes.
- Firebase initialisation and the storage, listing, download and Firestore clients: foreign code, modelled only as the results their calls produce.
- Loading TensorFlow's backend and the network weights: a failure there stops startup like a listing failure, and is not modelled separately.
- Image decoding and face detection: an opaque network, modelled as a detector returning `Attempt<Option<Descriptor>>`.
- Matching.Scan: the body of `faceapi.euclideanDistance` (a float square root) is an abstract real-valued metric. Symmetry and zero self-distance of the Euclidean metric are not stated, and the library's exception on descriptors of different lengths is not modelled, because both descriptors always come from the same detector.
- Matching.Scan: floating point is not modelled; in particular a NaN distance (never smaller than anything) cannot arise among reals.
- Upload.RoundTo3: rounds the real number to thousandths; the binary-double representation error of `toFixed(3)` and `parseFloat` is not modelled.
- Upload.MatchOf: the document's fields are modelled as strings; a field missing from the document (omitted from the JSON) is not distinguished.
- All `console` logging.
- The asynchronous ordering of the startup function: modelled only as "the preload completes, then requests are served".
