/**
  * The two phases of the server: the preload builds the index once, and
  * every request is then answered against that same index.
  */
module Lifecycle {
  import opened Wrappers
  import opened Faces
  import opened Matching
  import opened KnownFaces
  import opened Upload
  import Keys

  /** A photo stored as `img/<name><ext>` with an image content type and one detectable face is indexed under `<name>`. */
  lemma PhotoIsIndexed(name: string, ext: string, contentType: string, bytes: Bytes, d: Descriptor, detect: Detector)
    requires Keys.Bare(name)
    requires '/' !in ext && (ext == [] || ext[0] == '.')
    requires IsImage(contentType)
    requires detect(bytes) == Done(Some(d))
    ensures ProcessFile(StoredFile("img/" + name + ext, Done(Some(contentType)), Done(bytes)), detect) == Added(name, d)
  {
    Keys.KeyOfComposedPath("img/", name, ext);
  }

  /** Preloading `img/alice.jpg`, an image with a detectable face, gives the index holding Alice alone. */
  lemma AliceIndex(aliceBytes: Bytes, d: Descriptor, detect: Detector)
    requires detect(aliceBytes) == Done(Some(d))
    ensures Preload([StoredFile("img/alice.jpg", Done(Some("image/jpeg")), Done(aliceBytes))], detect).index == [Entry("alice", d)]
  {
    var file := StoredFile("img/alice.jpg", Done(Some("image/jpeg")), Done(aliceBytes));
    assert "img/" + "alice" + ".jpg" == "img/alice.jpg";
    PhotoIsIndexed("alice", ".jpg", "image/jpeg", aliceBytes, d, detect);
    PreloadOne(file, detect);
  }

  /**
    * End to end: with `img/alice.jpg` preloaded and the uploaded photo at
    * distance 0.2 from it, the answer is Alice's document with distance 0.2.
    */
  lemma AliceEndToEnd(aliceBytes: Bytes, photo: Bytes, d: Descriptor, query: Descriptor, rec: Record,
                      detect: Detector, dist: Metric, store: Store)
    requires detect(aliceBytes) == Done(Some(d))
    requires detect(photo) == Done(Some(query))
    requires dist(query, d) == 0.2
    requires store("alice") == Done(Some(rec))
    ensures HandleUpload(Preload([StoredFile("img/alice.jpg", Done(Some("image/jpeg")), Done(aliceBytes))], detect).index,
                         File(photo), detect, dist, store)
         == Response(StatusOk, [Match(rec.displayLabel, rec.fechaNacimiento, rec.tlfEmergencia, rec.cedula, rec.imgUrl, 0.2)])
  {
    AliceIndex(aliceBytes, d, detect);
    var index := [Entry("alice", d)];
    assert Identifies(query, index, dist, 0);
    IdentifiedFaceIsReported(index, photo, query, 0, rec, detect, dist, store);
    assert RoundTo3(0.2) == 0.2 by {
      assert (0.2 * 1000.0 + 0.5).Floor == 200;
    }
  }

  /**
    * The answers to a sequence of requests, each against the same index;
    * `stores[j]` is the document store as the `j`-th request finds it, since
    * the records may change while the server runs.
    */
  function AnswerAll(index: seq<Entry>, uploads: seq<UploadedFile>, detect: Detector, dist: Metric, stores: seq<Store>)
    : (responses: seq<Response>)
    requires |stores| == |uploads|
    ensures |responses| == |uploads|
    ensures forall j :: 0 <= j < |uploads| ==> responses[j] == HandleUpload(index, uploads[j], detect, dist, stores[j])
    decreases |uploads|
  {
    if uploads == [] then []
    else [HandleUpload(index, uploads[0], detect, dist, stores[0])] + AnswerAll(index, uploads[1..], detect, dist, stores[1..])
  }

  /**
    * Starting the server: listing the `img/` objects either throws, and the
    * server never listens, or the preload runs to completion and every
    * request is answered against the index it built, whatever came before it
    * and whatever the document store holds at the time of each request.
    */
  function Serve(listing: Attempt<seq<StoredFile>>, detect: Detector, uploads: seq<UploadedFile>, dist: Metric, stores: seq<Store>)
    : (responses: Option<seq<Response>>)
    requires |stores| == |uploads|
    ensures responses.None? <==> listing.Threw?
    ensures responses.Some? ==> |responses.value| == |uploads|
    ensures responses.Some? ==>
              forall j :: 0 <= j < |uploads| ==>
                responses.value[j] == HandleUpload(Preload(listing.value, detect).index, uploads[j], detect, dist, stores[j])
  {
    match listing
    case Threw => None
    case Done(files) => Some(AnswerAll(Preload(files, detect).index, uploads, detect, dist, stores))
  }
}
