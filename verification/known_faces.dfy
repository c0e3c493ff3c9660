/**
  * The startup preload: every object listed under `img/` in the bucket is
  * turned into one outcome, and only photos whose metadata says they are
  * images and in which a face was detected are appended to `knownFaces`.
  * A failure while processing one object is caught and the loop moves on.
  */
module KnownFaces {
  import opened Wrappers
  import opened Faces
  import Keys

  /** The content-type prefix that marks an object as an image. */
  const ImagePrefix: string := "image/"

  /**
    * A listed object with the results its foreign calls would produce:
    * `getMetadata()` resolves to a possibly missing content type or throws,
    * `download()` resolves to the bytes or throws.
    */
  datatype StoredFile = StoredFile(name: string, metadata: Attempt<Option<string>>, download: Attempt<Bytes>)

  /** What happened to one listed object. */
  datatype Outcome =
    | Added(key: string, descriptor: Descriptor)
    | SkippedNotImage(key: string, contentType: string)
    | SkippedNoFace(key: string)
    | Failed(key: string)

  /** The index built by the preload together with one outcome per listed object. */
  datatype Preloaded = Preloaded(index: seq<Entry>, outcomes: seq<Outcome>)

  /** `metadata.contentType || ''`: a missing content type reads as the empty one. */
  function ContentType(declared: Option<string>): (contentType: string)
    ensures declared.Some? ==> contentType == declared.value
    ensures contentType == "" <==> declared == None || declared == Some("")
  {
    match declared
    case Some(declaredType) => declaredType
    case None => ""
  }

  /** `contentType.startsWith('image/')`. */
  predicate IsImage(contentType: string)
    ensures IsImage(contentType) <==>
              |contentType| >= |ImagePrefix| && contentType[..|ImagePrefix|] == ImagePrefix
  {
    ImagePrefix <= contentType
  }

  /** The body of the preload loop for one object, with its `try`/`catch`. */
  function ProcessFile(file: StoredFile, detect: Detector): (outcome: Outcome)
    ensures outcome.key == Keys.IdentityKey(file.name)
    ensures outcome.Added? <==>
              && file.metadata.Done?
              && IsImage(ContentType(file.metadata.value))
              && file.download.Done?
              && detect(file.download.value).Done?
              && detect(file.download.value).value.Some?
    ensures outcome.Added? ==> detect(file.download.value) == Done(Some(outcome.descriptor))
    ensures outcome.SkippedNotImage? <==> file.metadata.Done? && !IsImage(ContentType(file.metadata.value))
    ensures outcome.SkippedNotImage? ==> outcome.contentType == ContentType(file.metadata.value)
    ensures outcome.SkippedNoFace? <==>
              && file.metadata.Done?
              && IsImage(ContentType(file.metadata.value))
              && file.download.Done?
              && detect(file.download.value) == Done(None)
    ensures outcome.Failed? <==>
              || file.metadata.Threw?
              || (&& file.metadata.Done?
                  && IsImage(ContentType(file.metadata.value))
                  && (file.download.Threw? || detect(file.download.value).Threw?))
  {
    var key := Keys.IdentityKey(file.name);
    match file.metadata
    case Threw => Failed(key)
    case Done(declared) =>
      var contentType := ContentType(declared);
      if !IsImage(contentType) then SkippedNotImage(key, contentType)
      else
        match file.download
        case Threw => Failed(key)
        case Done(bytes) =>
          match detect(bytes)
          case Threw => Failed(key)
          case Done(None) => SkippedNoFace(key)
          case Done(Some(descriptor)) => Added(key, descriptor)
  }

  /** The entries one outcome contributes: its key and descriptor if the object was added, nothing otherwise. */
  function Contribution(o: Outcome): seq<Entry> {
    if o.Added? then [Entry(o.key, o.descriptor)] else []
  }

  /** The entries that a list of outcomes contributes, read off independently of the loop. */
  function AddedEntries(outcomes: seq<Outcome>): (entries: seq<Entry>)
    decreases |outcomes|
  {
    if outcomes == [] then []
    else Contribution(outcomes[0]) + AddedEntries(outcomes[1..])
  }

  /** Reading the contributed entries distributes over appending an outcome. */
  lemma {:induction false} AddedEntriesAppend(outcomes: seq<Outcome>, o: Outcome)
    ensures AddedEntries(outcomes + [o]) == AddedEntries(outcomes) + Contribution(o)
    decreases |outcomes|
  {
    if outcomes == [] {
      assert outcomes + [o] == [o];
    } else {
      assert (outcomes + [o])[1..] == outcomes[1..] + [o];
      AddedEntriesAppend(outcomes[1..], o);
    }
  }

  /**
    * The preload loop over the listed objects, as a left fold: each object
    * yields exactly the outcome it yields on its own, and the index holds
    * the added entries in listing order.
    */
  function Preload(files: seq<StoredFile>, detect: Detector): (p: Preloaded)
    ensures |p.outcomes| == |files|
    ensures p.index == AddedEntries(p.outcomes)
    ensures |p.index| <= |files|
    decreases |files|
  {
    if files == [] then Preloaded([], [])
    else
      var prev := Preload(files[..|files| - 1], detect);
      var outcome := ProcessFile(files[|files| - 1], detect);
      AddedEntriesAppend(prev.outcomes, outcome);
      Preloaded(prev.index + Contribution(outcome), prev.outcomes + [outcome])
  }

  /** Preloading one more object appends its outcome and, if it was added, its entry. */
  lemma PreloadSnoc(files: seq<StoredFile>, file: StoredFile, detect: Detector)
    ensures Preload(files + [file], detect)
         == Preloaded(Preload(files, detect).index + Contribution(ProcessFile(file, detect)),
                      Preload(files, detect).outcomes + [ProcessFile(file, detect)])
  {
    assert (files + [file])[..|files|] == files;
  }

  /** A listing of one object indexes exactly what that object contributes. */
  lemma PreloadOne(file: StoredFile, detect: Detector)
    ensures Preload([file], detect).index == Contribution(ProcessFile(file, detect))
  {
    assert [] + [file] == [file];
    PreloadSnoc([], file, detect);
  }

  /** Regrouping a concatenation of three sequences; stated on its own to keep the proof below small. */
  lemma Associative<T>(x: seq<T>, y: seq<T>, z: seq<T>)
    ensures (x + y) + z == x + (y + z)
  {
  }

  /** Peeling the last element off the right operand of a concatenation. */
  lemma SplitLast<T>(a: seq<T>, b: seq<T>)
    requires b != []
    ensures b == b[..|b| - 1] + [b[|b| - 1]]
    ensures a + b == (a + b[..|b| - 1]) + [b[|b| - 1]]
  {
  }

  /** Preloading two listings one after the other is preloading their concatenation. */
  lemma {:induction false} PreloadConcat(a: seq<StoredFile>, b: seq<StoredFile>, detect: Detector)
    ensures Preload(a + b, detect)
         == Preloaded(Preload(a, detect).index + Preload(b, detect).index,
                      Preload(a, detect).outcomes + Preload(b, detect).outcomes)
    decreases |b|
  {
    if b == [] {
      assert a + b == a;
    } else {
      var b' := b[..|b| - 1];
      var last := b[|b| - 1];
      PreloadConcat(a, b', detect);
      SplitLast(a, b);
      PreloadSnoc(b', last, detect);
      PreloadSnoc(a + b', last, detect);
      var pa, pb', o := Preload(a, detect), Preload(b', detect), ProcessFile(last, detect);
      Associative(pa.index, pb'.index, Contribution(o));
      Associative(pa.outcomes, pb'.outcomes, [o]);
    }
  }

  /** Every object's outcome is the one it has on its own: a failure never affects another object. */
  lemma {:induction false} OutcomesArePerFile(files: seq<StoredFile>, detect: Detector)
    ensures forall i :: 0 <= i < |files| ==> Preload(files, detect).outcomes[i] == ProcessFile(files[i], detect)
    decreases |files|
  {
    if files != [] {
      var init := files[..|files| - 1];
      OutcomesArePerFile(init, detect);
      assert files == init + [files[|files| - 1]];
      PreloadSnoc(init, files[|files| - 1], detect);
    }
  }

  /** Every preloaded key is a bare name: it contains neither a slash nor a dot. */
  lemma {:induction false} IndexedKeysAreBare(files: seq<StoredFile>, detect: Detector)
    ensures forall e :: e in Preload(files, detect).index ==> Keys.Bare(e.name)
    decreases |files|
  {
    if files != [] {
      var init := files[..|files| - 1];
      var last := files[|files| - 1];
      IndexedKeysAreBare(init, detect);
      assert files == init + [last];
      PreloadSnoc(init, last, detect);
    }
  }
}
