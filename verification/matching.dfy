/**
  * The nearest-neighbour scan of the `/upload` handler and its acceptance gate.
  * The scan is a left fold over the known faces that starts from the sentinel
  * `{name: null, distance: 1}` and replaces the current best only on a
  * strictly smaller distance.
  */
module Matching {
  import opened Wrappers
  import opened Faces

  /** The running best candidate: `best = { name, distance }`. */
  datatype Best = Best(name: Option<string>, distance: real)

  /** The scan's starting point, and its answer when nothing is closer than 1. */
  const NoMatch: Best := Best(None, 1.0)

  /** The largest distance still accepted as a reliable match. */
  const Threshold: real := 0.6

  /** Entry `i` is closer than 1, no farther than any entry, and strictly closer than every earlier one. */
  ghost predicate FirstClosest(query: Descriptor, faces: seq<Entry>, dist: Metric, i: int) {
    && 0 <= i < |faces|
    && dist(query, faces[i].descriptor) < 1.0
    && (forall j :: 0 <= j < |faces| ==> dist(query, faces[i].descriptor) <= dist(query, faces[j].descriptor))
    && (forall j :: 0 <= j < i ==> dist(query, faces[i].descriptor) < dist(query, faces[j].descriptor))
  }

  /**
    * What the outcome of scanning `faces` is: never above 1 and never above
    * any entry's distance; named exactly when some entry is closer than 1;
    * the sentinel when unnamed; otherwise the name and distance of the
    * first closest entry.
    */
  ghost predicate BestOf(query: Descriptor, faces: seq<Entry>, dist: Metric, best: Best) {
    && best.distance <= 1.0
    && (forall i :: 0 <= i < |faces| ==> best.distance <= dist(query, faces[i].descriptor))
    && (best.name.None? <==> forall i :: 0 <= i < |faces| ==> dist(query, faces[i].descriptor) >= 1.0)
    && (best.name.None? ==> best == NoMatch)
    && (best.name.Some? ==>
          exists i :: FirstClosest(query, faces, dist, i)
                   && best == Best(Some(faces[i].name), dist(query, faces[i].descriptor)))
  }

  /** One iteration of the scan loop: `if (d < best.distance) best = { name: face.name, distance: d }`. */
  function Step(query: Descriptor, dist: Metric, best: Best, face: Entry): (next: Best)
    ensures next == best || next == Best(Some(face.name), dist(query, face.descriptor))
    ensures next.distance <= best.distance && next.distance <= dist(query, face.descriptor)
    ensures best.distance <= dist(query, face.descriptor) ==> next == best
  {
    var d := dist(query, face.descriptor);
    if d < best.distance then Best(Some(face.name), d) else best
  }

  /** One more entry keeps the summary exact. */
  lemma ScanStep(query: Descriptor, faces: seq<Entry>, dist: Metric, prev: Best)
    requires |faces| > 0
    requires BestOf(query, faces[..|faces| - 1], dist, prev)
    ensures BestOf(query, faces, dist, Step(query, dist, prev, faces[|faces| - 1]))
  {
    var n := |faces| - 1;
    var init := faces[..n];
    var d := dist(query, faces[n].descriptor);
    assert forall j :: 0 <= j < n ==> init[j] == faces[j];
    if d < prev.distance {
      assert FirstClosest(query, faces, dist, n);
    } else if prev.name.Some? {
      var i :| FirstClosest(query, init, dist, i)
             && prev == Best(Some(init[i].name), dist(query, init[i].descriptor));
      assert FirstClosest(query, faces, dist, i);
    }
  }

  /** The best match among `faces` for `query`, scanning in index order. */
  function Scan(query: Descriptor, faces: seq<Entry>, dist: Metric): (best: Best)
    ensures BestOf(query, faces, dist, best)
    decreases |faces|
  {
    if faces == [] then NoMatch
    else
      var prev := Scan(query, faces[..|faces| - 1], dist);
      ScanStep(query, faces, dist, prev);
      Step(query, dist, prev, faces[|faces| - 1])
  }

  /** The summary determines the scan's outcome: it names the first closest entry. */
  lemma ScanPicksFirstClosest(query: Descriptor, faces: seq<Entry>, dist: Metric, i: int)
    requires FirstClosest(query, faces, dist, i)
    ensures Scan(query, faces, dist) == Best(Some(faces[i].name), dist(query, faces[i].descriptor))
  {
    var best := Scan(query, faces, dist);
    assert best.name.Some?;
    var k :| FirstClosest(query, faces, dist, k)
           && best == Best(Some(faces[k].name), dist(query, faces[k].descriptor));
    if k != i {
      assert false;
    }
  }

  /** An appended entry that is not strictly closer leaves the result as it was: ties go to the earlier entry. */
  lemma NoCloserEntryKeepsBest(query: Descriptor, faces: seq<Entry>, dist: Metric, face: Entry)
    requires dist(query, face.descriptor) >= Scan(query, faces, dist).distance
    ensures Scan(query, faces + [face], dist) == Scan(query, faces, dist)
  {
    assert (faces + [face])[..|faces|] == faces;
  }

  /** The entries closer than 1, in scan order. */
  function Near(query: Descriptor, faces: seq<Entry>, dist: Metric): (near: seq<Entry>)
    decreases |faces|
  {
    if faces == [] then []
    else
      var last := faces[|faces| - 1];
      Near(query, faces[..|faces| - 1], dist) + (if dist(query, last.descriptor) < 1.0 then [last] else [])
  }

  /** Entries at distance 1 or more never influence the outcome. */
  lemma {:induction false} FarEntriesNeverWin(query: Descriptor, faces: seq<Entry>, dist: Metric)
    ensures Scan(query, Near(query, faces, dist), dist) == Scan(query, faces, dist)
    decreases |faces|
  {
    if faces != [] {
      var init := faces[..|faces| - 1];
      var last := faces[|faces| - 1];
      FarEntriesNeverWin(query, init, dist);
      var near := Near(query, faces, dist);
      var prev := Scan(query, init, dist);
      assert Scan(query, faces, dist) == Step(query, dist, prev, last);
      if dist(query, last.descriptor) < 1.0 {
        assert near[..|near| - 1] == Near(query, init, dist);
        assert near[|near| - 1] == last;
      } else {
        assert near == Near(query, init, dist);
      }
    }
  }

  /**
    * The acceptance gate `if (!best.name || best.distance > 0.6)`: a match is
    * rejected when its name is missing or empty (both falsy) or its distance
    * exceeds the threshold.
    */
  function Gate(best: Best): (key: Option<string>)
    ensures key.Some? <==> best.name.Some? && best.name.value != "" && best.distance <= Threshold
    ensures key.Some? ==> key == best.name
  {
    if best.name.None? || best.name.value == "" || best.distance > Threshold then None else best.name
  }

  /** The threshold is inclusive: 0.6 and 0.599 pass, 0.601 does not. */
  lemma ThresholdIsInclusive(name: string)
    requires name != ""
    ensures Gate(Best(Some(name), 0.6)) == Some(name)
    ensures Gate(Best(Some(name), 0.599)) == Some(name)
    ensures Gate(Best(Some(name), 0.601)) == None
  {
  }

  /** Entry `i` is the first closest entry, has a non-empty name and lies within the threshold. */
  ghost predicate Identifies(query: Descriptor, faces: seq<Entry>, dist: Metric, i: int) {
    FirstClosest(query, faces, dist, i) && faces[i].name != "" && dist(query, faces[i].descriptor) <= Threshold
  }

  /** The gate passes the scan's outcome exactly when some entry is identified, and then passes its name. */
  lemma GateOnScan(query: Descriptor, faces: seq<Entry>, dist: Metric)
    ensures Gate(Scan(query, faces, dist)).Some? <==> exists i :: Identifies(query, faces, dist, i)
    ensures forall i :: Identifies(query, faces, dist, i) ==> Gate(Scan(query, faces, dist)) == Some(faces[i].name)
  {
    var best := Scan(query, faces, dist);
    if Gate(best).Some? {
      var k :| FirstClosest(query, faces, dist, k)
             && best == Best(Some(faces[k].name), dist(query, faces[k].descriptor));
      assert Identifies(query, faces, dist, k);
    }
    forall i | Identifies(query, faces, dist, i)
      ensures Gate(best) == Some(faces[i].name)
    {
      ScanPicksFirstClosest(query, faces, dist, i);
    }
  }
}
