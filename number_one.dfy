// The batch script: the same pipeline as the GUI function run once at
// module level, with a stripped console answer for the name and a single
// dump of the cluster dict at the end.

module NumberOne {
  import opened Options
  import opened Text
  import opened KnownFaces
  import opened Matching
  import opened Clusters
  import opened Pipeline
  import ForSure

  /** What one run of the script does. listdir on a missing directory
      raises, so the run ends before anything is read or written. */
  function ScriptRun<E(!new)>(listing: Option<seq<string>>, encode: string -> seq<E>, probes: seq<E>,
                              dist: (E, E) -> real, clusterFile: Option<Store<E>>,
                              dbscan: seq<E> -> seq<int>, reply: string): (r: Run<E>)
    requires clusterFile.Some? ==> clusterFile.value.Valid()
    requires IsLabelling(dbscan)
    ensures r.gallery.Aligned()
  {
    if listing.None? then Run(DirectoryMissing, Gallery([], []), [], None)
    else
      var g := Build(listing.value, encode, AnyCaseJpgPng);
      match Identify(g.encodings, probes, dist, TOLERANCE)
      case NoFace => Run(NoFaceDetected, g, [], None)
      case Match(k) => Run(MatchFound(g.names[k]), g, [], None)
      case NoMatch => ScriptFiling(g, StoredClusters(clusterFile), probes[0], dbscan, reply)
  }

  /** Steps 4 to 6 of the script, from the loaded gallery g and the stored
      dict: the answer is stripped before it is tested, and the dict is
      dumped once, after the optional promotion. */
  function ScriptFiling<E(!new)>(g: Gallery<E>, stored: Store<E>, probe: E, dbscan: seq<E> -> seq<int>, reply: string)
    : (r: Run<E>)
    requires g.Aligned() && stored.Valid() && IsLabelling(dbscan)
    ensures r.gallery.Aligned()
  {
    var p := Cluster(stored, probe, dbscan);
    var report := ClusterReport(stored, probe, dbscan);
    var name := Strip(reply);
    if Prompted(p) && |name| > 0 then
      Run(report, g.Add(name, probe), [p.store.Pop(p.key)], Some(ImageFileName(name)))
    else
      Run(report, g, [p.store], None)
  }

  /** The script, statement by statement. */
  method Script<E(!new)>(listing: Option<seq<string>>, encode: string -> seq<E>, probes: seq<E>,
                         dist: (E, E) -> real, clusterFile: Option<Store<E>>,
                         dbscan: seq<E> -> seq<int>, reply: string)
    returns (run: Run<E>)
    requires clusterFile.Some? ==> clusterFile.value.Valid()
    requires IsLabelling(dbscan)
    ensures run == ScriptRun(listing, encode, probes, dist, clusterFile, dbscan, reply)
  {
    if listing.None? {
      return Run(DirectoryMissing, Gallery([], []), [], None);
    }
    var knownFaceNames, knownFaceEncodings := Load(listing.value, encode, AnyCaseJpgPng);
    ghost var g := Build(listing.value, encode, AnyCaseJpgPng);
    if |probes| == 0 {
      return Run(NoFaceDetected, Gallery(knownFaceNames, knownFaceEncodings), [], None);
    }
    var unknownEnc := probes[0];
    var distances := Distances(knownFaceEncodings, unknownEnc, dist);
    var matches := CompareFaces(distances, TOLERANCE);
    if true in matches {
      var bestIdx := FirstArgMin(distances);
      assert Identify(g.encodings, probes, dist, TOLERANCE) == Match(bestIdx);
      return Run(MatchFound(knownFaceNames[bestIdx]), Gallery(knownFaceNames, knownFaceEncodings), [], None);
    }
    assert Identify(g.encodings, probes, dist, TOLERANCE) == NoMatch;
    run := ScriptClusterAndName(knownFaceNames, knownFaceEncodings, StoredClusters(clusterFile), unknownEnc, dbscan, reply);
  }

  /** The script's clustering, naming and final save. */
  method ScriptClusterAndName<E(!new)>(knownFaceNames: seq<string>, knownFaceEncodings: seq<E>, stored: Store<E>,
                                       unknownEnc: E, dbscan: seq<E> -> seq<int>, reply: string)
    returns (run: Run<E>)
    requires |knownFaceNames| == |knownFaceEncodings|
    requires stored.Valid() && IsLabelling(dbscan)
    ensures run == ScriptFiling(Gallery(knownFaceNames, knownFaceEncodings), stored, unknownEnc, dbscan, reply)
  {
    var names, encodings := knownFaceNames, knownFaceEncodings;
    var newFaceLabel, clusterData, report := FileUnmatched(stored, unknownEnc, dbscan);
    var savedImage := None;
    if |clusterData.lists[newFaceLabel]| == 1 {
      var name := Strip(reply);
      if |name| > 0 {
        savedImage := Some(ImageFileName(name));
        encodings := encodings + [unknownEnc];
        names := names + [name];
        clusterData := clusterData.Pop(newFaceLabel);
      }
    }
    run := Run(report, Gallery(names, encodings), [clusterData], savedImage);
  }

  /** With the directory present, the script ends as the GUI function does
      when given the stripped answer, except that only the GUI function's
      last dump is written. */
  lemma ScriptMatchesRecognition<E(!new)>(listing: Option<seq<string>>, encode: string -> seq<E>, probes: seq<E>,
                                          dist: (E, E) -> real, clusterFile: Option<Store<E>>,
                                          dbscan: seq<E> -> seq<int>, reply: string)
    requires clusterFile.Some? ==> clusterFile.value.Valid()
    requires IsLabelling(dbscan)
    requires listing.Some?
    ensures var s := ScriptRun(listing, encode, probes, dist, clusterFile, dbscan, reply);
      && var r := ForSure.Recognition(listing, encode, probes, dist, clusterFile, dbscan, Strip(reply));
      && s.report == r.report && s.gallery == r.gallery && s.savedImage == r.savedImage
      && (s.dumps == [] <==> r.dumps == [])
      && (r.dumps != [] ==> s.dumps == [r.dumps[|r.dumps| - 1]])
  {
    var g := Build(listing.value, encode, AnyCaseJpgPng);
    assert g == ForSure.KnownGallery(listing, encode);
    if |probes| > 0 && Identify(g.encodings, probes, dist, TOLERANCE).NoMatch? {
      FilingAgrees(g, StoredClusters(clusterFile), probes[0], dbscan, reply);
    }
  }

  /** The clustering and naming steps agree with the GUI function's given
      the stripped answer, the single dump being the GUI function's last. */
  lemma FilingAgrees<E(!new)>(g: Gallery<E>, stored: Store<E>, probe: E, dbscan: seq<E> -> seq<int>, reply: string)
    requires g.Aligned() && stored.Valid() && IsLabelling(dbscan)
    ensures var s := ScriptFiling(g, stored, probe, dbscan, reply);
      && var r := ForSure.Filing(g, stored, probe, dbscan, Strip(reply));
      && s.report == r.report && s.gallery == r.gallery && s.savedImage == r.savedImage
      && r.dumps != [] && s.dumps == [r.dumps[|r.dumps| - 1]]
  {
  }

  /** A missing gallery directory stops the script before the upload is
      read: no report of a face, no dump and no image. */
  lemma MissingDirectoryStops<E(!new)>(encode: string -> seq<E>, probes: seq<E>,
                                       dist: (E, E) -> real, clusterFile: Option<Store<E>>,
                                       dbscan: seq<E> -> seq<int>, reply: string)
    requires clusterFile.Some? ==> clusterFile.value.Valid()
    requires IsLabelling(dbscan)
    ensures var s := ScriptRun(None, encode, probes, dist, clusterFile, dbscan, reply);
      s.report == DirectoryMissing && s.dumps == [] && s.savedImage == None
  {
  }

  /** The dict is written at most once, and exactly when the face was
      filed: with the filed face's key when naming is skipped, without it
      when the face is promoted under the stripped answer. */
  lemma ScriptStoreWrites<E(!new)>(listing: Option<seq<string>>, encode: string -> seq<E>, probes: seq<E>,
                                   dist: (E, E) -> real, clusterFile: Option<Store<E>>,
                                   dbscan: seq<E> -> seq<int>, reply: string)
    requires clusterFile.Some? ==> clusterFile.value.Valid()
    requires IsLabelling(dbscan)
    requires listing.Some? && |probes| > 0
    ensures var s := ScriptRun(listing, encode, probes, dist, clusterFile, dbscan, reply);
      && var g := Build(listing.value, encode, AnyCaseJpgPng);
      && var p := Cluster(StoredClusters(clusterFile), probes[0], dbscan);
      && |s.dumps| <= 1
      && (s.dumps != [] <==> Identify(g.encodings, probes, dist, TOLERANCE).NoMatch?)
      && (s.savedImage.Some? <==> s.dumps != [] && Prompted(p) && Strip(reply) != [])
      && (s.savedImage.Some? ==>
            && s.savedImage.value == ImageFileName(Strip(reply))
            && s.gallery == g.Add(Strip(reply), probes[0])
            && p.key !in s.dumps[0].lists
            && s.dumps[0].lists == p.store.lists - {p.key})
      && (s.savedImage.None? ==> s.gallery == g && (s.dumps != [] ==> s.dumps[0] == p.store))
  {
    var s := ScriptRun(listing, encode, probes, dist, clusterFile, dbscan, reply);
    var g := Build(listing.value, encode, AnyCaseJpgPng);
    var id := Identify(g.encodings, probes, dist, TOLERANCE);
    if id.NoMatch? {
      assert s == ScriptFiling(g, StoredClusters(clusterFile), probes[0], dbscan, reply);
      ScriptFilingWrites(g, StoredClusters(clusterFile), probes[0], dbscan, reply);
    } else {
      assert s.dumps == [] && s.savedImage == None && s.gallery == g;
    }
  }

  /** The script's filing step writes one dump: the dict with the face
      filed, less the face's key when the stripped answer promotes it. */
  lemma ScriptFilingWrites<E(!new)>(g: Gallery<E>, stored: Store<E>, probe: E, dbscan: seq<E> -> seq<int>, reply: string)
    requires g.Aligned() && stored.Valid() && IsLabelling(dbscan)
    ensures var s := ScriptFiling(g, stored, probe, dbscan, reply);
      && var p := Cluster(stored, probe, dbscan);
      && |s.dumps| == 1
      && (s.savedImage.Some? <==> Prompted(p) && Strip(reply) != [])
      && (s.savedImage.Some? ==>
            && s.savedImage.value == ImageFileName(Strip(reply))
            && s.gallery == g.Add(Strip(reply), probe)
            && p.key !in s.dumps[0].lists
            && s.dumps[0].lists == p.store.lists - {p.key})
      && (s.savedImage.None? ==> s.gallery == g && s.dumps[0] == p.store)
  {
    var p := Cluster(stored, probe, dbscan);
    if Prompted(p) && Strip(reply) != [] {
      assert ScriptFiling(g, stored, probe, dbscan, reply).dumps == [p.store.Pop(p.key)];
    }
  }

  /** An answer of only whitespace is a skip: the face stays alone in its
      cluster in the one dump the script writes. */
  lemma BlankReplyKeepsSingleton<E(!new)>(listing: Option<seq<string>>, encode: string -> seq<E>, probes: seq<E>,
                                          dist: (E, E) -> real, clusterFile: Option<Store<E>>,
                                          dbscan: seq<E> -> seq<int>, reply: string)
    requires clusterFile.Some? ==> clusterFile.value.Valid()
    requires IsLabelling(dbscan)
    requires listing.Some? && |probes| > 0
    requires ScriptRun(listing, encode, probes, dist, clusterFile, dbscan, reply).dumps != []
    requires forall i :: 0 <= i < |reply| ==> IsSpace(reply[i])
    ensures var s := ScriptRun(listing, encode, probes, dist, clusterFile, dbscan, reply);
      && var p := Cluster(StoredClusters(clusterFile), probes[0], dbscan);
      && s.savedImage == None
      && s.dumps == [p.store]
      && (Prompted(p) ==> s.dumps[0].lists[p.key] == [probes[0]])
  {
    ScriptStoreWrites(listing, encode, probes, dist, clusterFile, dbscan, reply);
    var p := Cluster(StoredClusters(clusterFile), probes[0], dbscan);
    PlaceEffect(StoredClusters(clusterFile), probes[0], Labels(StoredClusters(clusterFile), probes[0], dbscan));
  }
}
