// The GUI recognition function: load the gallery from the known-faces
// directory, identify the uploaded face against it with tolerance 0.55, and
// otherwise file the face into the DBSCAN cluster store, offering to name
// and promote a face that sits alone in its cluster.

module ForSure {
  import opened Options
  import opened Text
  import opened KnownFaces
  import opened Matching
  import opened Clusters
  import opened Pipeline

  /** The known-faces directory's listing; a missing directory is created
      and so lists nothing. */
  function Files(listing: Option<seq<string>>): (files: seq<string>)
    ensures listing.None? ==> files == []
    ensures listing.Some? ==> files == listing.value
  {
    if listing.Some? then listing.value else []
  }

  /** The gallery recognize_face loads: the lower-cased ".jpg"/".png" filter. */
  function KnownGallery<E>(listing: Option<seq<string>>, encode: string -> seq<E>): (g: Gallery<E>)
    ensures g.Aligned()
  {
    Build(Files(listing), encode, AnyCaseJpgPng)
  }

  /** What one call of recognize_face does, given the directory listing,
      the face encoder, the upload's encodings, the distance, the pickle
      file's dict (None when the file does not exist), DBSCAN and the reply
      the naming dialog would return. */
  function Recognition<E(!new)>(listing: Option<seq<string>>, encode: string -> seq<E>, probes: seq<E>,
                                dist: (E, E) -> real, clusterFile: Option<Store<E>>,
                                dbscan: seq<E> -> seq<int>, reply: string): (r: Run<E>)
    requires clusterFile.Some? ==> clusterFile.value.Valid()
    requires IsLabelling(dbscan)
    ensures r.gallery.Aligned()
  {
    var g := KnownGallery(listing, encode);
    match Identify(g.encodings, probes, dist, TOLERANCE)
    case NoFace => Run(NoFaceDetected, g, [], None)
    case Match(k) => Run(MatchFound(g.names[k]), g, [], None)
    case NoMatch => Filing(g, StoredClusters(clusterFile), probes[0], dbscan, reply)
  }

  /** The clustering fallback and the naming step of recognize_face, from
      the loaded gallery g and the stored dict. */
  function Filing<E(!new)>(g: Gallery<E>, stored: Store<E>, probe: E, dbscan: seq<E> -> seq<int>, reply: string)
    : (r: Run<E>)
    requires g.Aligned() && stored.Valid() && IsLabelling(dbscan)
    ensures r.gallery.Aligned()
    ensures (r.report.NewCluster? || r.report.ClusterUpdated?) && |r.dumps| > 0
  {
    var p := Cluster(stored, probe, dbscan);
    var report := ClusterReport(stored, probe, dbscan);
    if Prompted(p) && |reply| > 0 then
      Run(report, g.Add(reply, probe), [p.store, p.store.Pop(p.key)], Some(ImageFileName(reply)))
    else
      Run(report, g, [p.store], None)
  }

  /** recognize_face, step by step: the gallery lists are filled by the
      loading loop, the cluster dict is read, assigned or appended to,
      dumped, and on promotion popped and dumped again. */
  method RecognizeFace<E(!new)>(listing: Option<seq<string>>, encode: string -> seq<E>, probes: seq<E>,
                                dist: (E, E) -> real, clusterFile: Option<Store<E>>,
                                dbscan: seq<E> -> seq<int>, reply: string)
    returns (run: Run<E>)
    requires clusterFile.Some? ==> clusterFile.value.Valid()
    requires IsLabelling(dbscan)
    ensures run == Recognition(listing, encode, probes, dist, clusterFile, dbscan, reply)
  {
    var files := Files(listing);
    var knownFaceNames, knownFaceEncodings := Load(files, encode, AnyCaseJpgPng);
    ghost var g := KnownGallery(listing, encode);
    assert Gallery(knownFaceNames, knownFaceEncodings) == g;
    if |probes| == 0 {
      return Run(NoFaceDetected, Gallery(knownFaceNames, knownFaceEncodings), [], None);
    }
    var unknownEnc := probes[0];
    var distances := Distances(knownFaceEncodings, unknownEnc, dist);
    var matches := CompareFaces(distances, TOLERANCE);
    if true in matches {
      var bestIdx := FirstArgMin(distances);
      assert Identify(g.encodings, probes, dist, TOLERANCE) == Match(bestIdx);
      return Run(MatchFound(knownFaceNames[bestIdx]), Gallery(knownFaceNames, knownFaceEncodings), [], None);
    }
    assert Identify(g.encodings, probes, dist, TOLERANCE) == NoMatch;
    run := ClusterAndName(knownFaceNames, knownFaceEncodings, StoredClusters(clusterFile), unknownEnc, dbscan, reply);
  }

  /** Steps 4 to 6 of recognize_face: file the unmatched face into the
      cluster dict, dump it, and on a non-empty name for a face alone in its
      cluster promote it into the gallery lists, pop its key and dump again. */
  method ClusterAndName<E(!new)>(knownFaceNames: seq<string>, knownFaceEncodings: seq<E>, stored: Store<E>,
                                 unknownEnc: E, dbscan: seq<E> -> seq<int>, reply: string)
    returns (run: Run<E>)
    requires |knownFaceNames| == |knownFaceEncodings|
    requires stored.Valid() && IsLabelling(dbscan)
    ensures run == Filing(Gallery(knownFaceNames, knownFaceEncodings), stored, unknownEnc, dbscan, reply)
  {
    var names, encodings := knownFaceNames, knownFaceEncodings;
    ghost var p := Cluster(stored, unknownEnc, dbscan);
    var newFaceLabel, clusterData, report := FileUnmatched(stored, unknownEnc, dbscan);
    var dumps := [clusterData];
    var savedImage := None;
    if |clusterData.Get(newFaceLabel, [])| == 1 && |reply| > 0 {
      savedImage := Some(ImageFileName(reply));
      encodings := encodings + [unknownEnc];
      names := names + [reply];
      clusterData := clusterData.Pop(newFaceLabel);
      dumps := dumps + [clusterData];
      assert Gallery(names, encodings) == Gallery(knownFaceNames, knownFaceEncodings).Add(reply, unknownEnc);
      assert dumps == [p.store, p.store.Pop(p.key)];
    } else {
      assert !(Prompted(p) && |reply| > 0);
    }
    run := Run(report, Gallery(names, encodings), dumps, savedImage);
  }

  /** start_recognition: refused with an error when no file is selected,
      otherwise recognize_face on the selected file's encodings. */
  method StartRecognition<E(!new)>(selectedPath: string, listing: Option<seq<string>>, encode: string -> seq<E>,
                                   probes: seq<E>, dist: (E, E) -> real, clusterFile: Option<Store<E>>,
                                   dbscan: seq<E> -> seq<int>, reply: string)
    returns (run: Run<E>)
    requires clusterFile.Some? ==> clusterFile.value.Valid()
    requires IsLabelling(dbscan)
    ensures selectedPath == [] ==> run == Run(NoImageSelected, Gallery([], []), [], None)
    ensures selectedPath != [] ==> run == Recognition(listing, encode, probes, dist, clusterFile, dbscan, reply)
  {
    if |selectedPath| == 0 {
      return Run(NoImageSelected, Gallery([], []), [], None);
    }
    run := RecognizeFace(listing, encode, probes, dist, clusterFile, dbscan, reply);
  }

  /** No encoding in the upload: an error, before any matching, and the
      cluster store is neither read nor written. A match is reported exactly
      when some gallery encoding lies within 0.55 of the upload's first
      encoding, under the name of the first closest one, again without
      touching the store. */
  lemma RecognitionIdentifies<E(!new)>(listing: Option<seq<string>>, encode: string -> seq<E>, probes: seq<E>,
                                       dist: (E, E) -> real, clusterFile: Option<Store<E>>,
                                       dbscan: seq<E> -> seq<int>, reply: string)
    requires clusterFile.Some? ==> clusterFile.value.Valid()
    requires IsLabelling(dbscan)
    ensures var r := Recognition(listing, encode, probes, dist, clusterFile, dbscan, reply);
      && var g := KnownGallery(listing, encode);
      && (r.report == NoFaceDetected <==> |probes| == 0)
      && (r.report.MatchFound? <==>
            |probes| > 0 && exists i :: 0 <= i < |g.encodings| && dist(g.encodings[i], probes[0]) <= TOLERANCE)
      && (r.report.MatchFound? ==> exists k ::
            && 0 <= k < |g.names|
            && r.report.name == g.names[k]
            && dist(g.encodings[k], probes[0]) <= TOLERANCE
            && (forall j :: 0 <= j < |g.encodings| ==> dist(g.encodings[k], probes[0]) <= dist(g.encodings[j], probes[0]))
            && (forall j :: 0 <= j < k ==> dist(g.encodings[k], probes[0]) < dist(g.encodings[j], probes[0])))
      && (r.report == NoFaceDetected || r.report.MatchFound? <==> r.dumps == [])
      && (r.report == NoFaceDetected || r.report.MatchFound? ==> r.gallery == g && r.savedImage == None)
  {
    var r := Recognition(listing, encode, probes, dist, clusterFile, dbscan, reply);
    var g := KnownGallery(listing, encode);
    var id := Identify(g.encodings, probes, dist, TOLERANCE);
    if id.NoFace? {
      assert r == Run(NoFaceDetected, g, [], None);
    } else if id.Match? {
      assert r == Run(MatchFound(g.names[id.index]), g, [], None);
    } else {
      assert r == Filing(g, StoredClusters(clusterFile), probes[0], dbscan, reply);
    }
  }

  /** Once the face is filed, the dict is dumped with the filed face in it.
      The naming prompt's answer promotes the face exactly when its key holds
      that one encoding and the answer is not empty: the image is saved
      under the answer with spaces replaced, the gallery gains the answer and
      the face, and the dict is dumped a second time without that key. An
      empty answer leaves the first dump as the final state. */
  lemma RecognitionStoreWrites<E(!new)>(listing: Option<seq<string>>, encode: string -> seq<E>, probes: seq<E>,
                                        dist: (E, E) -> real, clusterFile: Option<Store<E>>,
                                        dbscan: seq<E> -> seq<int>, reply: string)
    requires clusterFile.Some? ==> clusterFile.value.Valid()
    requires IsLabelling(dbscan)
    requires |probes| > 0
    ensures var r := Recognition(listing, encode, probes, dist, clusterFile, dbscan, reply);
      && var g := KnownGallery(listing, encode);
      && var p := Cluster(StoredClusters(clusterFile), probes[0], dbscan);
      && (r.dumps != [] ==> r.dumps[0] == p.store && r.report == ClusterReport(StoredClusters(clusterFile), probes[0], dbscan))
      && (r.savedImage.Some? <==> r.dumps != [] && Prompted(p) && reply != [])
      && (r.savedImage.Some? ==>
            && r.savedImage.value == ImageFileName(reply)
            && r.gallery == g.Add(reply, probes[0])
            && |r.dumps| == 2
            && p.key !in r.dumps[1].lists
            && r.dumps[1].lists == p.store.lists - {p.key})
      && (r.savedImage.None? ==> r.gallery == g && |r.dumps| <= 1)
  {
    var r := Recognition(listing, encode, probes, dist, clusterFile, dbscan, reply);
    var g := KnownGallery(listing, encode);
    var id := Identify(g.encodings, probes, dist, TOLERANCE);
    if id.NoMatch? {
      assert r == Filing(g, StoredClusters(clusterFile), probes[0], dbscan, reply);
      FilingWrites(g, StoredClusters(clusterFile), probes[0], dbscan, reply);
    } else {
      assert r.dumps == [] && r.savedImage == None && r.gallery == g;
    }
  }

  /** The filing step dumps the dict with the face filed, and promotes the
      face exactly when the prompt appears and the answer is not empty. */
  lemma FilingWrites<E(!new)>(g: Gallery<E>, stored: Store<E>, probe: E, dbscan: seq<E> -> seq<int>, reply: string)
    requires g.Aligned() && stored.Valid() && IsLabelling(dbscan)
    ensures var r := Filing(g, stored, probe, dbscan, reply);
      && var p := Cluster(stored, probe, dbscan);
      && r.dumps != [] && r.dumps[0] == p.store && r.report == ClusterReport(stored, probe, dbscan)
      && (r.savedImage.Some? <==> Prompted(p) && reply != [])
      && (r.savedImage.Some? ==>
            && r.savedImage.value == ImageFileName(reply)
            && r.gallery == g.Add(reply, probe)
            && |r.dumps| == 2
            && p.key !in r.dumps[1].lists
            && r.dumps[1].lists == p.store.lists - {p.key})
      && (r.savedImage.None? ==> r.gallery == g && |r.dumps| == 1)
  {
    var p := Cluster(stored, probe, dbscan);
    if Prompted(p) && reply != [] {
      assert Filing(g, stored, probe, dbscan, reply).dumps == [p.store, p.store.Pop(p.key)];
    }
  }

  /** A face DBSCAN calls noise always reaches the naming prompt, since its
      new key holds exactly that face. */
  lemma NoisePrompts<E(!new)>(s: Store<E>, probe: E, dbscan: seq<E> -> seq<int>)
    requires s.Valid() && IsLabelling(dbscan)
    requires Labels(s, probe, dbscan)[|s.Flatten()|] == -1
    ensures Prompted(Cluster(s, probe, dbscan))
    ensures Cluster(s, probe, dbscan).store.lists[Cluster(s, probe, dbscan).key] == [probe]
  {
    PlaceEffect(s, probe, Labels(s, probe, dbscan));
  }

  /** Promotion takes exactly the one promoted encoding out of the store. */
  lemma PromotionShrinksStore<E(!new)>(listing: Option<seq<string>>, encode: string -> seq<E>, probes: seq<E>,
                                       dist: (E, E) -> real, clusterFile: Option<Store<E>>,
                                       dbscan: seq<E> -> seq<int>, reply: string)
    requires clusterFile.Some? ==> clusterFile.value.Valid()
    requires IsLabelling(dbscan)
    requires |probes| > 0
    requires Recognition(listing, encode, probes, dist, clusterFile, dbscan, reply).savedImage.Some?
    ensures var r := Recognition(listing, encode, probes, dist, clusterFile, dbscan, reply);
      && |r.dumps| == 2 && r.dumps[0].Valid() && r.dumps[1].Valid()
      && |r.dumps[1].Flatten()| + 1 == |r.dumps[0].Flatten()|
  {
    var r := Recognition(listing, encode, probes, dist, clusterFile, dbscan, reply);
    var g := KnownGallery(listing, encode);
    var stored := StoredClusters(clusterFile);
    var id := Identify(g.encodings, probes, dist, TOLERANCE);
    assert id.NoMatch?;
    assert r == Filing(g, stored, probes[0], dbscan, reply);
    var p := Cluster(stored, probes[0], dbscan);
    assert r.dumps == [p.store, p.store.Pop(p.key)];
    PopLength(p.store, p.key);
  }

  /** The dialog's answer is not stripped here: an answer of only spaces
      still promotes, into a gallery image named by underscores. */
  lemma SpacesOnlyReplyPromotes<E(!new)>(g: Gallery<E>, stored: Store<E>, probe: E, dbscan: seq<E> -> seq<int>)
    requires g.Aligned() && stored.Valid() && IsLabelling(dbscan)
    requires Prompted(Cluster(stored, probe, dbscan))
    ensures Filing(g, stored, probe, dbscan, " ").savedImage == Some("_.jpg")
    ensures Filing(g, stored, probe, dbscan, " ").gallery.names == g.names + [" "]
  {
    assert ReplaceSpaces(" ")[0] == '_';
    assert ReplaceSpaces(" ") == "_";
    assert ImageFileName(" ") == "_.jpg";
    var p := Cluster(stored, probe, dbscan);
    assert Filing(g, stored, probe, dbscan, " ")
      == Run(ClusterReport(stored, probe, dbscan), g.Add(" ", probe), [p.store, p.store.Pop(p.key)], Some(ImageFileName(" ")));
  }
}
