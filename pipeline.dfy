// The pieces the GUI function and the batch script share: what a run
// reports and writes, the configured match tolerance, and the clustering
// fallback that files an unmatched face.

module Pipeline {
  import opened Options
  import opened KnownFaces
  import opened Clusters

  /** compare_faces(..., tolerance=0.55) in both front ends. */
  const TOLERANCE: real := 0.55

  /** The message a run ends with. */
  datatype Report =
    | NoImageSelected
    | DirectoryMissing
    | NoFaceDetected
    | MatchFound(name: string)
    | NewCluster(id: int)
    | ClusterUpdated(id: int, size: nat)

  /** Everything a run leaves behind: its report, the gallery lists as they
      stand at the end, every pickle.dump of the cluster dict in order, and
      the name of the image written into the gallery directory, if any. */
  datatype Run<E> = Run(report: Report, gallery: Gallery<E>, dumps: seq<Store<E>>, savedImage: Option<string>)

  /** The cluster dict read from the pickle file, or {} when there is none. */
  function StoredClusters<E>(clusterFile: Option<Store<E>>): (s: Store<E>)
    requires clusterFile.Some? ==> clusterFile.value.Valid()
    ensures s.Valid()
    ensures clusterFile.None? ==> s.keys == [] && s.lists == map[]
    ensures clusterFile.Some? ==> s == clusterFile.value
  {
    if clusterFile.Some? then clusterFile.value else Empty()
  }

  /** DBSCAN's labels for the stored encodings followed by the probe. */
  function Labels<E(!new)>(s: Store<E>, probe: E, dbscan: seq<E> -> seq<int>): (labels: seq<int>)
    requires s.Valid() && IsLabelling(dbscan)
    ensures |labels| == |s.Flatten()| + 1
    ensures forall i :: 0 <= i < |labels| ==> -1 <= labels[i]
  {
    dbscan(ClusteringInput(s, probe))
  }

  /** The clustering fallback, in terms of the label DBSCAN gave the probe:
      noise starts the key NewClusterId with the probe alone, replacing any
      list that key held; another label is itself the key and the probe is
      appended to its list, or to [] when the key is absent. No other key
      changes, and a new key goes last in dict order. */
  function Cluster<E(!new)>(s: Store<E>, probe: E, dbscan: seq<E> -> seq<int>): (p: Placement<E>)
    requires s.Valid() && IsLabelling(dbscan)
    ensures p.store.Valid() && p.key in p.store.lists && 0 <= p.key
    ensures var labels := Labels(s, probe, dbscan);
      && (labels[|s.Flatten()|] == -1 ==> p.key == NewClusterId(labels) && p.store.lists[p.key] == [probe])
      && (labels[|s.Flatten()|] != -1 ==>
            p.key == labels[|s.Flatten()|] && p.store.lists[p.key] == s.Get(p.key, []) + [probe])
    ensures forall k :: k != p.key ==> (k in p.store.lists <==> k in s.lists)
    ensures forall k :: k != p.key && k in s.lists ==> p.store.lists[k] == s.lists[k]
    ensures p.store.keys == if p.key in s.lists then s.keys else s.keys + [p.key]
  {
    PlaceEffect(s, probe, Labels(s, probe, dbscan));
    Place(s, probe, Labels(s, probe, dbscan))
  }

  /** The message after filing: a new cluster when the probe was noise,
      otherwise the cluster it joined and that cluster's new size. */
  function ClusterReport<E(!new)>(s: Store<E>, probe: E, dbscan: seq<E> -> seq<int>): (r: Report)
    requires s.Valid() && IsLabelling(dbscan)
    ensures r.NewCluster? || r.ClusterUpdated?
    ensures r.id == Cluster(s, probe, dbscan).key
    ensures r.NewCluster? <==> Labels(s, probe, dbscan)[|s.Flatten()|] == -1
    ensures r.ClusterUpdated? ==> r.size == |Cluster(s, probe, dbscan).store.lists[r.id]|
  {
    var labels := Labels(s, probe, dbscan);
    var p := Cluster(s, probe, dbscan);
    if labels[|labels| - 1] == -1 then NewCluster(p.key)
    else ClusterUpdated(p.key, |p.store.lists[p.key]|)
  }

  /** The clustering fallback, step by step: flatten the dict, append the
      probe, run DBSCAN, and file the probe under a new id or its label. */
  method FileUnmatched<E(!new)>(stored: Store<E>, probe: E, dbscan: seq<E> -> seq<int>)
    returns (key: int, clusterData: Store<E>, report: Report)
    requires stored.Valid() && IsLabelling(dbscan)
    ensures Placement(key, clusterData) == Cluster(stored, probe, dbscan)
    ensures report == ClusterReport(stored, probe, dbscan)
  {
    clusterData := stored;
    var labels := dbscan(ClusteringInput(clusterData, probe));
    assert labels == Labels(stored, probe, dbscan);
    key := labels[|labels| - 1];
    if key == -1 {
      key := NewClusterId(labels);
      clusterData := clusterData.Assign(key, [probe]);
      report := NewCluster(key);
    } else {
      clusterData := clusterData.SetDefaultAppend(key, probe);
      report := ClusterUpdated(key, |clusterData.lists[key]|);
    }
  }

  /** The naming prompt appears when the probe's key holds one encoding. */
  predicate Prompted<E>(p: Placement<E>)
  {
    |p.store.Get(p.key, [])| == 1
  }
}
