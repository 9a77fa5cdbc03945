// Nearest-identity decision: compare_faces against a tolerance, `True in
// matches`, and numpy's argmin over the distances.

module Matching {
  import opened Options

  /** numpy argmin: the first index at which the minimum is attained. */
  function FirstArgMin(d: seq<real>): (k: nat)
    requires |d| > 0
    ensures k < |d|
    ensures forall j :: 0 <= j < |d| ==> d[k] <= d[j]
    ensures forall j :: 0 <= j < k ==> d[k] < d[j]
    decreases |d|
  {
    if |d| == 1 then 0
    else
      var k := FirstArgMin(d[1..]);
      if d[0] <= d[k + 1] then 0 else k + 1
  }

  /** compare_faces: one flag per known encoding, distance <= tolerance. */
  function CompareFaces(d: seq<real>, tolerance: real): (matches: seq<bool>)
    ensures |matches| == |d|
    ensures forall i :: 0 <= i < |d| ==> matches[i] == (d[i] <= tolerance)
  {
    seq(|d|, i requires 0 <= i < |d| => d[i] <= tolerance)
  }

  /** `if True in matches: best = argmin(distances)`: a match exactly when
      some distance is within tolerance, and then the first closest entry,
      which is itself within tolerance. An empty gallery never matches. */
  function Decide(d: seq<real>, tolerance: real): (r: Option<nat>)
    ensures r.None? <==> forall i :: 0 <= i < |d| ==> tolerance < d[i]
    ensures r.Some? ==> r.value < |d| && d[r.value] <= tolerance
    ensures r.Some? ==> forall j :: 0 <= j < |d| ==> d[r.value] <= d[j]
    ensures r.Some? ==> forall j :: 0 <= j < r.value ==> d[r.value] < d[j]
  {
    if true in CompareFaces(d, tolerance) then Some(FirstArgMin(d)) else None
  }

  /** face_distance: the distance of every known encoding to the probe. */
  function Distances<E>(encodings: seq<E>, probe: E, dist: (E, E) -> real): (d: seq<real>)
    ensures |d| == |encodings|
    ensures forall i :: 0 <= i < |encodings| ==> d[i] == dist(encodings[i], probe)
  {
    seq(|encodings|, i requires 0 <= i < |encodings| => dist(encodings[i], probe))
  }

  datatype Identification = NoFace | NoMatch | Match(index: nat)

  /** The identification step shared by the three front ends: no usable
      encoding in the upload, no known face within tolerance of its first
      encoding, or the first known face at minimum distance. */
  function Identify<E>(encodings: seq<E>, probes: seq<E>, dist: (E, E) -> real, tolerance: real)
    : (r: Identification)
    ensures r.NoFace? <==> |probes| == 0
    ensures r.Match? <==>
      |probes| > 0 && exists i :: 0 <= i < |encodings| && dist(encodings[i], probes[0]) <= tolerance
    ensures r.Match? ==> r.index < |encodings|
    ensures r.Match? ==> forall j :: 0 <= j < |encodings| ==>
      dist(encodings[r.index], probes[0]) <= dist(encodings[j], probes[0])
    ensures r.Match? ==> forall j :: 0 <= j < r.index ==>
      dist(encodings[r.index], probes[0]) < dist(encodings[j], probes[0])
  {
    if |probes| == 0 then NoFace
    else
      var d := Distances(encodings, probes[0], dist);
      match Decide(d, tolerance)
      case None => NoMatch
      case Some(k) => Match(k)
  }
}
