// The unknown-face cluster store, an insertion-ordered Python dict from
// integer cluster id to a list of encodings, and the step that files a new
// probe into it from the labels DBSCAN returns.

module Clusters {

  predicate Distinct(keys: seq<int>)
  {
    forall i, j :: 0 <= i < j < |keys| ==> keys[i] != keys[j]
  }

  predicate KeysIn<E>(keys: seq<int>, lists: map<int, seq<E>>)
  {
    forall i :: 0 <= i < |keys| ==> keys[i] in lists
  }

  /** The total number of encodings filed under keys. */
  function Sum<E>(keys: seq<int>, lists: map<int, seq<E>>): nat
    requires KeysIn(keys, lists)
    decreases |keys|
  {
    if |keys| == 0 then 0 else |lists[keys[0]]| + Sum(keys[1..], lists)
  }

  /** The lists under keys, concatenated in key order. */
  function Concat<E>(keys: seq<int>, lists: map<int, seq<E>>): (xs: seq<E>)
    requires KeysIn(keys, lists)
    ensures |xs| == Sum(keys, lists)
    decreases |keys|
  {
    if |keys| == 0 then [] else lists[keys[0]] + Concat(keys[1..], lists)
  }

  /** keys with k taken out, the others in their order. */
  function Without(keys: seq<int>, k: int): (r: seq<int>)
    ensures forall x :: x in r <==> x in keys && x != k
    ensures forall i :: 0 <= i < |r| ==> r[i] in keys && r[i] != k
    decreases |keys|
  {
    if |keys| == 0 then []
    else (if keys[0] == k then [] else [keys[0]]) + Without(keys[1..], k)
  }

  lemma {:induction false} WithoutDistinct(keys: seq<int>, k: int)
    requires Distinct(keys)
    ensures Distinct(Without(keys, k))
    decreases |keys|
  {
    if |keys| > 0 {
      WithoutDistinct(keys[1..], k);
      assert keys[0] !in keys[1..];
      assert keys[0] !in Without(keys[1..], k);
    }
  }

  /** cluster_data: the keys in insertion order and the list under each. */
  datatype Store<E> = Store(keys: seq<int>, lists: map<int, seq<E>>) {

    /** A dict: every key once, and the key order lists exactly the keys. */
    ghost predicate Valid()
    {
      && Distinct(keys)
      && (forall k :: k in lists <==> k in keys)
      && KeysIn(keys, lists)
    }

    /** cluster_data.get(k, default) */
    function Get(k: int, default: seq<E>): seq<E>
    {
      if k in lists then lists[k] else default
    }

    /** [enc for encs in cluster_data.values() for enc in encs] */
    function Flatten(): (xs: seq<E>)
      requires Valid()
      ensures |xs| == Sum(keys, lists)
    {
      Concat(keys, lists)
    }

    /** cluster_data[k] = v: an existing key keeps its place in the order,
        a new key goes last. */
    function Assign(k: int, v: seq<E>): (r: Store<E>)
      requires Valid()
      ensures r.Valid()
    {
      Store(if k in lists then keys else keys + [k], lists[k := v])
    }

    /** cluster_data.setdefault(k, []).append(x) */
    function SetDefaultAppend(k: int, x: E): (r: Store<E>)
      requires Valid()
      ensures r.Valid()
    {
      Assign(k, Get(k, []) + [x])
    }

    /** cluster_data.pop(k) */
    function Pop(k: int): (r: Store<E>)
      requires Valid() && k in lists
      ensures r.Valid()
      ensures k !in r.lists && r.lists == lists - {k}
      ensures r.keys == Without(keys, k)
    {
      WithoutDistinct(keys, k);
      Store(Without(keys, k), lists - {k})
    }
  }

  function Empty<E>(): (s: Store<E>)
    ensures s.Valid() && s.Flatten() == []
  {
    Store([], map[])
  }

  /** Every stored cluster holds at least one encoding. */
  predicate NonEmptyClusters<E>(s: Store<E>)
  {
    forall k :: k in s.lists ==> |s.lists[k]| > 0
  }

  lemma {:induction false} ConcatAppend<E>(keys: seq<int>, k: int, lists: map<int, seq<E>>)
    requires KeysIn(keys, lists)
    requires k in lists
    ensures Concat(keys + [k], lists) == Concat(keys, lists) + lists[k]
    decreases |keys|
  {
    if |keys| == 0 {
      assert ([] + [k])[1..] == [];
    } else {
      assert (keys + [k])[1..] == keys[1..] + [k];
      ConcatAppend(keys[1..], k, lists);
    }
  }

  lemma {:induction false} ConcatIgnoresUpdate<E>(keys: seq<int>, lists: map<int, seq<E>>, k: int, v: seq<E>)
    requires KeysIn(keys, lists)
    requires k !in keys
    ensures Concat(keys, lists[k := v]) == Concat(keys, lists)
    decreases |keys|
  {
    if |keys| > 0 {
      ConcatIgnoresUpdate(keys[1..], lists, k, v);
    }
  }

  lemma {:induction false} ConcatIgnoresRemoval<E>(keys: seq<int>, lists: map<int, seq<E>>, k: int)
    requires KeysIn(keys, lists)
    requires k !in keys
    ensures Concat(keys, lists - {k}) == Concat(keys, lists)
    decreases |keys|
  {
    if |keys| > 0 {
      ConcatIgnoresRemoval(keys[1..], lists, k);
    }
  }

  lemma {:induction false} WithoutAbsent(keys: seq<int>, k: int)
    requires k !in keys
    ensures Without(keys, k) == keys
    decreases |keys|
  {
    if |keys| > 0 {
      WithoutAbsent(keys[1..], k);
    }
  }

  lemma {:induction false} ConcatReplaceLength<E>(keys: seq<int>, lists: map<int, seq<E>>, k: int, v: seq<E>)
    requires Distinct(keys) && KeysIn(keys, lists)
    requires k in keys
    ensures |Concat(keys, lists[k := v])| == |Concat(keys, lists)| - |lists[k]| + |v|
    decreases |keys|
  {
    if keys[0] == k {
      assert k !in keys[1..];
      ConcatIgnoresUpdate(keys[1..], lists, k, v);
    } else {
      ConcatReplaceLength(keys[1..], lists, k, v);
    }
  }

  lemma {:induction false} ConcatWithoutLength<E>(keys: seq<int>, lists: map<int, seq<E>>, k: int)
    requires Distinct(keys) && KeysIn(keys, lists)
    requires k in keys
    ensures |Concat(Without(keys, k), lists - {k})| == |Concat(keys, lists)| - |lists[k]|
    decreases |keys|
  {
    if keys[0] == k {
      assert k !in keys[1..];
      WithoutAbsent(keys[1..], k);
      assert Without(keys, k) == keys[1..];
      ConcatIgnoresRemoval(keys[1..], lists, k);
    } else {
      ConcatWithoutLength(keys[1..], lists, k);
      assert Without(keys, k) == [keys[0]] + Without(keys[1..], k);
      assert ([keys[0]] + Without(keys[1..], k))[1..] == Without(keys[1..], k);
    }
  }

  /** Assigning v under k changes the number of stored encodings by the
      size of v less the size of the list it replaces. */
  lemma AssignLength<E>(s: Store<E>, k: int, v: seq<E>)
    requires s.Valid()
    ensures |s.Assign(k, v).Flatten()| == |s.Flatten()| - |s.Get(k, [])| + |v|
  {
    if k in s.lists {
      ConcatReplaceLength(s.keys, s.lists, k, v);
    } else {
      ConcatIgnoresUpdate(s.keys, s.lists, k, v);
      ConcatAppend(s.keys, k, s.lists[k := v]);
    }
  }

  /** Popping a key removes exactly the encodings filed under it. */
  lemma PopLength<E>(s: Store<E>, k: int)
    requires s.Valid() && k in s.lists
    ensures |s.Pop(k).Flatten()| == |s.Flatten()| - |s.lists[k]|
  {
    ConcatWithoutLength(s.keys, s.lists, k);
  }

  lemma {:induction false} ConcatSplit<E>(keys: seq<int>, lists: map<int, seq<E>>, i: nat)
    requires KeysIn(keys, lists)
    requires i < |keys|
    ensures Concat(keys, lists) == Concat(keys[..i], lists) + lists[keys[i]] + Concat(keys[i + 1..], lists)
    decreases i
  {
    if i == 0 {
      assert keys[..0] == [];
    } else {
      ConcatSplit(keys[1..], lists, i - 1);
      assert keys[..i][0] == keys[0];
      assert keys[..i][1..] == keys[1..][..i - 1];
      assert keys[1..][i..] == keys[i + 1..];
    }
  }

  /** The points handed to DBSCAN: the stored encodings, the probe last. */
  function ClusteringInput<E>(s: Store<E>, probe: E): seq<E>
    requires s.Valid()
  {
    s.Flatten() + [probe]
  }

  /** The flattened store is the lists in dict order: the i-th key's list
      sits between the encodings of the keys before it and those after. */
  lemma FlattenLayout<E>(s: Store<E>)
    requires s.Valid()
    ensures forall i :: 0 <= i < |s.keys| ==>
      s.Flatten() == Concat(s.keys[..i], s.lists) + s.lists[s.keys[i]] + Concat(s.keys[i + 1..], s.lists)
  {
    forall i | 0 <= i < |s.keys|
      ensures s.Flatten() == Concat(s.keys[..i], s.lists) + s.lists[s.keys[i]] + Concat(s.keys[i + 1..], s.lists)
    {
      ConcatSplit(s.keys, s.lists, i);
    }
  }

  /** The clustering input holds one point per stored encoding plus the
      probe: the flattened store first, the probe last. */
  lemma ClusteringInputLayout<E>(s: Store<E>, probe: E)
    requires s.Valid()
    ensures |ClusteringInput(s, probe)| == Sum(s.keys, s.lists) + 1
    ensures ClusteringInput(s, probe)[Sum(s.keys, s.lists)] == probe
    ensures ClusteringInput(s, probe)[..Sum(s.keys, s.lists)] == s.Flatten()
  {
    assert ClusteringInput(s, probe) == s.Flatten() + [probe];
  }

  /** What DBSCAN's labels_ promise: one label per point, each a cluster
      number or -1 for noise. */
  ghost predicate IsLabelling<E(!new)>(dbscan: seq<E> -> seq<int>)
  {
    forall xs: seq<E> :: |dbscan(xs)| == |xs| && forall i :: 0 <= i < |xs| ==> -1 <= dbscan(xs)[i]
  }

  /** max(xs, default=default) */
  function MaxOr(xs: seq<int>, default: int): (m: int)
    ensures |xs| == 0 ==> m == default
    ensures |xs| > 0 ==> m in xs && forall i :: 0 <= i < |xs| ==> xs[i] <= m
    decreases |xs|
  {
    if |xs| == 0 then default
    else if |xs| == 1 then xs[0]
    else
      var m := MaxOr(xs[1..], default);
      if xs[0] >= m then xs[0] else m
  }

  /** max(labels[:-1], default=-1) + 1: one more than the largest label of a
      stored point, and 0 when every stored point is noise or none exists. */
  function NewClusterId(labels: seq<int>): (id: int)
    requires |labels| > 0
    requires forall i :: 0 <= i < |labels| ==> -1 <= labels[i]
    ensures 0 <= id
    ensures forall i :: 0 <= i < |labels| - 1 ==> labels[i] < id
    ensures id == 0 || exists i :: 0 <= i < |labels| - 1 && labels[i] == id - 1
  {
    var stored := labels[..|labels| - 1];
    assert forall i :: 0 <= i < |stored| ==> stored[i] == labels[i];
    MaxOr(stored, -1) + 1
  }

  datatype Placement<E> = Placement(key: int, store: Store<E>)

  /** Filing the probe under the label DBSCAN gave it (the last label). */
  function Place<E>(s: Store<E>, probe: E, labels: seq<int>): (p: Placement<E>)
    requires s.Valid()
    requires |labels| > 0
    requires forall i :: 0 <= i < |labels| ==> -1 <= labels[i]
    ensures p.store.Valid() && p.key in p.store.lists
  {
    var last := labels[|labels| - 1];
    if last == -1 then
      var id := NewClusterId(labels);
      Placement(id, s.Assign(id, [probe]))
    else
      Placement(last, s.SetDefaultAppend(last, probe))
  }

  /** Noise starts a cluster under NewClusterId, replacing whatever list
      that key held; any other label is used directly as the key and the
      probe is appended to its list, which is created empty when the key is
      absent. No other key changes, and a new key goes last in dict order. */
  lemma PlaceEffect<E>(s: Store<E>, probe: E, labels: seq<int>)
    requires s.Valid()
    requires |labels| > 0
    requires forall i :: 0 <= i < |labels| ==> -1 <= labels[i]
    ensures var p := Place(s, probe, labels);
      && 0 <= p.key
      && (labels[|labels| - 1] == -1 ==>
            p.key == NewClusterId(labels) && p.store.lists[p.key] == [probe])
      && (labels[|labels| - 1] != -1 ==>
            p.key == labels[|labels| - 1] && p.store.lists[p.key] == s.Get(p.key, []) + [probe])
      && (forall k :: k != p.key ==> (k in p.store.lists <==> k in s.lists))
      && (forall k :: k != p.key && k in s.lists ==> p.store.lists[k] == s.lists[k])
      && p.store.keys == if p.key in s.lists then s.keys else s.keys + [p.key]
  {
  }

  /** Joining a cluster adds exactly the probe; starting one after noise
      also discards whatever list the new id already held. */
  lemma PlaceSize<E>(s: Store<E>, probe: E, labels: seq<int>)
    requires s.Valid()
    requires |labels| > 0
    requires forall i :: 0 <= i < |labels| ==> -1 <= labels[i]
    ensures var p := Place(s, probe, labels);
      |p.store.Flatten()| ==
        |s.Flatten()| + 1 - (if labels[|labels| - 1] == -1 then |s.Get(p.key, [])| else 0)
  {
    var p := Place(s, probe, labels);
    if labels[|labels| - 1] == -1 {
      AssignLength(s, p.key, [probe]);
    } else {
      AssignLength(s, p.key, s.Get(p.key, []) + [probe]);
    }
  }

  /** Noise can overwrite a live cluster: with {0: [a, b], 1: [c]} stored and
      DBSCAN labelling c and the probe d as noise, the new id is 1, so c is
      replaced by d and the store does not grow. */
  lemma NoiseCanOverwriteCluster<E>(a: E, b: E, c: E, d: E)
    ensures var s := Store([0, 1], map[0 := [a, b], 1 := [c]]);
      && s.Valid()
      && var p := Place(s, d, [0, 0, -1, -1]);
      && p.key == 1 && p.key in s.lists
      && p.store.lists == map[0 := [a, b], 1 := [d]]
      && |p.store.Flatten()| == |s.Flatten()| == 3
  {
    var s := Store([0, 1], map[0 := [a, b], 1 := [c]]);
    PlaceSize(s, d, [0, 0, -1, -1]);
  }

  /** The probe ends up alone in its list, which is when a name is asked
      for, exactly when DBSCAN called it noise or gave it a label that is not
      yet a key; joining a stored cluster never prompts. */
  lemma SingletonIffFreshKey<E>(s: Store<E>, probe: E, labels: seq<int>)
    requires s.Valid() && NonEmptyClusters(s)
    requires |labels| > 0
    requires forall i :: 0 <= i < |labels| ==> -1 <= labels[i]
    ensures var p := Place(s, probe, labels);
      |p.store.lists[p.key]| == 1 <==>
        labels[|labels| - 1] == -1 || labels[|labels| - 1] !in s.lists
    ensures NonEmptyClusters(Place(s, probe, labels).store)
  {
    var p := Place(s, probe, labels);
    PlaceEffect(s, probe, labels);
    var last := labels[|labels| - 1];
    if last != -1 && last in s.lists {
      assert |s.lists[last]| > 0;
      assert |p.store.lists[p.key]| == |s.lists[last]| + 1;
    }
  }
}
