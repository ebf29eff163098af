/** The part of the graph store the import relies on: nodes found by a key
    property with `MERGE`, whose properties are replaced on creation
    (`ON CREATE SET n = $map`) and extended on a later match
    (`ON MATCH SET n += $map`). A property set to `null` is not stored, and
    `+=` with `null` removes it. */
module Graph {
  import opened Wrappers
  import opened JsonValue

  /** `SET n = $given` on a fresh node. */
  function Assign(given: Object): (r: Object)
    ensures forall k :: k in r <==> k in given && given[k] != JNull
    ensures forall k :: k in r ==> r[k] == given[k]
  {
    map k | k in given && given[k] != JNull :: given[k]
  }

  /** `SET n += $given`: the given properties take their new values (or are
      removed when the new value is `null`); all others are kept. */
  function Extend(stored: Object, given: Object): (r: Object)
    ensures forall k :: k in given ==> (k in r <==> given[k] != JNull)
    ensures forall k :: k !in given ==> (k in r <==> k in stored)
    ensures forall k :: k in r ==> r[k] == if k in given then given[k] else stored[k]
  {
    map k | k in (stored.Keys - given.Keys) + given.Keys && (k in given ==> given[k] != JNull) ::
      if k in given then given[k] else stored[k]
  }

  /** Creating a node is extending an empty one. */
  lemma AssignIsExtendEmpty(given: Object)
    ensures Assign(given) == Extend(map[], given)
  {
  }

  /** Extending twice with the same map is extending once. */
  lemma ExtendIdempotent(stored: Object, given: Object)
    ensures Extend(Extend(stored, given), given) == Extend(stored, given)
  {
  }

  /** Nodes of one label, by the value of their key property. */
  type Store = map<Json, Object>

  /** `MERGE (n {key: $key}) ON CREATE SET n = $given ON MATCH SET n += $given`. */
  function Merge(store: Store, key: Json, given: Object): (r: Store)
    ensures r.Keys == store.Keys + {key}
    ensures forall k :: k in store && k != key ==> r[k] == store[k]
  {
    if key in store then store[key := Extend(store[key], given)] else store[key := Assign(given)]
  }

  /** On first sight the node holds exactly the given non-null properties. */
  lemma MergeFirstSight(store: Store, key: Json, given: Object)
    requires key !in store
    requires forall k :: k in given ==> given[k] != JNull
    ensures Merge(store, key, given)[key] == given
  {
  }

  /** On a later sight the given keys take the new values and every other
      stored property is kept. */
  lemma MergeAgain(store: Store, key: Json, given: Object)
    requires key in store
    requires forall k :: k in given ==> given[k] != JNull
    ensures Merge(store, key, given)[key] == store[key] + given
  {
  }

  /** A sequence of merges, in order. */
  function MergeAll(store: Store, sightings: seq<(Json, Object)>): Store
    decreases |sightings|
  {
    if sightings == [] then store
    else
      var n := |sightings| - 1;
      Merge(MergeAll(store, sightings[..n]), sightings[n].0, sightings[n].1)
  }

  /** A run of merges keeps every stored node and adds every sighted one. */
  lemma {:induction false} MergeAllGrows(store: Store, sightings: seq<(Json, Object)>)
    ensures store.Keys <= MergeAll(store, sightings).Keys
    ensures forall i :: 0 <= i < |sightings| ==> sightings[i].0 in MergeAll(store, sightings)
    decreases |sightings|
  {
    if sightings != [] {
      var n := |sightings| - 1;
      var prefix := sightings[..n];
      MergeAllGrows(store, prefix);
      assert forall i :: 0 <= i < n ==> prefix[i] == sightings[i];
    }
  }

  /** A run of merges adds no node that was not sighted. */
  lemma {:induction false} MergeAllOnlySighted(store: Store, sightings: seq<(Json, Object)>, key: Json)
    requires key in MergeAll(store, sightings) && key !in store
    ensures exists i :: 0 <= i < |sightings| && sightings[i].0 == key
    decreases |sightings|
  {
    var n := |sightings| - 1;
    var prefix := sightings[..n];
    if sightings[n].0 != key {
      MergeAllOnlySighted(store, prefix, key);
      var i :| 0 <= i < n && prefix[i].0 == key;
      assert sightings[i] == prefix[i];
    }
  }

  /** Extending with a map that mentions every stored property is assigning it. */
  lemma ExtendCovering(stored: Object, given: Object)
    requires stored.Keys <= given.Keys
    ensures Extend(stored, given) == Assign(given)
  {
  }

  /** Every node holds only properties among `keys`. */
  predicate Within(store: Store, keys: set<string>) {
    forall k :: k in store ==> store[k].Keys <= keys
  }

  /** Merging maps whose keys lie among `keys` keeps every node within them. */
  lemma {:induction false} MergeAllWithin(store: Store, sightings: seq<(Json, Object)>, keys: set<string>)
    requires Within(store, keys)
    requires forall i :: 0 <= i < |sightings| ==> sightings[i].1.Keys <= keys
    ensures Within(MergeAll(store, sightings), keys)
    decreases |sightings|
  {
    if sightings != [] {
      var n := |sightings| - 1;
      var prefix := sightings[..n];
      assert forall i :: 0 <= i < n ==> prefix[i] == sightings[i];
      MergeAllWithin(store, prefix, keys);
    }
  }

  /** When every sighting gives the same full set of keys (as the commit and
      contributor maps do), a node ends up holding exactly the non-null values
      of its last sighting, whatever was stored or sighted before. */
  lemma {:induction false} MergeAllLastSighting(store: Store, sightings: seq<(Json, Object)>, keys: set<string>, i: int)
    requires Within(store, keys)
    requires forall j :: 0 <= j < |sightings| ==> sightings[j].1.Keys == keys
    requires 0 <= i < |sightings|
    requires forall j :: i < j < |sightings| ==> sightings[j].0 != sightings[i].0
    ensures sightings[i].0 in MergeAll(store, sightings)
    ensures MergeAll(store, sightings)[sightings[i].0] == Assign(sightings[i].1)
    decreases |sightings|
  {
    var n := |sightings| - 1;
    var prefix := sightings[..n];
    assert forall j :: 0 <= j < n ==> prefix[j] == sightings[j];
    if i == n {
      var (key, given) := sightings[n];
      var prev := MergeAll(store, prefix);
      MergeAllWithin(store, prefix, keys);
      if key in prev {
        ExtendCovering(prev[key], given);
      }
    } else {
      MergeAllLastSighting(store, prefix, keys, i);
    }
  }

  /** The value the last sighting of `key` that mentions `p` gave it. */
  function LastMention(sightings: seq<(Json, Object)>, key: Json, p: string): (r: Option<Json>)
    decreases |sightings|
  {
    if sightings == [] then None
    else
      var (k, given) := sightings[|sightings| - 1];
      if k == key && p in given then Some(given[p])
      else LastMention(sightings[..|sightings| - 1], key, p)
  }

  /** After a run of merges, a property of a node holds the value of the
      last sighting of the node that mentioned it, unless that value was
      `null`; a property no sighting mentioned keeps its earlier value. */
  lemma {:induction false} MergeAllLastMention(store: Store, sightings: seq<(Json, Object)>, key: Json, p: string)
    requires key in MergeAll(store, sightings)
    ensures var node := MergeAll(store, sightings)[key];
            match LastMention(sightings, key, p)
            case Some(v) => (p in node <==> v != JNull) && (p in node ==> node[p] == v)
            case None => (p in node <==> key in store && p in store[key]) && (p in node ==> node[p] == store[key][p])
    decreases |sightings|
  {
    if sightings != [] {
      var n := |sightings| - 1;
      var prefix := sightings[..n];
      var (k, given) := sightings[n];
      if k != key {
        MergeAllLastMention(store, prefix, key, p);
      } else if p !in given {
        if key in MergeAll(store, prefix) {
          MergeAllLastMention(store, prefix, key, p);
        } else {
          NoSightingNoMention(store, prefix, key, p);
        }
      }
    }
  }

  /** A key that is not in the store after some merges was never sighted. */
  lemma {:induction false} NoSightingNoMention(store: Store, sightings: seq<(Json, Object)>, key: Json, p: string)
    requires key !in MergeAll(store, sightings)
    ensures LastMention(sightings, key, p).None? && key !in store
    decreases |sightings|
  {
    if sightings != [] {
      var n := |sightings| - 1;
      NoSightingNoMention(store, sightings[..n], key, p);
    }
  }
}
