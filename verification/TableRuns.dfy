/** Whole histories of a hash table: every sequence of calls on a new table. */
module TableRuns {
  import opened TableSizing
  import opened SpacedPrimes
  import opened HashTable

  datatype Call<K, V> = Insert(key: K, value: V) | Remove(key: K) | RemoveAll

  /** What a call does to the map. */
  ghost function MapStep<K, V>(m: map<K, V>, call: Call<K, V>): map<K, V>
  {
    match call
    case Insert(key, value) => if key in m then m else m[key := value]
    case Remove(key) => m - {key}
    case RemoveAll => map[]
  }

  ghost function MapAfter<K, V>(calls: seq<Call<K, V>>): map<K, V>
  {
    if calls == [] then map[] else MapStep(MapAfter(calls[..|calls| - 1]), calls[|calls| - 1])
  }

  /** What a call is for the sizing of the table. */
  ghost function Kind<K, V>(m: map<K, V>, call: Call<K, V>): Op
  {
    match call
    case Insert(key, _) => if key in m then InsertPresent else InsertNew
    case Remove(key) => if key in m then RemoveFound else RemoveMissing
    case RemoveAll => Op.RemoveAll
  }

  ghost function Kinds<K, V>(calls: seq<Call<K, V>>): (ops: seq<Op>)
    ensures |ops| == |calls|
  {
    if calls == [] then [] else
      var before := calls[..|calls| - 1];
      Kinds(before) + [Kind(MapAfter(before), calls[|calls| - 1])]
  }

  /** One call counts alike on the map and on the sizing machine. */
  lemma {:induction false} CountStep<K, V>(m: map<K, V>, t: Tally, call: Call<K, V>)
    requires t.count == |m|
    ensures Step(t, Kind(m, call)).count == |MapStep(m, call)|
  {
    match call
    case Insert(key, value) =>
    case Remove(key) => CountRemoved(m, key);
    case RemoveAll =>
  }

  lemma {:induction false} CountRemoved<K, V>(m: map<K, V>, key: K)
    ensures |m - {key}| == if key in m then |m| - 1 else |m|
  {
    if key in m {
      assert (m - {key}).Keys == m.Keys - {key};
      assert |(m - {key}).Keys| == |m.Keys| - 1;
    } else {
      assert m - {key} == m;
    }
  }

  /** The sizing machine counts the keys of the map. */
  lemma {:induction false} CountIsKeys<K, V>(calls: seq<Call<K, V>>)
    ensures Run(Kinds(calls)).count == |MapAfter(calls)|
  {
    if calls != [] {
      var before := calls[..|calls| - 1];
      CountIsKeys(before);
      assert Kinds(calls)[..|before|] == Kinds(before);
      CountStep(MapAfter(before), Run(Kinds(before)), calls[|calls| - 1]);
    }
  }

  /** The amortised bound in terms of the map: as long as it never holds more than COUNT_LIMIT keys,
      all the resizes of a history together relink at most two nodes for every insert and remove. */
  lemma {:induction false} HistoryCost<K, V>(calls: seq<Call<K, V>>)
    requires forall i :: 0 <= i <= |calls| ==> |MapAfter(calls[..i])| <= COUNT_LIMIT
    ensures Run(Kinds(calls)).relinked <= Fees(Kinds(calls)) <= 2 * |calls|
  {
    HistoryWithin(calls);
    AmortisedCost(Kinds(calls));
    FeesBound(Kinds(calls));
  }

  lemma {:induction false} HistoryWithin<K, V>(calls: seq<Call<K, V>>)
    requires forall i :: 0 <= i <= |calls| ==> |MapAfter(calls[..i])| <= COUNT_LIMIT
    ensures StaysWithin(Kinds(calls), COUNT_LIMIT)
  {
    assert calls[..|calls|] == calls;
    CountIsKeys(calls);
    if calls != [] {
      var before := calls[..|calls| - 1];
      forall i | 0 <= i <= |before|
        ensures |MapAfter(before[..i])| <= COUNT_LIMIT
      {
        assert before[..i] == calls[..i];
      }
      HistoryWithin(before);
      assert Kinds(calls)[..|before|] == Kinds(before);
    }
  }

  method Perform<K(==), V>(table: HashTable.Table<K, V>, call: Call<K, V>)
    requires table.Valid()
    modifies table, table.nodes, table.view.members
    ensures table.Valid() && (table.nodes == old(table.nodes) || fresh(table.nodes))
    ensures forall n :: n in table.view.members ==> n in old(table.view.members) || fresh(n)
    ensures table.Contents() == MapStep(old(table.Contents()), call)
    ensures table.Tally() == Step(old(table.Tally()), Kind(old(table.Contents()), call))
  {
    match call
    case Insert(key, value) => table.Insert(key, value);
    case Remove(key) =>
      var found := table.Remove(key);
      if !found {
        assert table.Contents() == old(table.Contents()) - {key};
      }
    case RemoveAll => table.RemoveAll();
  }

  /** The table is what a history of calls leaves, and has been through the resizes of the sizing machine. */
  ghost predicate Leaves<K, V>(calls: seq<Call<K, V>>, table: HashTable.Table<K, V>)
    reads table, table.nodes, table.view.members
  {
    table.Valid() && table.Contents() == MapAfter(calls) && table.Tally() == Run(Kinds(calls))
  }

  lemma {:induction false} NextCall<K, V>(calls: seq<Call<K, V>>, i: nat)
    requires i < |calls|
    ensures MapAfter(calls[..i + 1]) == MapStep(MapAfter(calls[..i]), calls[i])
    ensures Run(Kinds(calls[..i + 1])) == Step(Run(Kinds(calls[..i])), Kind(MapAfter(calls[..i]), calls[i]))
  {
    assert calls[..i + 1][..i] == calls[..i];
    assert Kinds(calls[..i + 1])[..i] == Kinds(calls[..i]);
  }

  method Continue<K(==), V>(table: HashTable.Table<K, V>, calls: seq<Call<K, V>>, i: nat)
    requires i < |calls| && Leaves(calls[..i], table)
    modifies table, table.nodes, table.view.members
    ensures Leaves(calls[..i + 1], table)
    ensures table.nodes == old(table.nodes) || fresh(table.nodes)
    ensures forall n :: n in table.view.members ==> n in old(table.view.members) || fresh(n)
  {
    Perform(table, calls[i]);
    NextCall(calls, i);
  }

  /** A table after any history of calls: it is the map the history leaves, its size is a spaced
      prime, and it has been through exactly the resizes of the sizing machine. */
  method Replay<K(==), V>(hash: K -> nat, calls: seq<Call<K, V>>) returns (table: HashTable.Table<K, V>)
    ensures table.Valid() && table.Contents() == MapAfter(calls)
    ensures table.Tally() == Run(Kinds(calls)) && table.nodes.Length in SpacedPrimes.Table()
    ensures (forall i :: 0 <= i <= |calls| ==> |MapAfter(calls[..i])| <= COUNT_LIMIT)
            ==> table.relinked <= Fees(Kinds(calls)) <= 2 * |calls|
  {
    table := ReplayAll(hash, calls);
    SizeIsListed(Kinds(calls));
    if forall i :: 0 <= i <= |calls| ==> |MapAfter(calls[..i])| <= COUNT_LIMIT {
      HistoryCost(calls);
    }
  }

  method ReplayAll<K(==), V>(hash: K -> nat, calls: seq<Call<K, V>>) returns (table: HashTable.Table<K, V>)
    ensures Leaves(calls, table)
  {
    table := new HashTable.Table(hash);
    assert calls[..0] == [] && calls[..|calls|] == calls;
    for i := 0 to |calls|
      invariant fresh(table) && fresh(table.nodes) && fresh(table.view.members)
      invariant Leaves(calls[..i], table)
    {
      Continue(table, calls, i);
    }
  }
}
