/** Transient state: values read or written while a transaction or a batch runs, in the order in
    which contracts and keys were first touched.
 */
module TransientState {
  import opened Digests
  import opened StateHistory
  import opened StateStorage

  datatype KeyValuePair = KeyValuePair(value: Value, isDirty: bool)

  datatype ContractState = ContractState(pairs: map<string, KeyValuePair>, keySortOrder: seq<string>)

  /** The contents of a transient state as a value. */
  datatype Contents = Contents(contracts: map<string, ContractState>, order: seq<string>)

  const NOTHING: Contents := Contents(map[], [])

  ghost predicate Lists(order: seq<string>, keys: set<string>)
  {
    && (forall i, j :: 0 <= i < j < |order| ==> order[i] != order[j])
    && (forall k :: k in order <==> k in keys)
  }

  /** The orders list every contract and every key once. */
  ghost predicate WellFormed(t: Contents)
  {
    && Lists(t.order, t.contracts.Keys)
    && forall c :: c in t.contracts ==> Lists(t.contracts[c].keySortOrder, t.contracts[c].pairs.Keys)
  }

  function Find(t: Contents, r: Record): Option<KeyValuePair>
  {
    if r.contract in t.contracts && r.key in t.contracts[r.contract].pairs
    then Some(t.contracts[r.contract].pairs[r.key]) else None
  }

  lemma NothingFound(r: Record)
    ensures Find(NOTHING, r) == None
  {
  }

  function SetPair(c: ContractState, key: string, pair: KeyValuePair): ContractState
  {
    ContractState(c.pairs[key := pair], if key in c.pairs then c.keySortOrder else c.keySortOrder + [key])
  }

  function SetIn(t: Contents, r: Record, pair: KeyValuePair): Contents
  {
    var c := if r.contract in t.contracts then t.contracts[r.contract] else ContractState(map[], []);
    Contents(t.contracts[r.contract := SetPair(c, r.key, pair)],
             if r.contract in t.contracts then t.order else t.order + [r.contract])
  }

  lemma ListsSnoc(order: seq<string>, keys: set<string>, k: string)
    requires Lists(order, keys) && k !in keys
    ensures Lists(order + [k], keys + {k})
  {
  }

  lemma SetPairListed(c: ContractState, key: string, pair: KeyValuePair)
    requires Lists(c.keySortOrder, c.pairs.Keys)
    ensures Lists(SetPair(c, key, pair).keySortOrder, SetPair(c, key, pair).pairs.Keys)
  {
    if key in c.pairs {
      assert c.pairs[key := pair].Keys == c.pairs.Keys;
    } else {
      ListsSnoc(c.keySortOrder, c.pairs.Keys, key);
      assert c.pairs[key := pair].Keys == c.pairs.Keys + {key};
    }
  }

  /** Setting a pair changes that record alone and keeps every contract and key listed once. */
  lemma {:induction false} SetInEffect(t: Contents, r: Record, pair: KeyValuePair)
    requires WellFormed(t)
    ensures WellFormed(SetIn(t, r, pair))
    ensures forall q :: Find(SetIn(t, r, pair), q) == if q == r then Some(pair) else Find(t, q)
  {
    var c := if r.contract in t.contracts then t.contracts[r.contract] else ContractState(map[], []);
    SetPairListed(c, r.key, pair);
    if r.contract in t.contracts {
      assert SetIn(t, r, pair).contracts.Keys == t.contracts.Keys;
    } else {
      ListsSnoc(t.order, t.contracts.Keys, r.contract);
      assert SetIn(t, r, pair).contracts.Keys == t.contracts.Keys + {r.contract};
    }
  }

  /** What is listed stays listed, in order; a new contract comes last, and a new key last in its contract. */
  lemma SetInOrders(t: Contents, r: Record, pair: KeyValuePair)
    ensures t.order <= SetIn(t, r, pair).order && |SetIn(t, r, pair).order| <= |t.order| + 1
    ensures r.contract in t.contracts ==>
              var before, after := t.contracts[r.contract].keySortOrder, SetIn(t, r, pair).contracts[r.contract].keySortOrder;
              before <= after && |after| <= |before| + 1
  {
  }

  /** The keys are in the order of the list, wherever they are in it. */
  ghost predicate InOrder(keys: seq<string>, order: seq<string>)
  {
    forall i, j, a, b |
      0 <= i < j < |keys| && 0 <= a < |order| && 0 <= b < |order| && keys[i] == order[a] && keys[j] == order[b] :: a < b
  }

  // ----- dirty pairs -----

  function KeysOf(records: seq<StateRecord>): (r: seq<string>)
    ensures |r| == |records| && forall i | 0 <= i < |r| :: r[i] == records[i].key
  {
    seq(|records|, i requires 0 <= i < |records| => records[i].key)
  }

  /** Dirty pairs come in the order of their keys. */
  lemma {:induction false} DirtyOfOrdered(c: ContractState, order: seq<string>)
    requires forall i, j :: 0 <= i < j < |order| ==> order[i] != order[j]
    ensures InOrder(KeysOf(DirtyOf(c, order)), order)
  {
    if order != [] {
      var n := |order| - 1;
      DirtyOfOrdered(c, order[..n]);
      DirtyOfMembers(c, order[..n]);
      var front, all := DirtyOf(c, order[..n]), DirtyOf(c, order);
      forall i, j, a, b |
        0 <= i < j < |all| && 0 <= a < |order| && 0 <= b < |order| && all[i].key == order[a] && all[j].key == order[b]
        ensures a < b
      {
        assert all[i] in front && all[i].key in order[..n];
        if j < |front| {
          assert all[j] in front && all[j].key in order[..n];
          assert KeysOf(front)[i] == order[..n][a] && KeysOf(front)[j] == order[..n][b];
        }
      }
    }
  }

  /** The dirty pairs of a contract in key order. */
  function DirtyOf(c: ContractState, order: seq<string>): seq<StateRecord>
  {
    if order == [] then []
    else
      var k := order[|order| - 1];
      DirtyOf(c, order[..|order| - 1]) +
      if k in c.pairs && c.pairs[k].isDirty then [StateRecord(k, c.pairs[k].value)] else []
  }

  predicate DirtyIn(t: Contents, r: Record)
  {
    var p := Find(t, r);
    p.Some? && p.value.isDirty
  }

  lemma {:induction false} DirtyOfMembers(c: ContractState, order: seq<string>)
    requires forall i, j :: 0 <= i < j < |order| ==> order[i] != order[j]
    ensures forall x :: x in DirtyOf(c, order) <==>
                        x.key in order && x.key in c.pairs && c.pairs[x.key] == KeyValuePair(x.value, true)
    ensures forall i, j :: 0 <= i < j < |DirtyOf(c, order)| ==> DirtyOf(c, order)[i].key != DirtyOf(c, order)[j].key
  {
    if order != [] {
      DirtyOfMembers(c, order[..|order| - 1]);
    }
  }

  /** The records are exactly the dirty pairs, in the order of their keys. */
  ghost predicate AreDirty(records: seq<StateRecord>, c: ContractState)
  {
    && (forall x :: x in records <==> x.key in c.pairs && c.pairs[x.key] == KeyValuePair(x.value, true))
    && InOrder(KeysOf(records), c.keySortOrder)
  }

  lemma DirtyOfExact(c: ContractState)
    requires Lists(c.keySortOrder, c.pairs.Keys)
    ensures AreDirty(DirtyOf(c, c.keySortOrder), c)
  {
    hide InOrder;
    DirtyOfMembers(c, c.keySortOrder);
    DirtyOfOrdered(c, c.keySortOrder);
  }

  class TransientState {
    var contracts: map<string, ContractState>
    var contractSortOrder: seq<string>

    ghost function Now(): Contents reads this { Contents(contracts, contractSortOrder) }

    constructor ()
      ensures Now() == NOTHING
    {
      contracts, contractSortOrder := map[], [];
    }

    method GetValue(r: Record) returns (value: Value, found: bool)
      ensures found <==> Find(Now(), r).Some?
      ensures value == if found then Find(Now(), r).value.value else ZERO
    {
      if r.contract !in contracts {
        return ZERO, false;
      }
      var c := contracts[r.contract];
      if r.key in c.pairs {
        return c.pairs[r.key].value, true;
      } else {
        return ZERO, false;
      }
    }

    method SetValue(r: Record, value: Value, isDirty: bool)
      requires WellFormed(Now())
      modifies this
      ensures Now() == SetIn(old(Now()), r, KeyValuePair(value, isDirty)) && WellFormed(Now())
    {
      SetInEffect(Now(), r, KeyValuePair(value, isDirty));
      if r.contract !in contracts {
        contracts := contracts[r.contract := ContractState(map[], [])];
        contractSortOrder := contractSortOrder + [r.contract];
      }
      var c := contracts[r.contract];
      if r.key in c.pairs {
        contracts := contracts[r.contract := c.(pairs := c.pairs[r.key := KeyValuePair(value, isDirty)])];
      } else {
        contracts := contracts[r.contract :=
          ContractState(c.pairs[r.key := KeyValuePair(value, isDirty)], c.keySortOrder + [r.key])];
      }
    }

    /** The dirty pairs of a contract, in the order the source calls back for them. */
    method ForDirty(contract: string) returns (records: seq<StateRecord>)
      requires WellFormed(Now())
      ensures records == if contract in contracts then DirtyOf(contracts[contract], contracts[contract].keySortOrder) else []
      ensures contract in contracts ==> AreDirty(records, contracts[contract])
    {
      hide AreDirty;
      if contract in contracts { DirtyOfExact(contracts[contract]); }
      records := [];
      if contract in contracts {
        var c := contracts[contract];
        for i := 0 to |c.keySortOrder|
          invariant records == DirtyOf(c, c.keySortOrder[..i])
        {
          assert c.keySortOrder[..i + 1][..i] == c.keySortOrder[..i];
          var k := c.keySortOrder[i];
          assert k in c.pairs;
          if c.pairs[k].isDirty {
            records := records + [StateRecord(k, c.pairs[k].value)];
          }
        }
        assert c.keySortOrder[..|c.keySortOrder|] == c.keySortOrder;
      }
    }

    /** Puts every dirty pair of this state into the master, as dirty; the rest of the master stays. */
    method MergeIntoTransientState(master: TransientState)
      requires WellFormed(Now()) && WellFormed(master.Now()) && master != this
      modifies master
      ensures WellFormed(master.Now())
      ensures forall q :: Find(master.Now(), q) ==
                          if DirtyIn(Now(), q) then Find(Now(), q) else old(Find(master.Now(), q))
    {
      hide AreDirty;
      ghost var t := Now();
      for i := 0 to |contractSortOrder|
        invariant Now() == t && WellFormed(master.Now())
        invariant forall q ::
          Find(master.Now(), q) ==
          if DirtyIn(t, q) && q.contract in contractSortOrder[..i] then Find(t, q) else old(Find(master.Now(), q))
      {
        var name := contractSortOrder[i];
        assert name in contracts && name !in contractSortOrder[..i];
        assert contractSortOrder[..i + 1] == contractSortOrder[..i] + [name];
        var records := ForDirty(name);
        ghost var c := contracts[name];
        DirtyOfMembers(c, c.keySortOrder);
        SetAll(master, name, records);
        forall q
          ensures Find(master.Now(), q) ==
            if DirtyIn(t, q) && q.contract in contractSortOrder[..i + 1] then Find(t, q) else old(Find(master.Now(), q))
        {
          if q.contract == name && DirtyIn(t, q) {
            assert StateRecord(q.key, Find(t, q).value.value) in records;
          }
        }
      }
    }
  }

  /** The calls of the merge for one contract. */
  method SetAll(master: TransientState, name: string, records: seq<StateRecord>)
    requires WellFormed(master.Now())
    requires forall i, j :: 0 <= i < j < |records| ==> records[i].key != records[j].key
    modifies master
    ensures WellFormed(master.Now())
    ensures forall x :: x in records ==> Find(master.Now(), Record(name, x.key)) == Some(KeyValuePair(x.value, true))
    ensures forall q: Record :: (q.contract != name || forall x :: x in records ==> x.key != q.key) ==>
                        Find(master.Now(), q) == old(Find(master.Now(), q))
  {
    for i := 0 to |records|
      invariant WellFormed(master.Now())
      invariant forall x :: x in records[..i] ==> Find(master.Now(), Record(name, x.key)) == Some(KeyValuePair(x.value, true))
      invariant forall q: Record :: (q.contract != name || forall x :: x in records[..i] ==> x.key != q.key) ==>
          Find(master.Now(), q) == old(Find(master.Now(), q))
    {
      assert records[..i + 1] == records[..i] + [records[i]];
      SetInEffect(master.Now(), Record(name, records[i].key), KeyValuePair(records[i].value, true));
      master.SetValue(Record(name, records[i].key), records[i].value, true);
    }
    assert records[..|records|] == records;
  }
}
