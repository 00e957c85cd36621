/** The state storage service over rolling revisions: commits in height order, reads within the
    window of recent heights.
 */
module StateStorage {
  import opened Digests
  import opened TrieHash
  import opened StateHistory
  import H = TrieHeap
  import F = Forest
  import R = RollingRevisions

  datatype StateRecord = StateRecord(key: string, value: Value)

  datatype ContractStateDiff = ContractStateDiff(contract: string, records: seq<StateRecord>)

  datatype ReadOutcome = Values(values: seq<Value>) | Refused

  function WithRecords(state: ChainState, contract: string, records: seq<StateRecord>): ChainState
  {
    if records == [] then state
    else
      var last := records[|records| - 1];
      WithRecords(state, contract, records[..|records| - 1])[Record(contract, last.key) := last.value]
  }

  /** The diff a list of contract diffs stands for; a later record replaces an earlier one. */
  function Inflated(csd: seq<ContractStateDiff>): ChainState
  {
    if csd == [] then map[]
    else
      var last := csd[|csd| - 1];
      WithRecords(Inflated(csd[..|csd| - 1]), last.contract, last.records)
  }

  /** The record j of the contract diff i is for q. */
  predicate ListedAt(csd: seq<ContractStateDiff>, i: nat, j: nat, q: Record)
  {
    i < |csd| && j < |csd[i].records| && csd[i].contract == q.contract && csd[i].records[j].key == q.key
  }

  /** No record of a later contract diff, or further on in the same one, is for q. */
  ghost predicate LastListed(csd: seq<ContractStateDiff>, i: nat, j: nat, q: Record)
  {
    && ListedAt(csd, i, j, q)
    && forall k: nat, l: nat | ListedAt(csd, k, l, q) :: k < i || (k == i && l <= j)
  }

  /** The record j is the last with the key. */
  ghost predicate LastWithKey(records: seq<StateRecord>, j: nat, key: string)
  {
    j < |records| && records[j].key == key && forall l | j < l < |records| :: records[l].key != key
  }

  lemma {:induction false} SomeIsLast(records: seq<StateRecord>, i: nat, key: string) returns (j: nat)
    requires i < |records| && records[i].key == key
    ensures i <= j && LastWithKey(records, j, key)
    decreases |records| - i
  {
    if l :| i < l < |records| && records[l].key == key { j := SomeIsLast(records, l, key); } else { j := i; }
  }

  lemma {:induction false} WithRecordsLast(state: ChainState, contract: string, records: seq<StateRecord>, j: nat, key: string)
    requires LastWithKey(records, j, key)
    ensures Record(contract, key) in WithRecords(state, contract, records)
    ensures WithRecords(state, contract, records)[Record(contract, key)] == records[j].value
  {
    var n := |records| - 1;
    if j < n { WithRecordsLast(state, contract, records[..n], j, key); }
  }

  lemma {:induction false} WithRecordsOther(state: ChainState, contract: string, records: seq<StateRecord>, q: Record)
    requires q.contract != contract || forall j | 0 <= j < |records| :: records[j].key != q.key
    ensures var r := WithRecords(state, contract, records); (q in r <==> q in state) && (q in r ==> r[q] == state[q])
  {
    if records != [] { WithRecordsOther(state, contract, records[..|records| - 1], q); }
  }

  /** A record is in the diff exactly if it is listed, with the value of its last listing. */
  lemma {:induction false} InflatedExact(csd: seq<ContractStateDiff>, q: Record)
    ensures q in Inflated(csd) <==> exists i: nat, j: nat :: ListedAt(csd, i, j, q)
    ensures q in Inflated(csd) ==> exists i: nat, j: nat :: LastListed(csd, i, j, q) && Inflated(csd)[q] == csd[i].records[j].value
  {
    hide WithRecords;
    if csd != [] {
      var n := |csd| - 1;
      var front, last := csd[..n], csd[n];
      InflatedExact(front, q);
      if i :| 0 <= i < |last.records| && last.contract == q.contract && last.records[i].key == q.key {
        var j := SomeIsLast(last.records, i, q.key);
        WithRecordsLast(Inflated(front), last.contract, last.records, j, q.key);
        assert LastListed(csd, n, j, q);
      } else {
        WithRecordsOther(Inflated(front), last.contract, last.records, q);
        FrontListed(csd, q);
        if q in Inflated(csd) {
          var i: nat, j: nat :| LastListed(front, i, j, q) && Inflated(front)[q] == front[i].records[j].value;
          assert LastListed(csd, i, j, q) && csd[i] == front[i];
        }
      }
    }
  }

  lemma FrontListed(csd: seq<ContractStateDiff>, q: Record)
    requires csd != []
    requires var last := csd[|csd| - 1];
             last.contract != q.contract || forall j | 0 <= j < |last.records| :: last.records[j].key != q.key
    ensures forall i: nat, j: nat :: ListedAt(csd, i, j, q) <==> ListedAt(csd[..|csd| - 1], i, j, q)
    ensures forall i: nat, j: nat :: LastListed(csd, i, j, q) <==> LastListed(csd[..|csd| - 1], i, j, q)
  {
    var front := csd[..|csd| - 1];
    forall i: nat, j: nat ensures ListedAt(csd, i, j, q) <==> ListedAt(front, i, j, q) {
      if i < |front| { assert front[i] == csd[i]; }
    }
  }

  method InflateChainState(csd: seq<ContractStateDiff>) returns (result: ChainState)
    ensures result == Inflated(csd)
  {
    result := map[];
    for i := 0 to |csd|
      invariant result == Inflated(csd[..i])
    {
      ghost var before := result;
      var records := csd[i].records;
      for j := 0 to |records|
        invariant result == WithRecords(before, csd[i].contract, records[..j])
      {
        assert records[..j + 1][..j] == records[..j];
        result := result[Record(csd[i].contract, records[j].key) := records[j].value];
      }
      assert records[..|records|] == records;
      assert csd[..i + 1][..i] == csd[..i];
    }
    assert csd[..|csd|] == csd;
  }

  class StateStorage {
    const historySnapshotNum: nat
    const revisions: R.RollingRevisions
    var trackedHeight: nat  // the block tracker's height

    ghost predicate Valid()
      reads this, revisions, revisions.persist, revisions.forest, revisions.forest.nodes
    {
      && revisions.Valid()
      && revisions.transientRevisions == historySnapshotNum
      && trackedHeight == revisions.currentHeight
    }

    constructor (historySnapshotNum: nat, persistence: R.StatePersistence, keyOf: KeyOf)
      requires RightSize(keyOf)
      requires persistence.fullState == map[] && persistence.height == 0
      requires persistence.merkleRoot == RootHash(R.T.EMPTY_ROOT)
      ensures Valid() && revisions.history == [] && revisions.keyOf == keyOf
    {
      this.historySnapshotNum := historySnapshotNum;
      var forest := new F.Forest();
      this.revisions := new R.RollingRevisions(persistence, historySnapshotNum, forest, keyOf);
      this.trackedHeight := 0;
    }

    /** Takes in the diff of the next height; asked for any other height it changes nothing and
        answers with the height it wants. */
    method CommitStateDiff(height: nat, ts: nat, proposer: seq<nat>, diffs: seq<ContractStateDiff>) returns (nextDesired: nat)
      requires Valid()
      requires CollisionFree(revisions.keyOf, Written(revisions.history, |revisions.history|) + Inflated(diffs).Keys)
      modifies this, revisions, revisions.persist, revisions.forest, revisions.forest.settled
      ensures Valid()
      ensures revisions.history == old(revisions.history) +
                                   if height == old(revisions.currentHeight) + 1 then [Inflated(diffs)] else []
      ensures revisions.heads == old(revisions.heads) +
                                 if height == old(revisions.currentHeight) + 1 then [R.Head(ts, proposer)] else []
      ensures nextDesired == revisions.currentHeight + 1
    {
      hide R.Tells, H.Settled, F.AllRoots, Written, CollisionFree;
      if revisions.currentHeight + 1 != height {
        return revisions.currentHeight + 1;
      }
      var diff := InflateChainState(diffs);
      var ok := revisions.AddRevision(height, ts, proposer, diff);
      trackedHeight := trackedHeight + 1;
      nextDesired := height + 1;
    }

    /** Serves every height in the window, with what the history of diffs says. */
    method ReadKeys(height: nat, contract: string, keys: seq<string>) returns (r: ReadOutcome)
      requires Valid()
      ensures r.Values? <==>
              contract != "" && keys != [] && height <= revisions.currentHeight < height + historySnapshotNum
      ensures r.Values? ==>
              && |r.values| == |keys|
              && forall i :: 0 <= i < |keys| ==>
                   r.values[i] == Read(StateAt(revisions.history, height), Record(contract, keys[i]))
      ensures r.Values? ==> forall i :: 0 <= i < |keys| ==> SaysLast(revisions.history, height, Record(contract, keys[i]), r.values[i])
    {
      hide R.Tells, H.Settled, StateAt, F.AllRoots, SaysLast, F.RootsHashed, F.Closed, R.HeadsOf;
      if contract == "" || trackedHeight < height || height + historySnapshotNum <= revisions.currentHeight {
        return Refused;
      }
      WindowServed(height);
      var records := [];
      for j := 0 to |keys|
        invariant |records| == j
        invariant forall i :: 0 <= i < j ==>
            records[i] == Read(StateAt(revisions.history, height), Record(contract, keys[i]))
      {
        var found := revisions.GetRevisionRecord(height, Record(contract, keys[j]));
        if found.Found? && found.exists_ {
          records := records + [found.value];
        } else {
          records := records + [ZERO];
        }
      }
      if |records| == 0 {
        return Refused;
      }
      r := Values(records);
      forall i | 0 <= i < |keys| ensures SaysLast(revisions.history, height, Record(contract, keys[i]), records[i]) {
        ReadSaysLast(revisions.history, height, Record(contract, keys[i]));
      }
    }

    /** The hash served for a height is the root hash of the one canonical trie of its state. */
    method GetStateHash(height: nat) returns (r: Option<Digest>)
      requires Valid()
      ensures r.Some? <==> height <= revisions.currentHeight < height + historySnapshotNum
      ensures r.Some? ==>
              exists t :: Represents(t, StateAt(revisions.history, height), revisions.keyOf) && r.value == RootHash(t)
    {
      hide H.Settled, StateAt, Represents, RootHash;
      if trackedHeight < height || height + historySnapshotNum <= revisions.currentHeight {
        return None;
      }
      WindowServed(height);
      r := revisions.GetRevisionHash(height);
      ghost var t := revisions.forest.tries[height - revisions.persistedHeight];
      assert Represents(t, StateAt(revisions.history, height), revisions.keyOf);
    }

    /** Every height that passes the window check is at or above the persisted height. */
    lemma WindowServed(height: nat)
      requires Valid() && height <= revisions.currentHeight < height + historySnapshotNum
      ensures revisions.Consistent() && revisions.currentHeight == |revisions.history|
      ensures revisions.persistedHeight <= height
    {
    }
  }
}
