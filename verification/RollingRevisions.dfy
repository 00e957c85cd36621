/** State storage: a window of recent diffs over a persisted base, and the forest of their roots. */
module RollingRevisions {
  import opened Basics
  import opened Digests
  import T = Trie
  import opened CanonicalTrie
  import opened TrieHash
  import H = TrieHeap
  import TrieCollapse
  import F = Forest
  import opened StateHistory

  /** The in-memory state persistence. */
  class StatePersistence {
    var fullState: ChainState
    var height: nat
    var proposer: seq<nat>
    var merkleRoot: Digest

    constructor ()
      ensures fullState == map[] && height == 0 && merkleRoot == RootHash(T.EMPTY_ROOT)
    {
      fullState, height, proposer, merkleRoot := map[], 0, [], RootHash(T.EMPTY_ROOT);
    }

    /** The time of the block is not kept, as in the source. */
    method Write(height: nat, proposer: seq<nat>, root: Digest, diff: ChainState)
      modifies this
      ensures this.height == height && this.proposer == proposer && merkleRoot == root
      ensures fullState == Apply(old(fullState), diff)
    {
      this.height, this.proposer, merkleRoot := height, proposer, root;
      var left, written := diff.Keys, {};
      while left != {}
        invariant left + written == diff.Keys && left !! written
        invariant this.height == height && this.proposer == proposer && merkleRoot == root
        invariant fullState == Apply(old(fullState), map k | k in diff && k in written :: diff[k])
        decreases left
      {
        var k :| k in left;
        assert (map j | j in diff && j in written + {k} :: diff[j]) ==
               (map j | j in diff && j in written :: diff[j])[k := diff[k]];
        ApplyOne(old(fullState), map j | j in diff && j in written :: diff[j], k, diff[k]);
        if diff[k] == ZERO {
          fullState := fullState - {k};
        } else {
          fullState := fullState[k := diff[k]];
        }
        left, written := left - {k}, written + {k};
      }
      assert (map k | k in diff && k in written :: diff[k]) == diff;
    }
  }

  datatype RevisionDiff = RevisionDiff(diff: ChainState, merkleRoot: Digest, height: nat, ts: nat, proposer: seq<nat>)

  datatype ReadResult = TooNew | TooOld | Found(value: Value, exists_: bool)

  /** The diffs of a state in the order a map iteration happens to yield them. */
  method ToMerkleInput(diff: ChainState, keyOf: KeyOf) returns (result: seq<TrieDiff>)
    ensures ListsRecords(result, diff, keyOf) && |result| == |diff.Keys|
    ensures CollisionFree(keyOf, diff.Keys) ==> IsMerkleInput(result, diff, keyOf)
  {
    hide ListsRecords, DistinctKeys, CollisionFree;
    result := [];
    var left := diff.Keys;
    NothingListed(diff, keyOf);
    while left != {}
      invariant left <= diff.Keys
      invariant ListsRecords(result, Outside(diff, left), keyOf) && |result| == |diff.Keys| - |left|
      invariant CollisionFree(keyOf, diff.Keys) ==> DistinctKeys(result)
      decreases left
    {
      var k :| k in left;
      ListedOneMore(diff, left, k, result, keyOf);
      result, left := result + [TrieDiff(keyOf(k), ShaBytes(diff[k]))], left - {k};
    }
    assert Outside(diff, {}) == diff;
  }

  /** The part of a diff outside the given records. */
  function Outside(diff: ChainState, left: set<Record>): ChainState
  {
    map k | k in diff && k !in left :: diff[k]
  }

  lemma NothingListed(diff: ChainState, keyOf: KeyOf)
    ensures ListsRecords([], Outside(diff, diff.Keys), keyOf) && DistinctKeys([])
  {
  }

  lemma ListedOneMore(diff: ChainState, left: set<Record>, k: Record, result: seq<TrieDiff>, keyOf: KeyOf)
    requires left <= diff.Keys && k in left && ListsRecords(result, Outside(diff, left), keyOf)
    ensures ListsRecords(result + [TrieDiff(keyOf(k), ShaBytes(diff[k]))], Outside(diff, left - {k}), keyOf)
    ensures CollisionFree(keyOf, diff.Keys) && DistinctKeys(result) ==>
              DistinctKeys(result + [TrieDiff(keyOf(k), ShaBytes(diff[k]))])
  {
    var d, done := TrieDiff(keyOf(k), ShaBytes(diff[k])), Outside(diff, left);
    if CollisionFree(keyOf, diff.Keys) {
      forall i | 0 <= i < |result| ensures result[i].key != d.key {
        assert result[i] in result;
        var j :| j in done && result[i] == TrieDiff(keyOf(j), ShaBytes(done[j]));
        assert j in diff.Keys && k in diff.Keys && j != k;
      }
    }
    forall e | e in result + [d]
      ensures exists j :: j in Outside(diff, left - {k}) && e == TrieDiff(keyOf(j), ShaBytes(diff[j]))
    {
      if e in result {
        var j :| j in done && e == TrieDiff(keyOf(j), ShaBytes(done[j]));
        assert j in Outside(diff, left - {k});
      } else {
        assert k in Outside(diff, left - {k});
      }
    }
  }

  /** The revisions are the diffs of the heights above the persisted one. */
  ghost predicate IsWindow(revisions: seq<RevisionDiff>, history: seq<ChainState>, persistedHeight: nat)
  {
    && persistedHeight + |revisions| == |history|
    && forall i :: 0 <= i < |revisions| ==>
         revisions[i].height == persistedHeight + 1 + i && revisions[i].diff == history[persistedHeight + i]
  }

  /** The tries are those of the states from height first on. */
  ghost predicate AreRoots(tries: seq<T.Trie>, history: seq<ChainState>, first: nat, keyOf: KeyOf)
  {
    && first + |tries| == |history| + 1
    && forall i :: 0 <= i < |tries| ==> Represents(tries[i], StateAt(history, first + i), keyOf)
  }

  ghost predicate AreHashes(revisions: seq<RevisionDiff>, tries: seq<T.Trie>)
    requires F.AllRoots(tries)
  {
    && |tries| == |revisions| + 1
    && forall i :: 0 <= i < |revisions| ==> revisions[i].merkleRoot == RootHash(tries[i + 1])
  }

  /** The state in storage, the revisions in memory and the tries of the forest follow the history. */
  ghost predicate Tells(history: seq<ChainState>, keyOf: KeyOf, base: ChainState, baseHeight: nat, baseRoot: Digest,
                        revisions: seq<RevisionDiff>, tries: seq<T.Trie>, currentRoot: Digest)
  {
    && RightSize(keyOf)
    && CollisionFree(keyOf, Written(history, |history|))
    && IsWindow(revisions, history, baseHeight)
    && base == StateAt(history, baseHeight)
    && F.AllRoots(tries)
    && AreRoots(tries, history, baseHeight, keyOf)
    && AreHashes(revisions, tries)
    && baseRoot == RootHash(tries[0])
    && currentRoot == RootHash(tries[|revisions|])
  }

  /** Time and proposer of a block. */
  datatype Head = Head(ts: nat, proposer: seq<nat>)

  /** Every revision has time and proposer of the block of its height; so has what is stored, and the time of
      the newest block is the current one. */
  ghost predicate HeadsOf(heads: seq<Head>, revisions: seq<RevisionDiff>, first: nat, stored: Head, currentTs: nat)
  {
    && first + |revisions| == |heads|
    && (forall i :: 0 <= i < |revisions| ==> Head(revisions[i].ts, revisions[i].proposer) == heads[first + i])
    && (0 < first ==> stored == heads[first - 1])
    && (heads != [] ==> currentTs == heads[|heads| - 1].ts)
  }

  lemma HeadsAdded(heads: seq<Head>, revisions: seq<RevisionDiff>, first: nat, stored: Head, currentTs: nat, d: RevisionDiff)
    requires HeadsOf(heads, revisions, first, stored, currentTs)
    ensures HeadsOf(heads + [Head(d.ts, d.proposer)], revisions + [d], first, stored, d.ts)
  {
  }

  lemma HeadsEvicted(heads: seq<Head>, revisions: seq<RevisionDiff>, first: nat, stored: Head, currentTs: nat)
    requires HeadsOf(heads, revisions, first, stored, currentTs) && revisions != []
    ensures HeadsOf(heads, revisions[1..], first + 1, Head(revisions[0].ts, revisions[0].proposer), currentTs)
  {
  }

  class RollingRevisions {
    const transientRevisions: nat
    const keyOf: KeyOf
    const persist: StatePersistence
    const forest: F.Forest
    var revisions: seq<RevisionDiff>
    var currentHeight: nat
    var currentTs: nat
    var currentMerkleRoot: Digest
    var currentProposer: seq<nat>
    var persistedHeight: nat
    var persistedTs: nat
    var persistedRoot: Digest
    var persistedProposer: seq<nat>
    ghost var history: seq<ChainState>  // every diff committed so far
    ghost var heads: seq<Head>          // time and proposer of every block committed so far

    /** The stored base, the window, the forest and the hashes all tell the same history. */
    ghost predicate Consistent()
      reads this, persist, forest, forest.nodes
    {
      && currentHeight == |history|
      && forest.Valid() && forest.tip
      && Tells(history, keyOf, persist.fullState, persistedHeight, persistedRoot, revisions, forest.tries, currentMerkleRoot)
      && Stored()
    }

    /** What is stored beside the state is of the block of the stored height, and so are the fields for it. */
    ghost predicate Stored()
      reads this, persist
    {
      && persist.height == persistedHeight && persist.merkleRoot == persistedRoot && persist.proposer == persistedProposer
      && HeadsOf(heads, revisions, persistedHeight, Head(persistedTs, persistedProposer), currentTs)
    }

    /** Consistent, with as many revisions in memory as there may be. */
    ghost predicate Valid()
      reads this, persist, forest, forest.nodes
    {
      Consistent() && |revisions| == if currentHeight < transientRevisions then currentHeight else transientRevisions
    }

    /** Starts from an empty persistence and a new forest. */
    constructor (persist: StatePersistence, transientRevisions: nat, forest: F.Forest, keyOf: KeyOf)
      requires RightSize(keyOf)
      requires persist.fullState == map[] && persist.height == 0 && persist.merkleRoot == RootHash(T.EMPTY_ROOT)
      requires forest.Valid() && forest.tip && forest.tries == [T.EMPTY_ROOT]
      ensures Valid() && history == [] && heads == [] && this.transientRevisions == transientRevisions && this.keyOf == keyOf
      ensures this.persist == persist && this.forest == forest
    {
      this.persist, this.transientRevisions, this.forest, this.keyOf := persist, transientRevisions, forest, keyOf;
      revisions := [];
      currentHeight, currentTs, currentMerkleRoot, currentProposer := persist.height, 0, persist.merkleRoot, persist.proposer;
      persistedHeight, persistedTs, persistedRoot, persistedProposer := persist.height, 0, persist.merkleRoot, persist.proposer;
      history, heads := [], [];
      EmptyRepresents(keyOf);
    }

    method GetRevisionRecord(height: nat, k: Record) returns (r: ReadResult)
      requires Consistent()
      ensures r == if height > currentHeight then TooNew
                   else if height < persistedHeight then TooOld
                   else Found(Read(StateAt(history, height), k), k in StateAt(history, height))
    {
      hide AreRoots, AreHashes, RootHash, CollisionFree, RightSize, ReadAt, StateAt, Written, F.AllRoots;
      if currentHeight < height {
        return TooNew;
      }
      ReadAtParts(history, height, k);
      ReadAtParts(history, persistedHeight, k);
      var i := |revisions| - 1;
      ghost var h := if height < persistedHeight then persistedHeight else height;
      while i >= 0
        invariant -1 <= i < |revisions|
        invariant height >= persistedHeight ==>
            && h == (if persistedHeight + 1 + i < height then persistedHeight + 1 + i else height)
            && ReadAt(history, h, k) == ReadAt(history, height, k)
      {
        if revisions[i].height > height {
          i := i - 1;
          continue;
        }
        ReadAtBack(history, h, k);
        if k in revisions[i].diff {
          var record := revisions[i].diff[k];
          return Found(record, record != ZERO);
        }
        h := h - 1;
        i := i - 1;
      }
      if persistedHeight > height {
        return TooOld;
      }
      return if k in persist.fullState then Found(persist.fullState[k], true) else Found(ZERO, false);
    }

    method GetRevisionHash(height: nat) returns (r: Option<Digest>)
      requires Consistent()
      ensures r.Some? <==> persistedHeight <= height <= currentHeight
      ensures r.Some? ==> r.value == RootHash(forest.tries[height - persistedHeight])
    {
      hide AreRoots, RootHash, CollisionFree, RightSize, StateAt, IsRoot;
      ghost var at := height - persistedHeight - 1;
      if 0 <= at < |revisions| { assert revisions[at].height == height; }
      var i := |revisions| - 1;
      while i >= 0
        invariant -1 <= i < |revisions|
        invariant forall j :: i < j < |revisions| ==> revisions[j].height != height
      {
        if revisions[i].height == height {
          return Some(revisions[i].merkleRoot);
        }
        i := i - 1;
      }
      if height != persistedHeight {
        return None;
      }
      return Some(persistedRoot);
    }

    /** Takes in the next diff: the trie of the newest root is always found, the new root is the
        canonical root of the new state, and nothing under an earlier root changes. */
    method AddRevision(height: nat, ts: nat, proposer: seq<nat>, diff: ChainState) returns (ok: bool)
      requires Valid() && height == currentHeight + 1
      requires CollisionFree(keyOf, Written(history, |history|) + diff.Keys)
      modifies this, persist, forest, forest.settled
      ensures ok && Valid() && history == old(history) + [diff] && heads == old(heads) + [Head(ts, proposer)] && currentTs == ts
      ensures fresh(forest.settled - old(forest.settled)) && old(forest.nodes) <= forest.nodes && fresh(forest.nodes - old(forest.nodes))
      ensures TrieCollapse.Untouched(old(forest.nodes))
    {
      hide Consistent, ListsRecords, DistinctKeys, CollisionFree, Written;
      CollisionFreeSubset(keyOf, Written(history, |history|), diff.Keys);
      var input := ToMerkleInput(diff, keyOf);
      ok := Append(height, ts, proposer, diff, input);
      if ok {
        EvictRevisions();
      }
    }

    method Append(height: nat, ts: nat, proposer: seq<nat>, diff: ChainState, input: seq<TrieDiff>) returns (ok: bool)
      requires Consistent() && height == currentHeight + 1 && IsMerkleInput(input, diff, keyOf)
      requires CollisionFree(keyOf, Written(history, |history|) + diff.Keys)
      modifies this, forest, forest.settled
      ensures ok && Consistent() && history == old(history) + [diff] && heads == old(heads) + [Head(ts, proposer)]
      ensures currentTs == ts && currentHeight == height
      ensures |revisions| == old(|revisions|) + 1
      ensures fresh(forest.settled - old(forest.settled)) && old(forest.nodes) <= forest.nodes && fresh(forest.nodes - old(forest.nodes))
      ensures TrieCollapse.Untouched(old(forest.nodes))
    {
      hide Tells, H.Settled, RootHash, F.LastWith, F.AllRoots, CanonicalTrie.Update, Written, CollisionFree, IsMerkleInput, HeadsOf,
        TrieCollapse.Untouched, F.Closed, F.RootsHashed;
      TellsAdded(history, keyOf, persist.fullState, persistedHeight, persistedRoot, revisions, forest.tries, currentMerkleRoot,
                 diff, input, ts, proposer);
      var updated := forest.Update(currentMerkleRoot, input);
      if updated == None {
        return false;
      }
      Push(RevisionDiff(diff, updated.value, height, ts, proposer));
      ok := true;
    }

    method Push(d: RevisionDiff)
      requires forest.Valid() && forest.tip && Stored() && d.height == currentHeight + 1 == |history| + 1
      requires Tells(history + [d.diff], keyOf, persist.fullState, persistedHeight, persistedRoot, revisions + [d], forest.tries, d.merkleRoot)
      modifies this`revisions, this`currentHeight, this`currentTs, this`currentMerkleRoot, this`history, this`heads
      ensures Consistent() && history == old(history) + [d.diff] && heads == old(heads) + [Head(d.ts, d.proposer)]
      ensures currentTs == d.ts && currentHeight == d.height && revisions == old(revisions) + [d]
    {
      hide Tells, HeadsOf, F.AllRoots, F.RootsHashed, F.Closed, H.Settled;
      HeadsAdded(heads, revisions, persistedHeight, Head(persistedTs, persistedProposer), currentTs, d);
      revisions := revisions + [d];
      currentHeight, currentTs, currentMerkleRoot := d.height, d.ts, d.merkleRoot;
      history, heads := history + [d.diff], heads + [Head(d.ts, d.proposer)];
    }

    method EvictRevisions()
      requires Consistent()
      modifies this, persist, forest`roots, forest`tries, forest`tip
      ensures Consistent() && history == old(history) && heads == old(heads)
      ensures currentTs == old(currentTs) && currentHeight == old(currentHeight)
      ensures |revisions| == if old(|revisions|) > transientRevisions then transientRevisions else old(|revisions|)
    {
      hide Consistent;
      while |revisions| > transientRevisions
        invariant Consistent() && history == old(history) && heads == old(heads)
        invariant currentTs == old(currentTs) && currentHeight == old(currentHeight)
        invariant |revisions| == old(|revisions|) || |revisions| >= transientRevisions
        invariant |revisions| <= old(|revisions|)
        decreases |revisions|
      {
        EvictOne();
      }
    }

    method EvictOne()
      requires Consistent() && revisions != []
      modifies this, persist, forest`roots, forest`tries, forest`tip
      ensures Consistent() && history == old(history) && heads == old(heads)
      ensures currentTs == old(currentTs) && currentHeight == old(currentHeight)
      ensures revisions == old(revisions)[1..]
    {
      hide Tells, H.Settled, RootHash, F.FirstWith, F.AllRoots, Apply, Without, HeadsOf, F.Closed, F.RootsHashed;
      HeadsEvicted(heads, revisions, persistedHeight, Head(persistedTs, persistedProposer), currentTs);
      TellsEvicted(history, keyOf, persist.fullState, persistedHeight, persistedRoot, revisions, forest.tries, currentMerkleRoot);
      var d := revisions[0];
      persist.Write(d.height, d.proposer, d.merkleRoot, d.diff);
      forest.Forget(persistedRoot);
      persistedHeight, persistedTs, persistedRoot, persistedProposer := d.height, d.ts, d.merkleRoot, d.proposer;
      revisions := revisions[1..];
    }
  }

  lemma ReadAtParts(history: seq<ChainState>, h: nat, k: Record)
    requires h <= |history|
    ensures ReadAt(history, h, k) == (Read(StateAt(history, h), k), k in StateAt(history, h))
  {
  }

  /** Moving the oldest revision into the base keeps window, roots and hashes aligned. */
  lemma WindowShifts(revisions: seq<RevisionDiff>, tries: seq<T.Trie>, history: seq<ChainState>, first: nat, keyOf: KeyOf)
    requires F.AllRoots(tries)
    requires IsWindow(revisions, history, first) && revisions != []
    requires AreRoots(tries, history, first, keyOf) && AreHashes(revisions, tries)
    ensures revisions[0].height == first + 1
    ensures StateAt(history, first + 1) == Apply(StateAt(history, first), revisions[0].diff)
    ensures |tries| == |revisions| + 1 && revisions[0].merkleRoot == RootHash(tries[1])
    ensures IsWindow(revisions[1..], history, first + 1)
    ensures AreRoots(tries[1..], history, first + 1, keyOf) && AreHashes(revisions[1..], tries[1..])
  {
    hide RootHash, Represents;
  }

  /** Appending a revision and its root keeps window and hashes aligned. */
  lemma WindowGrows(revisions: seq<RevisionDiff>, tries: seq<T.Trie>, history: seq<ChainState>, first: nat,
                    r: RevisionDiff, t: T.Trie)
    requires F.AllRoots(tries) && t.Node?
    requires IsWindow(revisions, history, first) && AreHashes(revisions, tries)
    requires r.height == |history| + 1 && r.merkleRoot == RootHash(t) && IsRoot(t)
    ensures IsWindow(revisions + [r], history + [r.diff], first)
    ensures AreHashes(revisions + [r], tries + [t]) && |tries| == |revisions| + 1
    ensures first <= |history| && StateAt(history + [r.diff], first) == StateAt(history, first)
  {
    hide RootHash;
    StateAtPrefix(history, [r.diff], first);
  }

  lemma WrittenGrows(history: seq<ChainState>, diff: ChainState)
    ensures Written(history + [diff], |history| + 1) == Written(history, |history|) + diff.Keys
  {
    WrittenPrefix(history, [diff], |history|);
  }

  lemma {:induction false} WrittenPrefix(history: seq<ChainState>, more: seq<ChainState>, h: nat)
    requires h <= |history|
    ensures Written(history + more, h) == Written(history, h)
  {
    if h > 0 { WrittenPrefix(history, more, h - 1); }
  }

  /** Appending the updated trie to the roots goes with appending the diff to the history. */
  lemma {:induction false} RootsGrow(tries: seq<T.Trie>, history: seq<ChainState>, diff: ChainState, first: nat,
                                     keyOf: KeyOf, input: seq<TrieDiff>)
    requires AreRoots(tries, history, first, keyOf) && tries != [] && tries[|tries| - 1].Node?
    requires RightSize(keyOf) && IsMerkleInput(input, diff, keyOf)
    requires CollisionFree(keyOf, Written(history, |history|) + diff.Keys)
    ensures AreRoots(tries + [CanonicalTrie.Update(tries[|tries| - 1], input)], history + [diff], first, keyOf)
  {
    hide Represents, StateAt, CollisionFree, RightSize, CanonicalTrie.Update, IsMerkleInput, Written;
    var last := tries[|tries| - 1];
    NewRootRepresents(last, history, diff, keyOf, input);
    var after := tries + [CanonicalTrie.Update(last, input)];
    forall i | 0 <= i < |after| ensures Represents(after[i], StateAt(history + [diff], first + i), keyOf) {
      if i < |tries| {
        StateAtPrefix(history, [diff], first + i);
      }
    }
  }

  lemma {:induction false} NewRootRepresents(last: T.Trie, history: seq<ChainState>, diff: ChainState, keyOf: KeyOf, input: seq<TrieDiff>)
    requires last.Node? && Represents(last, StateAt(history, |history|), keyOf)
    requires RightSize(keyOf) && IsMerkleInput(input, diff, keyOf)
    requires CollisionFree(keyOf, Written(history, |history|) + diff.Keys)
    ensures Represents(CanonicalTrie.Update(last, input), StateAt(history + [diff], |history| + 1), keyOf)
  {
    hide Represents, CollisionFree, RightSize, CanonicalTrie.Update, IsMerkleInput, Written;
    CollisionFreeAt(history, diff, keyOf);
    UpdateRepresents(last, StateAt(history, |history|), input, diff, keyOf);
    StateAtNext(history, diff);
  }

  lemma CollisionFreeSubset(keyOf: KeyOf, a: set<Record>, b: set<Record>)
    requires CollisionFree(keyOf, a + b)
    ensures CollisionFree(keyOf, b)
  {
  }

  lemma CollisionFreeAt(history: seq<ChainState>, diff: ChainState, keyOf: KeyOf)
    requires CollisionFree(keyOf, Written(history, |history|) + diff.Keys)
    ensures CollisionFree(keyOf, StateAt(history, |history|).Keys + diff.Keys)
  {
    StateIsWritten(history, |history|);
  }

  lemma StateAtNext(history: seq<ChainState>, diff: ChainState)
    ensures StateAt(history + [diff], |history| + 1) == Apply(StateAt(history, |history|), diff)
  {
    StateAtPrefix(history, [diff], |history|);
  }

  /** Committing a diff: the newest trie is the one found by its hash, and what is told grows by the diff. */
  lemma {:induction false} TellsAdded(history: seq<ChainState>, keyOf: KeyOf, base: ChainState, baseHeight: nat, baseRoot: Digest,
                                      revisions: seq<RevisionDiff>, tries: seq<T.Trie>, currentRoot: Digest,
                                      diff: ChainState, input: seq<TrieDiff>, ts: nat, proposer: seq<nat>)
    requires Tells(history, keyOf, base, baseHeight, baseRoot, revisions, tries, currentRoot)
    requires IsMerkleInput(input, diff, keyOf) && CollisionFree(keyOf, Written(history, |history|) + diff.Keys)
    ensures F.AllRoots(tries) && F.LastWith(tries, currentRoot) == |tries| - 1 >= 0
    ensures var t := CanonicalTrie.Update(tries[F.LastWith(tries, currentRoot)], input);
            Tells(history + [diff], keyOf, base, baseHeight, baseRoot,
                  revisions + [RevisionDiff(diff, RootHash(t), |history| + 1, ts, proposer)], tries + [t], RootHash(t))
  {
    hide RootHash, Represents, CanonicalTrie.Update, IsRoot, StateAt, CollisionFree, IsMerkleInput;
    var last := tries[|tries| - 1];
    assert F.LastWith(tries, currentRoot) == |tries| - 1;
    var t := CanonicalTrie.Update(last, input);
    UpdateContents(last, input);
    RootsGrow(tries, history, diff, baseHeight, keyOf, input);
    WrittenGrows(history, diff);
    WindowGrows(revisions, tries, history, baseHeight, RevisionDiff(diff, RootHash(t), |history| + 1, ts, proposer), t);
  }

  /** Writing the oldest revision to storage and forgetting the root below it tells the same history. */
  lemma {:induction false} TellsEvicted(history: seq<ChainState>, keyOf: KeyOf, base: ChainState, baseHeight: nat, baseRoot: Digest,
                                        revisions: seq<RevisionDiff>, tries: seq<T.Trie>, currentRoot: Digest)
    requires Tells(history, keyOf, base, baseHeight, baseRoot, revisions, tries, currentRoot) && revisions != []
    ensures F.AllRoots(tries) && |tries| > 1 && F.FirstWith(tries, baseRoot) == 0 && revisions[0].height == baseHeight + 1
    ensures Tells(history, keyOf, Apply(base, revisions[0].diff), revisions[0].height, revisions[0].merkleRoot, revisions[1..],
                  Without(tries, F.FirstWith(tries, baseRoot)), currentRoot)
  {
    hide RootHash, Tells;
    TellsShifted(history, keyOf, base, baseHeight, baseRoot, revisions, tries, currentRoot);
    OldestFirst(tries);
  }

  lemma TellsShifted(history: seq<ChainState>, keyOf: KeyOf, base: ChainState, baseHeight: nat, baseRoot: Digest,
                     revisions: seq<RevisionDiff>, tries: seq<T.Trie>, currentRoot: Digest)
    requires Tells(history, keyOf, base, baseHeight, baseRoot, revisions, tries, currentRoot) && revisions != []
    ensures |tries| > 1 && F.AllRoots(tries) && baseRoot == RootHash(tries[0])
    ensures revisions[0].height == baseHeight + 1 <= |history| && revisions[0].merkleRoot == RootHash(tries[1])
    ensures Apply(base, revisions[0].diff) == StateAt(history, baseHeight + 1)
    ensures Tells(history, keyOf, StateAt(history, baseHeight + 1), baseHeight + 1, RootHash(tries[1]), revisions[1..], tries[1..],
                  currentRoot)
  {
    hide RootHash, Represents, IsRoot, CollisionFree, Written, StateAt, AreRoots;
    WindowShifts(revisions, tries, history, baseHeight, keyOf);
  }

  lemma OldestFirst(tries: seq<T.Trie>)
    requires F.AllRoots(tries) && tries != []
    ensures F.FirstWith(tries, RootHash(tries[0])) == 0 && Without(tries, 0) == tries[1..] && F.AllRoots(tries[1..])
  {
  }
}
