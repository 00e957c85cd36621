/** Contract state as a history of diffs, and the state trie that stands for it. */
module StateHistory {
  import opened Digests
  import T = Trie
  import opened CanonicalTrie
  import opened TrieHash

  type Value = seq<nat>

  datatype Record = Record(contract: string, key: string)

  /** The records of all contracts; a diff may map a record to the zero value, a state may not. */
  type ChainState = map<Record, Value>

  const ZERO: Value := []

  const KEY_BITS: nat := 256

  function Apply(state: ChainState, diff: ChainState): (r: ChainState)
    ensures forall k :: k in r <==> (k in diff && diff[k] != ZERO) || (k !in diff && k in state)
    ensures forall k :: k in r ==> r[k] == if k in diff then diff[k] else state[k]
  {
    map k | k in state.Keys + diff.Keys && (if k in diff then diff[k] != ZERO else true) ::
      if k in diff then diff[k] else state[k]
  }

  lemma ApplyOne(state: ChainState, diff: ChainState, k: Record, v: Value)
    requires k !in diff
    ensures Apply(state, diff[k := v]) == if v == ZERO then Apply(state, diff) - {k} else Apply(state, diff)[k := v]
  {
  }

  /** The state after the first h diffs, from the empty state. */
  function StateAt(history: seq<ChainState>, h: nat): ChainState
    requires h <= |history|
  {
    if h == 0 then map[] else Apply(StateAt(history, h - 1), history[h - 1])
  }

  /** What reading a record yields: the zero value when it is absent. */
  function Read(state: ChainState, k: Record): Value
  {
    if k in state then state[k] else ZERO
  }

  /** What a read at height h finds: the value and whether the record is there. */
  function ReadAt(history: seq<ChainState>, h: nat, k: Record): (Value, bool)
    requires h <= |history|
  {
    (Read(StateAt(history, h), k), k in StateAt(history, h))
  }

  /** The last diff that mentions a record decides. */
  lemma ReadAtBack(history: seq<ChainState>, h: nat, k: Record)
    requires 0 < h <= |history|
    ensures ReadAt(history, h, k) ==
            if k in history[h - 1] then (history[h - 1][k], history[h - 1][k] != ZERO) else ReadAt(history, h - 1, k)
  {
  }

  /** The value is that of the last of the first h diffs that mentions the record, and zero if none does. */
  ghost predicate SaysLast(history: seq<ChainState>, h: nat, k: Record, value: Value)
    requires h <= |history|
  {
    || (value == ZERO && forall i :: 0 <= i < h ==> k !in history[i])
    || exists i :: 0 <= i < h && k in history[i] && history[i][k] == value && forall j :: i < j < h ==> k !in history[j]
  }

  lemma {:induction false} ReadSaysLast(history: seq<ChainState>, h: nat, k: Record)
    requires h <= |history|
    ensures SaysLast(history, h, k, Read(StateAt(history, h), k))
  {
    if h > 0 {
      ReadSaysLast(history, h - 1, k);
      ReadAtBack(history, h, k);
    }
  }

  lemma {:induction false} StateAtPrefix(history: seq<ChainState>, more: seq<ChainState>, h: nat)
    requires h <= |history|
    ensures StateAt(history + more, h) == StateAt(history, h)
  {
    if h > 0 { StateAtPrefix(history, more, h - 1); }
  }

  /** All records any of the first h diffs writes. */
  function Written(history: seq<ChainState>, h: nat): set<Record>
    requires h <= |history|
  {
    if h == 0 then {} else Written(history, h - 1) + history[h - 1].Keys
  }

  lemma {:induction false} StateIsWritten(history: seq<ChainState>, h: nat)
    requires h <= |history|
    ensures StateAt(history, h).Keys <= Written(history, h)
  {
    if h > 0 { StateIsWritten(history, h - 1); }
  }

  // ----- the trie of a state -----

  /** Stands for the digest of contract name and key, in inflated form. */
  type KeyOf = Record -> Bits

  ghost predicate RightSize(keyOf: KeyOf)
  {
    forall k :: |keyOf(k)| == KEY_BITS
  }

  /** No two of the records share a trie key. The source hashes contract name and key without a
      separator between them, so this is a hypothesis about the records in use. */
  ghost predicate CollisionFree(keyOf: KeyOf, records: set<Record>)
  {
    forall j, k :: j in records && k in records && keyOf(j) == keyOf(k) ==> j == k
  }

  /** t is the canonical trie of the state. */
  ghost predicate Represents(t: T.Trie, state: ChainState, keyOf: KeyOf)
  {
    && FixedRoot(t, KEY_BITS)
    && (forall k :: k in state ==> T.Lookup(t, keyOf(k)) == ShaBytes(state[k]))
    && (forall b :: T.Lookup(t, b) != ZERO_VALUE ==> exists k :: k in state && keyOf(k) == b)
  }

  /** Only one trie, and so only one root hash, represents a state. */
  lemma {:induction false} RepresentationUnique(t: T.Trie, u: T.Trie, state: ChainState, keyOf: KeyOf)
    requires Represents(t, state, keyOf) && Represents(u, state, keyOf)
    ensures t == u
  {
    forall b ensures T.Lookup(t, b) == T.Lookup(u, b) {
      if exists k :: k in state && keyOf(k) == b {
        var k :| k in state && keyOf(k) == b;
        assert T.Lookup(t, b) == ShaBytes(state[k]) == T.Lookup(u, b);
      }
    }
    RootUnique(t, u);
  }

  lemma EmptyRepresents(keyOf: KeyOf)
    ensures Represents(T.EMPTY_ROOT, map[], keyOf)
  {
    forall b ensures T.Lookup(T.EMPTY_ROOT, b) == ZERO_VALUE {
      T.LeafLookup([], ZERO_VALUE, b);
    }
  }

  /** The diffs list the records of diff and nothing else, in any order. */
  ghost predicate ListsRecords(diffs: seq<TrieDiff>, diff: ChainState, keyOf: KeyOf)
  {
    && (forall d :: d in diffs ==> exists k :: k in diff && d == TrieDiff(keyOf(k), ShaBytes(diff[k])))
    && (forall k :: k in diff ==> TrieDiff(keyOf(k), ShaBytes(diff[k])) in diffs)
  }

  /** The diffs list each record of diff once, in any order. */
  ghost predicate IsMerkleInput(diffs: seq<TrieDiff>, diff: ChainState, keyOf: KeyOf)
  {
    ListsRecords(diffs, diff, keyOf) && DistinctKeys(diffs)
  }

  lemma {:induction false} MerkleInputLookup(before: Digest, diffs: seq<TrieDiff>, diff: ChainState, keyOf: KeyOf, b: Bits)
    requires IsMerkleInput(diffs, diff, keyOf)
    ensures forall k :: k in diff && keyOf(k) == b ==> Overridden(before, diffs, b) == ShaBytes(diff[k])
    ensures (forall k :: k in diff ==> keyOf(k) != b) ==> Overridden(before, diffs, b) == before
  {
    forall k | k in diff && keyOf(k) == b
      ensures Overridden(before, diffs, b) == ShaBytes(diff[k])
    {
      var i :| 0 <= i < |diffs| && diffs[i] == TrieDiff(keyOf(k), ShaBytes(diff[k]));
      OverriddenByMember(before, diffs, i);
    }
    if forall k :: k in diff ==> keyOf(k) != b {
      OverriddenByNone(before, diffs, b);
    }
  }

  /** Updating the trie of a state with a diff, in whatever order its records come, gives the trie
      of the state with the diff applied. */
  lemma {:induction false} UpdateRepresents(t: T.Trie, state: ChainState, diffs: seq<TrieDiff>, diff: ChainState, keyOf: KeyOf)
    requires Represents(t, state, keyOf) && IsMerkleInput(diffs, diff, keyOf) && RightSize(keyOf)
    requires CollisionFree(keyOf, state.Keys + diff.Keys)
    ensures Represents(CanonicalTrie.Update(t, diffs), Apply(state, diff), keyOf)
  {
    hide T.Lookup, CanonicalTrie.Update, IsMerkleInput, KeysOfLength, Overridden;
    var u, after := CanonicalTrie.Update(t, diffs), Apply(state, diff);
    InputLength(diffs, diff, keyOf);
    UpdateKeepsLength(t, diffs, KEY_BITS);
    UpdateContents(t, diffs);
    forall k | k in after ensures T.Lookup(u, keyOf(k)) == ShaBytes(after[k]) {
      MerkleInputLookup(T.Lookup(t, keyOf(k)), diffs, diff, keyOf, keyOf(k));
    }
    forall b | T.Lookup(u, b) != ZERO_VALUE ensures exists k :: k in after && keyOf(k) == b {
      MerkleInputLookup(T.Lookup(t, b), diffs, diff, keyOf, b);
      if j :| j in diff && keyOf(j) == b {
        assert j in after;
      } else {
        assert T.Lookup(t, b) != ZERO_VALUE;
        var k :| k in state && keyOf(k) == b;
        assert k in after;
      }
    }
  }

  lemma InputLength(diffs: seq<TrieDiff>, diff: ChainState, keyOf: KeyOf)
    requires IsMerkleInput(diffs, diff, keyOf) && RightSize(keyOf)
    ensures KeysOfLength(diffs, KEY_BITS)
  {
  }
}
