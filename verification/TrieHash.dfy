/** Node hashing. A hasher sees what the functions passed to collapseAndHash see of
    a node: its value, its path, and the hashes of the children it has.
 */
module TrieHash {
  import opened Digests
  import opened Trie
  import opened CanonicalTrie

  type Hasher = (Digest, Bits, Option<Digest>, Option<Digest>) -> Digest

  function HashOf(f: Hasher, t: Trie): Digest
    requires t.Node?
    decreases t, 0
  {
    f(t.value, t.path, ChildHash(f, t.left), ChildHash(f, t.right))
  }

  function ChildHash(f: Hasher, t: Trie): Option<Digest>
    decreases t, 1
  {
    if t.Nil? then None else Some(HashOf(f, t))
  }

  function OrZeroBytes(h: Option<Digest>): Digest { if h.Some? then h.value else ZeroBytes }

  /** The hash of a state trie node: value and path for a leaf, otherwise the child
      hashes (zero bytes for a missing child) and the path. */
  function TrieNodeHash(value: Digest, path: Bits, left: Option<Digest>, right: Option<Digest>): Digest
  {
    if left.None? && right.None? then ShaLeaf(value, path)
    else ShaInner(OrZeroBytes(left), OrZeroBytes(right), path)
  }

  function RootHash(t: Trie): Digest
    requires t.Node?
  {
    HashOf(TrieNodeHash, t)
  }

  lemma RootHashCases(t: Trie)
    requires t.Node?
    ensures RootHash(t) ==
            if IsLeaf(t) then ShaLeaf(t.value, t.path)
            else ShaInner(OrZeroBytes(ChildHash(TrieNodeHash, t.left)), OrZeroBytes(ChildHash(TrieNodeHash, t.right)), t.path)
  {
    var l, r := ChildHash(TrieNodeHash, t.left), ChildHash(TrieNodeHash, t.right);
    assert RootHash(t) == TrieNodeHash(t.value, t.path, l, r);
  }

  /** All keys below t have length n: only leaves hold values, inner nodes have two children. */
  predicate FixedLength(t: Trie, n: nat)
    requires t.Node?
    decreases t
  {
    if IsLeaf(t) then |t.path| == n
    else
      && |t.path| < n
      && t.value == ZERO_VALUE
      && t.left.Node? && FixedLength(t.left, n - |t.path| - 1)
      && t.right.Node? && FixedLength(t.right, n - |t.path| - 1)
  }

  predicate FixedRoot(t: Trie, n: nat)
  {
    IsRoot(t) && (t == EMPTY_ROOT || FixedLength(t, n))
  }

  lemma {:induction false} HashInjective(t: Trie, u: Trie, n: nat, m: nat)
    requires t.Node? && u.Node? && (t == EMPTY_ROOT || FixedLength(t, n)) && (u == EMPTY_ROOT || FixedLength(u, m))
    requires RootHash(t) == RootHash(u)
    ensures t == u
    decreases t
  {
    RootHashCases(t);
    RootHashCases(u);
    if !IsLeaf(t) {
      HashInjective(t.left, u.left, n - |t.path| - 1, m - |u.path| - 1);
      HashInjective(t.right, u.right, n - |t.path| - 1, m - |u.path| - 1);
    }
  }

  /** Keys of one length are stored in leaves only. */
  lemma {:induction false} ContentsGiveFixedLength(t: Trie, n: nat)
    requires t.Node? && Canonical(t)
    requires forall k :: Lookup(t, k) != ZERO_VALUE ==> |k| == n
    ensures FixedLength(t, n)
    decreases t
  {
    hide Lookup;
    TopLookup(t, t.path);
    if IsLeaf(t) {
    } else {
      var arc := t.right.Node?;
      var k := StoredKeyBelow(t, arc);
      if t.value == ZERO_VALUE {
        ChildContents(t, n, false);
        ChildContents(t, n, true);
        ContentsGiveFixedLength(t.left, n - |t.path| - 1);
        ContentsGiveFixedLength(t.right, n - |t.path| - 1);
      }
    }
  }

  lemma {:induction false} ChildContents(t: Trie, n: nat, arc: bool)
    requires t.Node? && |t.path| < n
    requires forall k :: Lookup(t, k) != ZERO_VALUE ==> |k| == n
    ensures forall k :: Lookup(Child(t, arc), k) != ZERO_VALUE ==> |k| == n - |t.path| - 1
  {
    forall k | Lookup(Child(t, arc), k) != ZERO_VALUE
      ensures |k| == n - |t.path| - 1
    {
      var full := t.path + [arc] + k;
      assert full[|t.path| + 1..] == k;
      assert t.path < full;
      BelowLookup(t, full);
      assert Lookup(t, full) != ZERO_VALUE;
    }
  }

  lemma {:induction false} FixedLengthContents(t: Trie, n: nat, k: Bits)
    requires t.Node? && FixedLength(t, n)
    requires Lookup(t, k) != ZERO_VALUE
    ensures |k| == n
    decreases t
  {
    if k != t.path {
      FixedLengthContents(Child(t, k[|t.path|]), n - |t.path| - 1, k[|t.path| + 1..]);
    } else if !IsLeaf(t) {
    }
  }

  predicate KeysOfLength(diffs: seq<TrieDiff>, n: nat)
  {
    forall d :: d in diffs ==> |d.key| == n
  }

  lemma {:induction false} OverriddenKey(before: Digest, diffs: seq<TrieDiff>, k: Bits, n: nat)
    requires KeysOfLength(diffs, n)
    requires Overridden(before, diffs, k) != ZERO_VALUE
    ensures before != ZERO_VALUE || |k| == n
  {
    if diffs != [] && diffs[|diffs| - 1].key == k {
      assert diffs[|diffs| - 1] in diffs;
    } else if diffs != [] {
      OverriddenKey(before, diffs[..|diffs| - 1], k, n);
    }
  }

  /** Updating with keys of one length keeps all keys of that length. */
  lemma {:induction false} UpdateKeepsLength(t: Trie, diffs: seq<TrieDiff>, n: nat)
    requires FixedRoot(t, n) && KeysOfLength(diffs, n)
    ensures FixedRoot(Update(t, diffs), n)
  {
    UpdateContents(t, diffs);
    var r := Update(t, diffs);
    if r != EMPTY_ROOT {
      forall k | Lookup(r, k) != ZERO_VALUE ensures |k| == n {
        OverriddenKey(Lookup(t, k), diffs, k, n);
        if t == EMPTY_ROOT {
          LeafLookup([], ZERO_VALUE, k);
        } else if Lookup(t, k) != ZERO_VALUE {
          FixedLengthContents(t, n, k);
        }
      }
      ContentsGiveFixedLength(r, n);
    }
  }

  /** With keys of one length the root hash identifies the contents: equal hashes if and
      only if equal contents. */
  lemma {:induction false} RootHashIdentifiesContents(t: Trie, u: Trie, n: nat)
    requires FixedRoot(t, n) && FixedRoot(u, n)
    ensures RootHash(t) == RootHash(u) <==> SameContents(t, u)
  {
    if RootHash(t) == RootHash(u) {
      HashInjective(t, u, n, n);
    }
    if SameContents(t, u) {
      RootUnique(t, u);
    }
  }
}
