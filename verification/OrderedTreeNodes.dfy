/** The ordered tree as the source builds it: nodes inserted one by one into a sandbox, then
    collapsed and hashed, and walked for proofs.
 */
module OrderedTreeNodes {
  import opened Digests
  import T = Trie
  import opened CanonicalTrie
  import opened TrieHash
  import opened TrieHeap
  import opened TrieInsert
  import opened TrieCollapse
  import opened OrderedTrees

  class OrderedTree {
    const gt: Greater
    ghost const values: seq<Digest>  // the list the tree was made from
    const keySize: nat
    const maxKey: int
    var root: Node?
    ghost var nodes: set<Node>

    /** The tree over a non-empty list is what insertion and collapse make of it. */
    ghost predicate Valid()
      reads this, nodes
    {
      && maxKey == |values| - 1 && keySize == CeilLog2(|values|)
      && (values == [] ==> root != null && root in nodes && root.hash == ZeroBytes)
      && (values != [] ==>
            && Settled(nodes, TreeHash(gt))
            && (root != null ==> root in nodes && root.model.Node?)
            && ModelOf(root) == Created(values))
    }

    constructor (gt: Greater, values: seq<Digest>)
      ensures Valid() && this.gt == gt && this.values == values
    {
      this.gt, this.values, this.maxKey := gt, values, |values| - 1;
      this.keySize := CeilLog2(|values|);
      new;
      var created;
      ghost var added;
      created, added := Create(gt, values, keySize);
      root, nodes := created, added;
    }

    /** The source dereferences the root, which is nil when every value was the zero value hash. */
    method GetRoot() returns (hash: Digest)
      requires Valid() && root != null
      ensures hash == if values == [] then ZeroBytes else HashOf(TreeHash(gt), Created(values))
    {
      if values != [] {
        SettledParts(root, nodes, TreeHash(gt));
      }
      hash := root.hash;
    }

    /** The hashes beside the walk to an index, or nothing when it is out of bounds. A value equal
        to the zero value hash would leave a gap in the tree, where the source dereferences nil. */
    method GetProof(index: int) returns (proof: Option<seq<Digest>>)
      requires Valid() && NoZero(values)
      ensures proof.Some? <==> 0 <= index < |values|
      ensures proof.Some? ==>
                && Full(Expected(values), keySize)
                && proof.value == SiblingHashes(gt, Expected(values), ToKeySpec(index, keySize))
    {
      if index < 0 || index > maxKey {
        return None;
      }
      CreatedIsExpected(values);
      ExpectedFull(values);
      var key := ToKey(index, keySize);
      var hashes := Walk(gt, root, key, nodes);
      proof := Some(hashes);
    }
  }

  method Walk(gt: Greater, root: Node, key: Bits, ghost nodes: set<Node>) returns (proof: seq<Digest>)
    requires Settled(nodes, TreeHash(gt)) && root in nodes
    requires root.model.Node? && Full(root.model, |key|) && (T.IsLeaf(root.model) <==> key == [])
    ensures proof == SiblingHashes(gt, root.model, key)
  {
    hide Settled, SiblingHashes, Full, HashOf, Canonical;
    proof := [];
    var current, i := root, 0;
    assert key[0..] == key;
    SettledParts(root, nodes, TreeHash(gt));
    while i < |key|
      invariant 0 <= i <= |key| && current in nodes
      invariant current.model.Node? && Full(current.model, |key| - i)
      invariant !T.IsLeaf(current.model) || i == |key|
      invariant proof + SiblingHashes(gt, current.model, key[i..]) == SiblingHashes(gt, root.model, key)
      decreases |key| - i
    {
      SettledParts(current, nodes, TreeHash(gt));
      WalkStep(gt, current.model, key, i);
      i := i + |current.path|;
      var arc := key[i];
      var other := current.GetChild(!arc);
      current := current.GetChild(arc);
      SettledParts(other, nodes, TreeHash(gt));
      SettledParts(current, nodes, TreeHash(gt));
      proof := proof + [other.hash];
      i := i + 1;
      if current.IsLeaf() {
        LeafSiblings(gt, current.model, key[i..]);
        return;
      }
    }
    LeafSiblings(gt, current.model, key[i..]);
  }

  /** One step of the walk: the sibling's hash, then the walk below the chosen child. */
  lemma WalkStep(gt: Greater, t: T.Trie, key: Bits, i: nat)
    requires i <= |key| && t.Node? && Full(t, |key| - i) && !T.IsLeaf(t)
    ensures var j := i + |t.path|;
            && j < |key| && T.Child(t, key[j]).Node? && T.Child(t, !key[j]).Node?
            && Full(T.Child(t, key[j]), |key| - j - 1)
            && SiblingHashes(gt, t, key[i..]) ==
               [HashOf(TreeHash(gt), T.Child(t, !key[j]))] + SiblingHashes(gt, T.Child(t, key[j]), key[j + 1..])
  {
    hide HashOf;
    var j := i + |t.path|;
    assert key[i..][|t.path| + 1..] == key[j + 1..];
  }

  lemma LeafSiblings(gt: Greater, t: T.Trie, key: Bits)
    requires t.Node? && Full(t, |key|) && (T.IsLeaf(t) || key == [])
    ensures SiblingHashes(gt, t, key) == []
  {
  }

  /** The two root algorithms and the proofs, end to end: on every non-empty list without the zero
      value hash the array fold and the tree agree on the root, and the proof for every index
      verifies against it. */
  method RootAndProofAgree(gt: Greater, values: array<Digest>, index: nat)
    returns (fold: Digest, treeRoot: Digest, ok: bool)
    requires Antisymmetric(gt) && NoZero(values[..]) && index < values.Length
    ensures fold == treeRoot == OrderedRoot(gt, values[..]) && ok
  {
    fold := CalculateOrderedTreeRoot(gt, values);
    var tree := new OrderedTree(gt, values[..]);
    CreatedIsExpected(tree.values);
    FoldAgreesWithTrie(gt, tree.values);
    treeRoot := tree.GetRoot();
    var proof := tree.GetProof(index);
    ProofLeadsToRoot(gt, tree.values, index);
    ok := Verify(gt, values[index], proof.value, treeRoot);
  }

  method Create(gt: Greater, values: seq<Digest>, keySize: nat) returns (root: Node?, ghost nodes: set<Node>)
    requires keySize == CeilLog2(|values|)
    ensures fresh(nodes)
    ensures values == [] ==> root != null && root in nodes && root.hash == ZeroBytes
    ensures values != [] ==>
              && Settled(nodes, TreeHash(gt)) && ModelOf(root) == Created(values)
              && (root != null ==> root in nodes && root.model.Node?)
  {
    var bare := new Node([], NilSlice);
    if values == [] {
      bare.hash := ZeroBytes;
      return bare, {bare};
    }
    var sandbox := new Sandbox();
    var inserted := InsertValues(gt, bare, values, keySize, sandbox);
    hide Owned, Settled;
    root, nodes := CollapseAndHash(inserted, sandbox, TreeHash(gt), {});
    assert {} + nodes == nodes;
  }

  method InsertValues(gt: Greater, bare: Node, values: seq<Digest>, keySize: nat, sandbox: Sandbox)
    returns (root: Node)
    requires bare.model == BARE_NODE && bare.repr == {bare} && bare.left == null && bare.right == null
    requires bare.path == [] && bare.value == NilSlice && sandbox.marks == map[]
    modifies sandbox, bare
    ensures World({}, sandbox.marks, TreeHash(gt)) && Owned(root, {}, sandbox.marks) && fresh(root.repr - {bare})
    ensures root.model == InsertAll(BARE_NODE, ToDiffs(values, keySize))
  {
    hide Owned, Settled, InsertAll, T.Insert, Created, TreeHash, Expected;
    root := bare;
    ghost var f, diffs := TreeHash(gt), ToDiffs(values, keySize);
    ShallowOwned(bare, {}, sandbox.marks);
    NoneSettled(f);
    InsertAllEnds(BARE_NODE, diffs);
    var i := 0;
    while i < |values|
      invariant 0 <= i <= |values|
      invariant World({}, sandbox.marks, f) && Owned(root, {}, sandbox.marks) && fresh(root.repr - {bare})
      invariant root in sandbox.marks ==> Flagged(sandbox.marks, null, false)
      invariant root.model == InsertAll(BARE_NODE, diffs[..i])
    {
      InsertAllStep(BARE_NODE, diffs, i);
      var key := ToKey(i, keySize);
      root := Insert(values[i], null, false, root, key, sandbox, {}, f);
      i := i + 1;
    }
  }
}
