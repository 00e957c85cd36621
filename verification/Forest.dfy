/** The forest of state tries: one root per remembered revision, newest last. */
module Forest {
  import opened Basics
  import opened Digests
  import T = Trie
  import opened CanonicalTrie
  import opened TrieHash
  import opened TrieHeap
  import opened TrieInsert
  import opened TrieCollapse

  predicate AllRoots(tries: seq<T.Trie>)
  {
    forall i :: 0 <= i < |tries| ==> tries[i].Node? && IsRoot(tries[i])
  }

  /** The index of the last trie with the given root hash, or -1. */
  function LastWith(tries: seq<T.Trie>, rootHash: Digest): (i: int)
    requires AllRoots(tries)
    ensures -1 <= i < |tries|
    ensures i >= 0 ==> RootHash(tries[i]) == rootHash
    ensures forall j :: i < j < |tries| ==> RootHash(tries[j]) != rootHash
  {
    if tries == [] then -1
    else if RootHash(tries[|tries| - 1]) == rootHash then |tries| - 1
    else LastWith(tries[..|tries| - 1], rootHash)
  }

  /** The index of the first trie with the given root hash, or the number of tries. */
  function FirstWith(tries: seq<T.Trie>, rootHash: Digest): (i: nat)
    requires AllRoots(tries)
    ensures i <= |tries|
    ensures i < |tries| ==> RootHash(tries[i]) == rootHash
    ensures forall j :: 0 <= j < i ==> RootHash(tries[j]) != rootHash
  {
    if tries == [] || RootHash(tries[0]) == rootHash then 0
    else 1 + FirstWith(tries[1..], rootHash)
  }

  /** The children of the nodes are among them. */
  ghost predicate Closed(nodes: set<Node>)
    reads nodes
  {
    forall n :: n in nodes ==> (n.left != null ==> n.left in nodes) && (n.right != null ==> n.right in nodes)
  }

  /** A node and all nodes below it. */
  ghost function Below(n: Node, settled: set<Node>, f: Hasher): (r: set<Node>)
    requires Settled(settled, f) && n in settled
    reads settled
    ensures n in r && r <= settled
    decreases n.model
  {
    assert SettledNode(n, settled, f);
    {n} + (if n.left == null then {} else Below(n.left, settled, f)) + (if n.right == null then {} else Below(n.right, settled, f))
  }

  lemma {:induction false} BelowSettled(n: Node, settled: set<Node>, f: Hasher)
    requires Settled(settled, f) && n in settled
    ensures Settled(Below(n, settled, f), f)
    decreases n.model
  {
    assert SettledNode(n, settled, f);
    var l := if n.left == null then {} else Below(n.left, settled, f);
    var r := if n.right == null then {} else Below(n.right, settled, f);
    if n.left != null { BelowSettled(n.left, settled, f); }
    if n.right != null { BelowSettled(n.right, settled, f); }
    hide Settled, Below;
    assert Settled(l, f) && Settled(r, f) by { NoneSettled(f); }
    assert {} + l == l && {} + r == r && {} + l + r == l + r;
    SettledUnion({}, l, r, f);
    SettledExtend(l + r, n, f);
    assert Below(n, settled, f) == l + r + {n} by { BelowParts(n, settled, f); }
  }

  lemma BelowParts(n: Node, settled: set<Node>, f: Hasher)
    requires Settled(settled, f) && n in settled
    ensures SettledNode(n, settled, f)
    ensures Below(n, settled, f) ==
            (if n.left == null then {} else Below(n.left, settled, f)) + (if n.right == null then {} else Below(n.right, settled, f)) + {n}
  {
  }

  lemma ClosedGrows(nodes: set<Node>, settled: set<Node>, added: set<Node>)
    requires Closed(nodes) && settled <= nodes && Settled(settled + added, TrieNodeHash)
    ensures Closed(nodes + added)
  {
    forall n | n in added ensures SettledNode(n, settled + added, TrieNodeHash) {}
  }

  lemma RootMade(n: Node, settled: set<Node>)
    requires Settled(settled, TrieNodeHash) && n in settled
    ensures n.model.Node? && IsRoot(n.model) && n.hash == RootHash(n.model)
  {
    assert SettledNode(n, settled, TrieNodeHash);
  }

  /** The roots are among the nodes, and each has the hash of the trie it stands for. */
  ghost predicate RootsHashed(roots: seq<Node>, tries: seq<T.Trie>, nodes: set<Node>)
    requires AllRoots(tries)
    reads nodes
  {
    |tries| == |roots| && forall i :: 0 <= i < |roots| ==> roots[i] in nodes && roots[i].hash == RootHash(tries[i])
  }

  /** Dropping the root and the trie at one place keeps the rest in step, and the last of each last. */
  lemma RootsWithout(roots: seq<Node>, tries: seq<T.Trie>, nodes: set<Node>, i: nat)
    requires AllRoots(tries) && RootsHashed(roots, tries, nodes)
    ensures AllRoots(Without(tries, i)) && RootsHashed(Without(roots, i), Without(tries, i), nodes)
    ensures roots != [] ==> Without(roots, 0) == roots[1..]
    ensures roots != [] && i != |roots| - 1 ==>
              var rs, ts := Without(roots, i), Without(tries, i);
              rs != [] && rs[|rs| - 1] == roots[|roots| - 1] && ts[|rs| - 1] == tries[|roots| - 1]
  {
    hide RootHash, IsRoot, Without;
    WithoutAt(roots, i);
    WithoutAt(tries, i);
  }

  lemma RootsWith(roots: seq<Node>, tries: seq<T.Trie>, nodes: set<Node>, root: Node, nodes': set<Node>)
    requires AllRoots(tries) && RootsHashed(roots, tries, nodes) && nodes <= nodes' && root in nodes'
    requires root.model.Node? && IsRoot(root.model) && root.hash == RootHash(root.model)
    ensures AllRoots(tries + [root.model]) && RootsHashed(roots + [root], tries + [root.model], nodes') && |tries| == |roots|
  {
    hide RootHash, IsRoot;
  }

  class Forest {
    var roots: seq<Node>
    ghost var tries: seq<T.Trie>  // what the roots stand for
    ghost var tip: bool           // the last of the roots is the one made last
    ghost var settled: set<Node>  // the nodes of the root made last
    ghost var nodes: set<Node>    // the nodes of all roots so far

    /** Every root has the hash of the trie it stands for. The root made last is that trie, down to the
        last path. */
    ghost predicate Valid()
      reads this, nodes
    {
      && settled <= nodes && Closed(nodes) && Settled(settled, TrieNodeHash)
      && AllRoots(tries) && RootsHashed(roots, tries, nodes)
      && (tip ==> roots != [] && roots[|roots| - 1] in settled && roots[|roots| - 1].model == tries[|roots| - 1])
    }

    /** The hash is that of the root made last, or of none. */
    ghost predicate Newest(rootHash: Digest)
      requires AllRoots(tries)
      reads this
    {
      var i := LastWith(tries, rootHash);
      i < 0 || (tip && i == |tries| - 1)
    }

    constructor ()
      ensures Valid() && fresh(nodes) && tries == [T.EMPTY_ROOT] && tip
    {
      var empty := CreateEmptyTrieNode();
      roots := [empty];
      assert SettledNode(empty, {empty}, TrieNodeHash);
      settled, nodes := {empty}, {empty};
      tries, tip := [T.EMPTY_ROOT], true;
    }

    method FindRoot(rootHash: Digest) returns (root: Node?)
      requires Valid()
      ensures var i := LastWith(tries, rootHash);
              if i < 0 then root == null else root == roots[i]
    {
      hide Settled, LastWith, RootHash, IsRoot;
      var i := |roots| - 1;
      while i >= 0
        invariant -1 <= i < |roots|
        invariant forall j :: i < j < |roots| ==> roots[j].hash != rootHash
      {
        if roots[i].hash == rootHash {
          return roots[i];
        }
        i := i - 1;
      }
      root := null;
    }

    /** Drops the first root with the given hash. The source indexes the list of roots
        before looking, so it must not be empty. */
    method Forget(rootHash: Digest)
      requires Valid() && roots != []
      modifies this`roots, this`tries, this`tip
      ensures Valid() && tries == Without(old(tries), FirstWith(old(tries), rootHash))
      ensures tip == (old(tip) && FirstWith(old(tries), rootHash) != |old(tries)| - 1)
    {
      hide Settled, FirstWith, RootHash, AllRoots, Closed, Without;
      ghost var first := FirstWith(tries, rootHash);
      RootsWithout(roots, tries, nodes, first);
      tip := tip && first != |tries| - 1;
      tries := Without(tries, first);
      if roots[0].hash == rootHash {
        roots := roots[1..];
      } else {
        roots := AllButFirst(rootHash, first);
      }
    }

    method AllButFirst(rootHash: Digest, ghost first: nat) returns (newRoots: seq<Node>)
      requires first < |roots| ==> roots[first].hash == rootHash
      requires forall j :: 0 <= j < first && j < |roots| ==> roots[j].hash != rootHash
      ensures newRoots == Without(roots, first)
    {
      hide Without;
      var found, i := false, 0;
      newRoots := [];
      WithoutAt(roots[..i], first);
      while i < |roots|
        invariant 0 <= i <= |roots| && found == (first < i)
        invariant newRoots == Without(roots[..i], first)
      {
        WithoutSnoc(roots[..i], roots[i], first);
        assert roots[..i + 1] == roots[..i] + [roots[i]];
        if found || roots[i].hash != rootHash {
          newRoots := newRoots + [roots[i]];
        } else {
          found := true;
        }
        i := i + 1;
      }
      assert roots[..i] == roots;
    }

    /** Applies diffs to the trie of the root made last and remembers the outcome as the newest root. Hash,
        value and links of every node of every earlier root stay as they were. */
    method Update(rootMerkle: Digest, diffs: seq<TrieDiff>) returns (newRoot: Option<Digest>)
      requires Valid() && Newest(rootMerkle)
      modifies this, settled
      ensures Valid() && fresh(settled - old(settled)) && old(nodes) <= nodes && fresh(nodes - old(nodes))
      ensures Untouched(old(nodes))
      ensures var i := LastWith(old(tries), rootMerkle);
              if i < 0 then newRoot == None && tries == old(tries) && tip == old(tip)
              else
                && tip && tries == old(tries) + [CanonicalTrie.Update(old(tries)[i], diffs)]
                && newRoot == Some(RootHash(CanonicalTrie.Update(old(tries)[i], diffs)))
    {
      hide Settled, LastWith, RootHash, IsRoot, CanonicalTrie.Update;
      var found := FindRoot(rootMerkle);
      if found == null {
        return None;
      }
      var root;
      ghost var added;
      root, added := UpdateFrom(found, diffs, settled);
      tip := false;
      AppendRoot(root, added);
      newRoot := Some(root.hash);
    }

    method AppendRoot(root: Node, ghost added: set<Node>)
      requires Valid() && Settled(settled + added, TrieNodeHash) && root in settled + added
      modifies this
      ensures nodes == old(nodes) + added && settled <= old(settled) + added && tip
      ensures Valid() && tries == old(tries) + [root.model]
      ensures root.model.Node? && root.hash == RootHash(root.model)
    {
      hide Below, Settled, Closed, RootHash, IsRoot, AllRoots, RootsHashed;
      SettledParts(root, settled + added, TrieNodeHash);
      RootMade(root, settled + added);
      RootsWith(roots, tries, nodes, root, nodes + added);
      ClosedGrows(nodes, settled, added);
      BelowSettled(root, settled + added, TrieNodeHash);
      nodes := nodes + added;
      settled := Below(root, settled + added, TrieNodeHash);
      roots := roots + [root];
      tries, tip := tries + [root.model], true;
    }
  }

  method UpdateFrom(start: Node, diffs: seq<TrieDiff>, ghost settled: set<Node>)
    returns (root: Node, ghost added: set<Node>)
    requires Settled(settled, TrieNodeHash) && start in settled
    modifies settled
    ensures Settled(settled + added, TrieNodeHash) && root in settled + added
    ensures Settled(settled, TrieNodeHash) && fresh(added) && Untouched(settled)
    ensures old(start.model).Node? && root.model == CanonicalTrie.Update(old(start.model), diffs)
  {
    hide Owned, Settled, SettledNode, Collapse, InsertAll, MarksOutside;
    var sandbox := new Sandbox();
    var inserted := InsertDiffs(start, diffs, sandbox, settled, TrieNodeHash);
    var collapsed;
    collapsed, added := CollapseAndHash(inserted, sandbox, TrieNodeHash, settled);
    if collapsed == null {
      root := CreateEmptyTrieNode();
      SettledExtend(settled + added, root, TrieNodeHash);
      assert settled + added + {root} == settled + (added + {root});
      added := added + {root};
    } else {
      root := collapsed;
    }
  }

  method InsertDiffs(start: Node, diffs: seq<TrieDiff>, sandbox: Sandbox, ghost settled: set<Node>, ghost f: Hasher)
    returns (root: Node)
    requires Settled(settled, f) && start in settled && sandbox.marks == map[]
    modifies sandbox
    ensures World(settled, sandbox.marks, f)
    ensures root in settled || (Owned(root, settled, sandbox.marks) && fresh(root) && fresh(root.repr))
    ensures start.model.Node? && root.model == InsertAll(start.model, diffs)
  {
    hide Owned, Settled, InsertAll, T.Insert, IsRoot, HashOf;
    root := start;
    SettledParts(start, settled, f);
    InsertAllEnds(start.model, diffs);
    var i := 0;
    while i < |diffs|
      invariant 0 <= i <= |diffs|
      invariant World(settled, sandbox.marks, f)
      invariant root in settled || (Owned(root, settled, sandbox.marks) && fresh(root) && fresh(root.repr))
      invariant root in sandbox.marks ==> Flagged(sandbox.marks, null, false)
      invariant root.model == InsertAll(start.model, diffs[..i])
    {
      InsertAllStep(start.model, diffs, i);
      root := Insert(diffs[i].value, null, false, root, diffs[i].key, sandbox, settled, f);
      OwnedParts(root, settled, sandbox.marks);
      i := i + 1;
    }
  }

  method CreateEmptyTrieNode() returns (tmp: Node)
    ensures fresh(tmp) && tmp.model == T.EMPTY_ROOT && tmp.IsLeaf()
    ensures forall s: set<Node> :: SettledNode(tmp, s, TrieNodeHash)
  {
    tmp := new Node([], ZERO_VALUE);
    tmp.hash := TrieNodeHash(tmp.value, tmp.path, None, None);
  }
}
