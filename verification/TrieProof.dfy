/** Inclusion and exclusion proofs for state tries. */
module TrieProofs {
  import opened Digests
  import opened Trie
  import opened CanonicalTrie
  import opened TrieHash
  import H = TrieHeap
  import TrieCollapse
  import F = Forest

  datatype ProofNode = ProofNode(otherChildHash: Digest, prefixSize: nat)

  /** extraHashRight is NilSlice unless the last node has children. */
  datatype TrieProof = TrieProof(nodes: seq<ProofNode>, path: Bits, extraHashLeft: Digest, extraHashRight: Digest)

  datatype Verdict = Verdict(result: bool) | Inconsistent | WrongLength

  /** A trie whose keys all have the length of key. */
  predicate Suits(t: Trie, key: Bits)
  {
    t.Node? && Canonical(t) && FixedLength(t, |key|)
  }

  lemma SuitsBelow(t: Trie, key: Bits)
    requires Suits(t, key) && t.path < key
    ensures var arc, rest := key[|t.path|], key[|t.path| + 1..];
            && Suits(Child(t, arc), rest) && Child(t, !arc).Node?
            && Lookup(t, key) == Lookup(Child(t, arc), rest)
  {
  }

  // ----- what GetProof collects -----

  function Prove(t: Trie, key: Bits): (p: TrieProof)
    requires Suits(t, key)
    decreases t
  {
    if t.path < key then
      var arc, i := key[|t.path|], |t.path| + 1;
      SuitsBelow(t, key);
      var sub := Prove(Child(t, arc), key[i..]);
      TrieProof([ProofNode(RootHash(Child(t, !arc)), |t.path|)] + sub.nodes, key[..i] + sub.path,
                sub.extraHashLeft, sub.extraHashRight)
    else Finish(t, key)
  }

  function Finish(t: Trie, key: Bits): (p: TrieProof)
    requires Suits(t, key)
  {
    TrieProof([ProofNode(RootHash(t), |t.path|)], t.path + key[|t.path|..],
              if IsLeaf(t) then t.value else RootHash(t.left),
              if IsLeaf(t) then NilSlice else RootHash(t.right))
  }

  /** The proof for key in a root, which may be the one without keys. */
  function ProofOf(t: Trie, key: Bits): TrieProof
    requires FixedRoot(t, |key|) && key != []
  {
    if t == EMPTY_ROOT then TrieProof([], key, NilSlice, NilSlice) else Prove(t, key)
  }

  // ----- what Verify computes -----

  /** Where the path of the last node starts. */
  function LastNodePathIndex(nodes: seq<ProofNode>): nat
  {
    if |nodes| <= 1 then 0 else nodes[0].prefixSize + 1 + LastNodePathIndex(nodes[1..])
  }

  /** The root hash that the nodes imply for a key. */
  function ImpliedRoot(nodes: seq<ProofNode>, key: Bits): Digest
    requires nodes != [] && LastNodePathIndex(nodes) <= |key|
  {
    if |nodes| == 1 then nodes[0].otherChildHash
    else
      var i := nodes[0].prefixSize;
      var below := ImpliedRoot(nodes[1..], key[i + 1..]);
      if !key[i] then ShaInner(below, nodes[0].otherChildHash, key[..i])
      else ShaInner(nodes[0].otherChildHash, below, key[..i])
  }

  /** The path of the last node starts within the key; the source would index out of range otherwise. */
  predicate KeyFits(nodes: seq<ProofNode>, key: Bits)
  {
    nodes != [] ==> LastNodePathIndex(nodes) <= |key|
  }

  /** The path of the last node lies within the path of the proof, which exclusion alone looks at. */
  predicate PathFits(proof: TrieProof)
  {
    proof.nodes != [] ==> LastNodePathIndex(proof.nodes) + Last(proof).prefixSize <= |proof.path|
  }

  predicate Fits(proof: TrieProof, key: Bits) { KeyFits(proof.nodes, key) && PathFits(proof) }

  /** Verify stays in range: the path of the proof matters only once exclusion is checked. */
  predicate InRange(rootHash: Digest, proof: TrieProof, key: Bits, value: Digest)
  {
    && KeyFits(proof.nodes, key)
    && (proof.nodes != [] && ImpliedRoot(proof.nodes, key) == rootHash && value == ZERO_VALUE && |proof.path| == |key| ==>
          PathFits(proof))
  }

  function Last(proof: TrieProof): ProofNode
    requires proof.nodes != []
  {
    proof.nodes[|proof.nodes| - 1]
  }

  predicate Includes(proof: TrieProof, key: Bits, value: Digest)
    requires proof.nodes != [] && KeyFits(proof.nodes, key)
  {
    Last(proof).otherChildHash == ShaLeaf(value, key[LastNodePathIndex(proof.nodes)..])
  }

  function LastPrefix(proof: TrieProof, key: Bits): Bits
    requires proof.nodes != [] && Fits(proof, key)
  {
    var i := LastNodePathIndex(proof.nodes);
    proof.path[i..i + Last(proof).prefixSize]
  }

  predicate Excludes(proof: TrieProof, key: Bits)
    requires proof.nodes != [] && Fits(proof, key) && |proof.path| == |key|
  {
    var i := LastNodePathIndex(proof.nodes);
    var prefix := LastPrefix(proof, key);
    var calculated :=
      if proof.extraHashRight != NilSlice then ShaInner(proof.extraHashLeft, proof.extraHashRight, prefix)
      else ShaLeaf(proof.extraHashLeft, prefix);
    && Last(proof).otherChildHash == calculated
    && proof.path[..i] == key[..i]
    && !(i < |key| ==> prefix == key[i..])
  }

  function Check(rootHash: Digest, proof: TrieProof, key: Bits, value: Digest): Verdict
    requires InRange(rootHash, proof, key, value)
  {
    if proof.nodes == [] then Verdict(value == ZERO_VALUE)
    else if ImpliedRoot(proof.nodes, key) != rootHash then Inconsistent
    else if value != ZERO_VALUE then Verdict(Includes(proof, key, value))
    else if |proof.path| != |key| then WrongLength
    else Verdict(Excludes(proof, key))
  }

  // ----- exactness -----

  /** The node at which the walk for key ends. */
  function Terminal(t: Trie, key: Bits): Trie
    requires Suits(t, key)
    decreases t
  {
    if t.path < key then SuitsBelow(t, key); Terminal(Child(t, key[|t.path|]), key[|t.path| + 1..])
    else t
  }

  /** The proof fits the key and its last node is term, met at the right place on the key's path. */
  predicate EndsAt(p: TrieProof, key: Bits, term: Trie)
  {
    && p.nodes != [] && |p.path| == |key| && Fits(p, key)
    && (var i := LastNodePathIndex(p.nodes);
        && Suits(term, key[i..]) && !(term.path < key[i..])
        && Last(p) == ProofNode(RootHash(term), |term.path|)
        && p.path[..i] == key[..i] && LastPrefix(p, key) == term.path
        && p.extraHashLeft == Finish(term, key[i..]).extraHashLeft
        && p.extraHashRight == Finish(term, key[i..]).extraHashRight)
  }

  /** One more node in front of a proof. */
  function Extend(n: ProofNode, prefix: Bits, sub: TrieProof): TrieProof
  {
    TrieProof([n] + sub.nodes, prefix + sub.path, sub.extraHashLeft, sub.extraHashRight)
  }

  lemma {:induction false} ExtendEnds(n: ProofNode, key: Bits, sub: TrieProof, term: Trie)
    requires n.prefixSize < |key| && EndsAt(sub, key[n.prefixSize + 1..], term)
    ensures var p := Extend(n, key[..n.prefixSize + 1], sub);
            && EndsAt(p, key, term) && p.nodes != [] && LastNodePathIndex(p.nodes) <= |key|
            && LastNodePathIndex(p.nodes) == n.prefixSize + 1 + LastNodePathIndex(sub.nodes)
  {
    hide Suits, RootHash, Finish;
    var k := n.prefixSize + 1;
    var p := Extend(n, key[..k], sub);
    assert p.nodes[1..] == sub.nodes;
    var j := LastNodePathIndex(sub.nodes);
    var i := LastNodePathIndex(p.nodes);
    assert i == k + j;
    assert key[i..] == key[k..][j..];
    assert Last(p) == Last(sub);
    assert p.path[..i] == key[..k] + sub.path[..j];
    assert key[..i] == key[..k] + key[k..][..j];
    assert LastPrefix(p, key) == LastPrefix(sub, key[k..]);
  }

  /** A proof from GetProof ends at the terminal node. */
  lemma {:induction false} ProveEnds(t: Trie, key: Bits)
    requires Suits(t, key)
    ensures EndsAt(Prove(t, key), key, Terminal(t, key))
    ensures Prove(t, key).nodes != [] && LastNodePathIndex(Prove(t, key).nodes) <= |key|
    ensures Lookup(t, key) == Lookup(Terminal(t, key), key[LastNodePathIndex(Prove(t, key).nodes)..])
    decreases t
  {
    hide RootHash, EndsAt, Canonical, FixedLength, Lookup;
    if t.path < key {
      var arc, i := key[|t.path|], |t.path| + 1;
      SuitsBelow(t, key);
      ProveEnds(Child(t, arc), key[i..]);
      var sub := Prove(Child(t, arc), key[i..]);
      ExtendEnds(ProofNode(RootHash(Child(t, !arc)), |t.path|), key, sub, Terminal(t, key));
      var j := LastNodePathIndex(sub.nodes);
      assert key[i + j..] == key[i..][j..];
      assert Prove(t, key) == Extend(ProofNode(RootHash(Child(t, !arc)), |t.path|), key[..i], sub);
      assert LastNodePathIndex(Prove(t, key).nodes) == i + j;
    } else {
      assert key[0..] == key;
      FinishEnds(t, key);
    }
  }

  lemma FinishEnds(t: Trie, key: Bits)
    requires Suits(t, key) && !(t.path < key)
    ensures EndsAt(Finish(t, key), key, t) && LastNodePathIndex(Finish(t, key).nodes) == 0
  {
    hide RootHash;
    assert key[0..] == key;
  }

  /** A proof from GetProof implies the root hash of the trie it was made for. */
  lemma {:induction false} ProveImpliesRoot(t: Trie, key: Bits)
    requires Suits(t, key)
    ensures Prove(t, key).nodes != [] && LastNodePathIndex(Prove(t, key).nodes) <= |key|
    ensures ImpliedRoot(Prove(t, key).nodes, key) == RootHash(t)
    decreases t
  {
    hide Fits, EndsAt, FixedLength, Canonical, IsRoot, Lookup, Terminal, RootHash;
    ProveEnds(t, key);
    if t.path < key {
      var arc, i := key[|t.path|], |t.path| + 1;
      SuitsBelow(t, key);
      ProveImpliesRoot(Child(t, arc), key[i..]);
      var sub := Prove(Child(t, arc), key[i..]);
      assert Prove(t, key).nodes[1..] == sub.nodes;
      InnerHash(t);
    }
  }

  lemma InnerHash(t: Trie)
    requires t.Node? && t.left.Node? && t.right.Node?
    ensures RootHash(t) == ShaInner(RootHash(t.left), RootHash(t.right), t.path)
  {
    RootHashCases(t);
  }

  /** For a key of the right length, the proof made for it is accepted for exactly one
      value: the stored value if the key is present, the zero value if it is absent. */
  lemma {:induction false} ProofIsExact(t: Trie, key: Bits, value: Digest)
    requires FixedRoot(t, |key|) && key != []
    ensures Fits(ProofOf(t, key), key)
    ensures Check(RootHash(t), ProofOf(t, key), key, value) == Verdict(value == Lookup(t, key))
  {
    if t == EMPTY_ROOT {
      LeafLookup([], ZERO_VALUE, key);
    } else {
      ProveEnds(t, key);
      ProveImpliesRoot(t, key);
      TerminalDecides(Prove(t, key), key, Terminal(t, key), value);
    }
  }

  lemma TerminalDecides(p: TrieProof, key: Bits, term: Trie, value: Digest)
    requires EndsAt(p, key, term)
    ensures value != ZERO_VALUE ==>
              (Includes(p, key, value) <==> value == Lookup(term, key[LastNodePathIndex(p.nodes)..]))
    ensures Excludes(p, key) <==> Lookup(term, key[LastNodePathIndex(p.nodes)..]) == ZERO_VALUE
  {
    RootHashCases(term);
    if !IsLeaf(term) {
      RootHashCases(term.left);
      RootHashCases(term.right);
    }
  }

  // ----- soundness of inclusion -----

  /** No proof whatever makes Verify accept a present value the trie does not hold: if a proof is accepted
      for a non-zero value, that value is stored under the key, whatever the path in the proof. The key has
      the length of the keys in the trie, as hashes and paths in the source are told apart by their lengths. */
  lemma {:induction false} InclusionIsSound(t: Trie, proof: TrieProof, key: Bits, value: Digest)
    requires FixedRoot(t, |key|) && KeyFits(proof.nodes, key) && value != ZERO_VALUE
    requires Check(RootHash(t), proof, key, value) == Verdict(true)
    ensures Lookup(t, key) == value
  {
    NodesLeadToLeaf(t, proof.nodes, key, value);
  }

  lemma {:induction false} NodesLeadToLeaf(t: Trie, nodes: seq<ProofNode>, key: Bits, value: Digest)
    requires t.Node? && nodes != [] && LastNodePathIndex(nodes) <= |key|
    requires ImpliedRoot(nodes, key) == RootHash(t)
    requires nodes[|nodes| - 1].otherChildHash == ShaLeaf(value, key[LastNodePathIndex(nodes)..])
    ensures Lookup(t, key) == value
    decreases |nodes|
  {
    RootHashCases(t);
    if |nodes| == 1 {
      assert key[0..] == key;
    } else {
      var i := nodes[0].prefixSize;
      var rest, below := nodes[1..], key[i + 1..];
      assert below[LastNodePathIndex(rest)..] == key[LastNodePathIndex(nodes)..];
      assert t.path == key[..i] && t.path < key;
      ImpliedRootIsSha(rest, below);
      NodesLeadToLeaf(Child(t, key[i]), rest, below, value);
      BelowLookup(t, key);
    }
  }

  lemma ImpliedRootIsSha(nodes: seq<ProofNode>, key: Bits)
    requires nodes != [] && LastNodePathIndex(nodes) <= |key|
    requires nodes[|nodes| - 1].otherChildHash.ShaLeaf? || nodes[|nodes| - 1].otherChildHash.ShaInner?
    ensures ImpliedRoot(nodes, key) != ZeroBytes
  {
  }

  // ----- soundness of exclusion -----

  /** The proof ends in a leaf, or in a node whose path leaves the key's. */
  predicate EndsOff(proof: TrieProof, key: Bits)
    requires proof.nodes != [] && Fits(proof, key)
  {
    proof.extraHashRight == NilSlice || !(LastPrefix(proof, key) <= key[LastNodePathIndex(proof.nodes)..])
  }

  /** If a proof that ends in a leaf, or off the key's path, is accepted for the zero value, nothing is stored
      under the key. */
  lemma {:induction false} ExclusionIsSound(t: Trie, proof: TrieProof, key: Bits)
    requires FixedRoot(t, |key|) && proof.nodes != [] && Fits(proof, key) && EndsOff(proof, key)
    requires Check(RootHash(t), proof, key, ZERO_VALUE) == Verdict(true)
    ensures Lookup(t, key) == ZERO_VALUE
  {
    NodesLeadOff(t, proof.nodes, key);
  }

  /** The hash is that of a node at which the key is not: a leaf with another path, or a path that leaves the key's. */
  predicate HashOff(hash: Digest, key: Bits)
  {
    (hash.ShaLeaf? && hash.path != key) || (hash.ShaInner? && !(hash.path <= key))
  }

  lemma {:induction false} NodesLeadOff(t: Trie, nodes: seq<ProofNode>, key: Bits)
    requires t.Node? && nodes != [] && LastNodePathIndex(nodes) <= |key| && ImpliedRoot(nodes, key) == RootHash(t)
    requires HashOff(nodes[|nodes| - 1].otherChildHash, key[LastNodePathIndex(nodes)..])
    ensures Lookup(t, key) == ZERO_VALUE
    decreases |nodes|
  {
    RootHashCases(t);
    if |nodes| == 1 {
      assert key[0..] == key;
      TopLookup(t, key);
      if t.path < key { NilLookup(key[|t.path| + 1..]); }
    } else {
      var i := nodes[0].prefixSize;
      var rest, below := nodes[1..], key[i + 1..];
      assert below[LastNodePathIndex(rest)..] == key[LastNodePathIndex(nodes)..];
      assert t.path == key[..i] && t.path < key;
      ImpliedRootIsSha(rest, below);
      NodesLeadOff(Child(t, key[i]), rest, below);
      BelowLookup(t, key);
    }
  }

  // ----- GetProof -----

  /** Putting the nodes collected so far in front of the proof for the rest of the key. */
  function Prepend(nodes: seq<ProofNode>, prefix: Bits, sub: TrieProof): TrieProof
  {
    TrieProof(nodes + sub.nodes, prefix + sub.path, sub.extraHashLeft, sub.extraHashRight)
  }

  lemma {:induction false} PrependStep(nodes: seq<ProofNode>, path: Bits, i: nat, t: Trie)
    requires i <= |path| && Suits(t, path[i..]) && t.path < path[i..]
    ensures var j := i + |t.path|; var arc := path[j];
            && Suits(Child(t, arc), path[j + 1..]) && Child(t, !arc).Node?
            && Prepend(nodes, path[..i], Prove(t, path[i..])) ==
               Prepend(nodes + [ProofNode(RootHash(Child(t, !arc)), |t.path|)], path[..j + 1],
                       Prove(Child(t, arc), path[j + 1..]))
  {
    hide RootHash, Canonical, FixedLength, Prove, Prepend, Extend;
    var j, key := i + |t.path|, path[i..];
    assert key[|t.path|] == path[j] && key[|t.path| + 1..] == path[j + 1..];
    assert path[..i] + key[..|t.path| + 1] == path[..j + 1];
    ProveStep(t, key);
    var n := ProofNode(RootHash(Child(t, !path[j])), |t.path|);
    PrependExtend(nodes, path[..i], n, key[..|t.path| + 1], Prove(Child(t, path[j]), path[j + 1..]));
  }

  lemma ProveStep(t: Trie, key: Bits)
    requires Suits(t, key) && t.path < key
    ensures var arc, i := key[|t.path|], |t.path| + 1;
            && Suits(Child(t, arc), key[i..]) && Child(t, !arc).Node?
            && Prove(t, key) ==
               Extend(ProofNode(RootHash(Child(t, !arc)), |t.path|), key[..i], Prove(Child(t, arc), key[i..]))
  {
    hide RootHash, Canonical, FixedLength, Lookup;
    SuitsBelow(t, key);
  }

  lemma PrependExtend(nodes: seq<ProofNode>, prefix: Bits, n: ProofNode, arc: Bits, sub: TrieProof)
    ensures Prepend(nodes, prefix, Extend(n, arc, sub)) == Prepend(nodes + [n], prefix + arc, sub)
  {
    assert nodes + ([n] + sub.nodes) == nodes + [n] + sub.nodes;
    assert prefix + (arc + sub.path) == prefix + arc + sub.path;
  }

  /** Walks from the newest root along the key. The trie must hold keys of the key's length, as the
      proof format presupposes; on others the source follows missing children. */
  method GetProof(forest: F.Forest, rootHash: Digest, path: Bits) returns (proof: Option<TrieProof>)
    requires forest.Valid() && forest.Newest(rootHash) && path != []
    requires var i := F.LastWith(forest.tries, rootHash); i >= 0 ==> FixedRoot(forest.tries[i], |path|)
    ensures var i := F.LastWith(forest.tries, rootHash);
            proof == if i < 0 then None else Some(ProofOf(forest.tries[i], path))
  {
    var root := forest.FindRoot(rootHash);
    if root == null {
      return None;
    }
    var walked := Walk(root, path, forest.settled);
    proof := Some(walked);
  }

  /** The walk has collected nodes over the first i bits and stands at the subtrie at, which is Nil
      once it has left a root without keys. */
  ghost predicate Along(t: Trie, path: Bits, nodes: seq<ProofNode>, i: nat, at: Trie)
    requires path != [] && FixedRoot(t, |path|)
  {
    && i <= |path|
    && if t == EMPTY_ROOT then nodes == [] && (at.Node? ==> at == t && i == 0)
       else Suits(at, path[i..]) && ProofOf(t, path) == Prepend(nodes, path[..i], Prove(at, path[i..]))
  }

  lemma AlongStart(t: Trie, path: Bits)
    requires path != [] && FixedRoot(t, |path|)
    ensures Along(t, path, [], 0, t)
  {
    hide Prove, Canonical, FixedLength;
    assert path[0..] == path;
    if t != EMPTY_ROOT { PrependNothing(Prove(t, path), path); }
  }

  lemma PrependNothing(p: TrieProof, path: Bits)
    ensures Prepend([], path[..0], p) == p
  {
  }

  lemma AlongStep(t: Trie, path: Bits, nodes: seq<ProofNode>, i: nat, at: Trie)
    requires path != [] && FixedRoot(t, |path|) && Along(t, path, nodes, i, at) && at.Node? && at.path < path[i..]
    ensures var j := i + |at.path|;
            var child, sibling := Child(at, path[j]), Child(at, !path[j]);
            if child.Nil? then Along(t, path, nodes, j, child)
            else sibling.Node? && Along(t, path, nodes + [ProofNode(RootHash(sibling), |at.path|)], j + 1, child)
  {
    hide Prove, Canonical, FixedLength, RootHash, Prepend, ProofOf;
    if t != EMPTY_ROOT { PrependStep(nodes, path, i, at); }
  }

  lemma AlongEnd(t: Trie, path: Bits, nodes: seq<ProofNode>, i: nat, at: Trie)
    requires path != [] && FixedRoot(t, |path|) && Along(t, path, nodes, i, at) && !(at.Node? && at.path < path[i..])
    ensures at.Nil? ==> ProofOf(t, path) == TrieProof(nodes, path, NilSlice, NilSlice)
    ensures at.Node? ==>
              && i + |at.path| <= |path| && (!IsLeaf(at) ==> at.left.Node? && at.right.Node?)
              && ProofOf(t, path) ==
                 TrieProof(nodes + [ProofNode(RootHash(at), |at.path|)], path[..i] + at.path + path[i + |at.path|..],
                           if IsLeaf(at) then at.value else RootHash(at.left), if IsLeaf(at) then NilSlice else RootHash(at.right))
  {
    hide Prove, RootHash, FixedLength;
    if at.Node? { FinishSplices(path, i, at); }
  }

  method Walk(root: H.Node, path: Bits, ghost settled: set<H.Node>) returns (proof: TrieProof)
    requires H.Settled(settled, TrieNodeHash) && root in settled
    requires path != [] && FixedRoot(root.model, |path|)
    ensures proof == ProofOf(root.model, path)
  {
    hide H.Settled, RootHash, Along, ProofOf, IsRoot, FixedRoot;
    ghost var t := root.model;
    var current: H.Node?, nodes, p, currentPathLen := root, [], path, 0;
    assert path[0..] == path;
    AlongStart(t, path);
    while current != null && current.path <= p && |p| > |current.path|
      invariant 0 <= currentPathLen <= |path| && p == path[currentPathLen..]
      invariant current != null ==> current in settled
      invariant Along(t, path, nodes, currentPathLen, H.ModelOf(current))
      decreases H.ModelOf(current)
    {
      TrieCollapse.SettledParts(current, settled, TrieNodeHash);
      AlongStep(t, path, nodes, currentPathLen, current.model);
      p := p[|current.path|..];
      currentPathLen := currentPathLen + |current.path|;
      var parent := current;
      var sibling := parent.GetChild(!p[0]);
      current := parent.GetChild(p[0]);
      if current != null {
        SettledHash(sibling, settled);
        nodes := nodes + [ProofNode(sibling.hash, |parent.path|)];
        p := p[1..];
        currentPathLen := currentPathLen + 1;
      }
    }
    if current != null { TrieCollapse.SettledParts(current, settled, TrieNodeHash); }
    AlongEnd(t, path, nodes, currentPathLen, H.ModelOf(current));
    var proofPath, extraHashLeft, extraHashRight := path, NilSlice, NilSlice;
    if current != null {
      SettledHash(current, settled);
      nodes := nodes + [ProofNode(current.hash, |current.path|)];
      if !current.IsLeaf() {
        SettledHash(current.left, settled);
        SettledHash(current.right, settled);
        extraHashLeft, extraHashRight := current.left.hash, current.right.hash;
      } else {
        extraHashLeft := current.value;
      }
      proofPath := path[..currentPathLen] + current.path + path[currentPathLen + |current.path|..];
    }
    proof := TrieProof(nodes, proofPath, extraHashLeft, extraHashRight);
  }

  lemma SettledHash(n: H.Node, settled: set<H.Node>)
    requires H.Settled(settled, TrieNodeHash) && n in settled
    ensures n.model.Node? && n.hash == RootHash(n.model)
  {
    TrieCollapse.SettledParts(n, settled, TrieNodeHash);
  }

  lemma FinishSplices(path: Bits, i: nat, t: Trie)
    requires i <= |path| && Suits(t, path[i..]) && !(t.path < path[i..])
    ensures i + |t.path| <= |path| && (!IsLeaf(t) ==> t.left.Node? && t.right.Node?)
    ensures Prove(t, path[i..]) == Finish(t, path[i..])
    ensures path[..i] + Finish(t, path[i..]).path == path[..i] + t.path + path[i + |t.path|..]
  {
  }

  // ----- Verify -----

  /** Where the path of node k starts. */
  function Offset(nodes: seq<ProofNode>, k: nat): nat
    requires k <= |nodes|
  {
    if k == 0 then 0 else Offset(nodes, k - 1) + nodes[k - 1].prefixSize + 1
  }

  lemma {:induction false} OffsetSplits(nodes: seq<ProofNode>, k: nat)
    requires k < |nodes|
    ensures LastNodePathIndex(nodes) == Offset(nodes, k) + LastNodePathIndex(nodes[k..])
  {
    if k == 0 {
      assert nodes[0..] == nodes;
    } else {
      OffsetSplits(nodes, k - 1);
      assert nodes[k - 1..][1..] == nodes[k..];
    }
  }

  method CalculateLastNodePathIndex(proof: TrieProof) returns (index: nat)
    requires proof.nodes != []
    ensures index == LastNodePathIndex(proof.nodes)
  {
    index := 0;
    for i := 0 to |proof.nodes| - 1
      invariant index == Offset(proof.nodes, i)
    {
      index := index + proof.nodes[i].prefixSize + 1;
    }
    OffsetSplits(proof.nodes, |proof.nodes| - 1);
  }

  /** The root implied by the nodes from k on. */
  function ImpliedFrom(nodes: seq<ProofNode>, key: Bits, k: nat): Digest
    requires k < |nodes| && LastNodePathIndex(nodes) <= |key|
  {
    OffsetSplits(nodes, k);
    ImpliedRoot(nodes[k..], key[Offset(nodes, k)..])
  }

  /** One level up. */
  lemma ImpliedFromStep(nodes: seq<ProofNode>, key: Bits, k: nat)
    requires k + 1 < |nodes| && LastNodePathIndex(nodes) <= |key|
    ensures var start, end := Offset(nodes, k), Offset(nodes, k + 1) - 1;
            && 0 <= start <= end < |key| && end == start + nodes[k].prefixSize
            && ImpliedFrom(nodes, key, k) ==
               var below := ImpliedFrom(nodes, key, k + 1);
               if !key[end] then ShaInner(below, nodes[k].otherChildHash, key[start..end])
               else ShaInner(nodes[k].otherChildHash, below, key[start..end])
  {
    OffsetSplits(nodes, k);
    OffsetSplits(nodes, k + 1);
    var start, end := Offset(nodes, k), Offset(nodes, k + 1) - 1;
    assert nodes[k..][1..] == nodes[k + 1..];
    assert key[start..][end - start + 1..] == key[end + 1..];
    assert key[start..][..end - start] == key[start..end];
  }

  /** The last node alone, and all of them. */
  lemma ImpliedAtEnds(nodes: seq<ProofNode>, key: Bits)
    requires nodes != [] && LastNodePathIndex(nodes) <= |key|
    ensures var last := |nodes| - 1;
            && Offset(nodes, last) == LastNodePathIndex(nodes)
            && ImpliedFrom(nodes, key, last) == nodes[last].otherChildHash
            && ImpliedFrom(nodes, key, 0) == ImpliedRoot(nodes, key)
  {
    OffsetSplits(nodes, |nodes| - 1);
    assert nodes[0..] == nodes && key[0..] == key;
  }

  method ProofIsSelfConsistent(rootHash: Digest, proof: TrieProof, key: Bits, lastNodePathIndex: nat)
    returns (consistent: bool)
    requires proof.nodes != [] && KeyFits(proof.nodes, key) && lastNodePathIndex == LastNodePathIndex(proof.nodes)
    ensures consistent <==> ImpliedRoot(proof.nodes, key) == rootHash
  {
    hide ImpliedRoot, ImpliedFrom, LastNodePathIndex, Offset;
    var lastNodeIndex := |proof.nodes| - 1;
    var keyStartInd := lastNodePathIndex;
    var currentHash := proof.nodes[lastNodeIndex].otherChildHash;
    var i := lastNodeIndex - 1;
    ImpliedAtEnds(proof.nodes, key);
    while i >= 0
      invariant -1 <= i < lastNodeIndex
      invariant keyStartInd == Offset(proof.nodes, i + 1)
      invariant currentHash == ImpliedFrom(proof.nodes, key, i + 1)
    {
      ImpliedFromStep(proof.nodes, key, i);
      var keyEndInd := keyStartInd - 1;
      keyStartInd := keyEndInd - proof.nodes[i].prefixSize;
      if !key[keyEndInd] {
        currentHash := ShaInner(currentHash, proof.nodes[i].otherChildHash, key[keyStartInd..keyEndInd]);
      } else {
        currentHash := ShaInner(proof.nodes[i].otherChildHash, currentHash, key[keyStartInd..keyEndInd]);
      }
      i := i - 1;
    }
    consistent := currentHash == rootHash;
  }

  /** A proof on which the source indexes out of range is left out; any other gets the verdict of the checks. */
  method Verify(rootHash: Digest, proof: TrieProof, path: Bits, valueHash: Digest) returns (verdict: Verdict)
    requires InRange(rootHash, proof, path, valueHash)
    ensures verdict == Check(rootHash, proof, path, valueHash)
  {
    if proof.nodes == [] {
      return Verdict(valueHash == ZERO_VALUE);
    }
    var lastNodePathIndex := CalculateLastNodePathIndex(proof);
    var consistent := ProofIsSelfConsistent(rootHash, proof, path, lastNodePathIndex);
    if !consistent {
      return Inconsistent;
    }
    if valueHash != ZERO_VALUE {
      verdict := Verdict(proof.nodes[|proof.nodes| - 1].otherChildHash == ShaLeaf(valueHash, path[lastNodePathIndex..]));
    } else {
      verdict := VerifyProofExclusion(proof, path, lastNodePathIndex);
    }
  }

  method VerifyProofExclusion(proof: TrieProof, path: Bits, lastNodePathIndex: nat) returns (verdict: Verdict)
    requires proof.nodes != [] && KeyFits(proof.nodes, path) && lastNodePathIndex == LastNodePathIndex(proof.nodes)
    requires |proof.path| == |path| ==> PathFits(proof)
    ensures verdict == if |proof.path| != |path| then WrongLength else Verdict(Excludes(proof, path))
    ensures verdict == Verdict(true) <==>
            && |proof.path| == |path| && lastNodePathIndex < |path| && proof.path[..lastNodePathIndex] == path[..lastNodePathIndex]
            && var last := proof.nodes[|proof.nodes| - 1];
               var prefix := proof.path[lastNodePathIndex..lastNodePathIndex + last.prefixSize];
            && prefix != path[lastNodePathIndex..]
            && last.otherChildHash == if proof.extraHashRight == NilSlice then ShaLeaf(proof.extraHashLeft, prefix)
                                      else ShaInner(proof.extraHashLeft, proof.extraHashRight, prefix)
  {
    var pathLen := |proof.path|;
    if pathLen != |path| {
      return WrongLength;
    }
    var last := proof.nodes[|proof.nodes| - 1];
    var lastNodePrefix := proof.path[lastNodePathIndex..lastNodePathIndex + last.prefixSize];
    var calculatedHash;
    if proof.extraHashRight != NilSlice {
      calculatedHash := ShaInner(proof.extraHashLeft, proof.extraHashRight, lastNodePrefix);
    } else {
      calculatedHash := ShaLeaf(proof.extraHashLeft, lastNodePrefix);
    }
    var isHashEqual := last.otherChildHash == calculatedHash;
    var isBeginOfPathEqual := proof.path[..lastNodePathIndex] == path[..lastNodePathIndex];
    var isEndOfPathEqual := true;
    if lastNodePathIndex < pathLen {
      isEndOfPathEqual := lastNodePrefix == path[lastNodePathIndex..];
    }
    verdict := Verdict(isHashEqual && isBeginOfPathEqual && !isEndOfPathEqual);
  }

  /** The round trip through both operations: a proof obtained from a forest for a key of the
      right length is accepted by Verify for the value the trie holds and for no other. */
  method ProveThenVerify(forest: F.Forest, rootHash: Digest, path: Bits, valueHash: Digest)
    returns (verdict: Option<Verdict>)
    requires forest.Valid() && forest.Newest(rootHash) && path != []
    requires var i := F.LastWith(forest.tries, rootHash); i >= 0 ==> FixedRoot(forest.tries[i], |path|)
    ensures var i := F.LastWith(forest.tries, rootHash);
            verdict == if i < 0 then None else Some(Verdict(valueHash == Lookup(forest.tries[i], path)))
  {
    var proof := GetProof(forest, rootHash, path);
    if proof == None {
      return None;
    }
    ghost var t := forest.tries[F.LastWith(forest.tries, rootHash)];
    ProofIsExact(t, path, valueHash);
    var v := Verify(rootHash, proof.value, path, valueHash);
    verdict := Some(v);
  }
}
