/** collapseAndHash and its helpers: only the marked part of the trie is visited. */
module TrieCollapse {
  import opened Digests
  import T = Trie
  import opened CanonicalTrie
  import opened TrieHash
  import opened TrieHeap
  import opened TrieInsert

  /** Hash, value and links of a node of an earlier root have not changed. Its path is not part of this:
      in the source the array a path lies in can be shared with a node that a later update joins to its
      only child. */
  twostate predicate Untouched(nodes: set<Node>)
    reads nodes
  {
    forall n :: n in nodes ==>
      n.value == old(n.value) && n.hash == old(n.hash) && n.left == old(n.left) && n.right == old(n.right)
  }

  lemma SettledUnion(settled: set<Node>, a: set<Node>, b: set<Node>, f: Hasher)
    requires Settled(settled + a, f) && Settled(settled + b, f)
    ensures Settled(settled + a + b, f)
  {
    forall n | n in settled + a + b ensures SettledNode(n, settled + a + b, f) {
      assert n in settled + a || n in settled + b;
      assert SettledNode(n, settled + a, f) || SettledNode(n, settled + b, f);
    }
  }

  /** A node that is hashed over settled children is settled itself. */
  lemma SettledExtend(settled: set<Node>, n: Node, f: Hasher)
    requires Settled(settled, f)
    requires SettledNode(n, settled, f)
    ensures Settled(settled + {n}, f)
  {
    forall m | m in settled + {n} ensures SettledNode(m, settled + {n}, f) {
      assert SettledNode(m, settled, f);
    }
  }

  method HashNode(current: Node, f: Hasher, ghost settled: set<Node>)
    requires Settled(settled, f)
    requires SettledChild(current.left, settled) && SettledChild(current.right, settled)
    requires current.model == T.Node(current.path, current.value, ModelOf(current.left), ModelOf(current.right))
    modifies current`hash
    ensures current.hash == HashOf(f, current.model)
  {
    assert current.left != null ==> SettledNode(current.left, settled, f);
    assert current.right != null ==> SettledNode(current.right, settled, f);
    current.hash := f(current.value, current.path,
                      if current.left == null then None else Some(current.left.hash),
                      if current.right == null then None else Some(current.right.hash));
  }

  method CollapseOnlyChild(current: Node, onlyChild: bool, ghost settled: set<Node>, ghost f: Hasher)
    returns (result: Node)
    requires Settled(settled, f)
    requires current.GetChild(onlyChild) != null && SettledChild(current.GetChild(onlyChild), settled)
    ensures fresh(result)
    ensures SettledChild(result.left, settled) && SettledChild(result.right, settled)
    ensures result.model == T.Node(result.path, result.value, ModelOf(result.left), ModelOf(result.right))
    ensures current.GetChild(onlyChild).model.Node?
    ensures result.model == Merge(current.path, onlyChild, current.GetChild(onlyChild).model)
  {
    var child := current.GetChild(onlyChild);
    assert SettledNode(child, settled, f);
    var combinedPath := current.path + [onlyChild];
    combinedPath := combinedPath + child.path;
    result := child.Clone();
    result.path := combinedPath;
    result.model := result.model.(path := combinedPath);
  }

  /** The part of collapseAndHash that follows the visit to the children. */
  method CollapseHere(current: Node, f: Hasher, ghost settled: set<Node>)
    returns (result: Node?)
    requires Settled(settled, f)
    requires SettledChild(current.left, settled) && SettledChild(current.right, settled)
    requires current.model == T.Node(current.path, current.value, ModelOf(current.left), ModelOf(current.right))
    requires current in settled ==> SettledNode(current, settled, f)
    modifies current`hash
    ensures ModelOf(result) == CollapseNode(old(current.model))
    ensures result != null ==> result.model.Node? && (result == current || fresh(result))
    ensures result != null ==> Settled(settled + {result}, f)
    ensures Settled(settled, f)
    ensures current in settled ==> current.hash == old(current.hash)
  {
    result := current;
    if !current.HasValue() {
      if current.IsLeaf() {
        return null;
      } else if current.left != null && current.right == null {
        result := CollapseOnlyChild(current, false, settled, f);
      } else if current.left == null && current.right != null {
        result := CollapseOnlyChild(current, true, settled, f);
      }
    }
    HashNode(result, f, settled);
    assert Settled(settled, f);
    assert Canonical(result.model);
    assert SettledNode(result, settled, f);
    SettledExtend(settled, result, f);
  }

  /** An unmarked child is canonical already. */
  lemma UnmarkedChildFixed(c: Node?, settled: set<Node>)
    requires SettledChild(c, settled)
    ensures Collapse(ModelOf(c)) == ModelOf(c)
  {
    if c != null { CollapseFixpoint(c.model); }
  }

  method CollapseChild(current: Node, arc: bool, sandbox: Sandbox, f: Hasher, ghost settled: set<Node>)
    returns (ghost done: set<Node>)
    requires World(settled, sandbox.marks, f)
    requires current.model == T.Node(current.path, current.value, ModelOf(current.left), ModelOf(current.right))
    requires current !in settled && current.GetChild(arc) != null
    requires Owned(current.GetChild(arc), settled, sandbox.marks) && current !in current.GetChild(arc).repr
    modifies current, current.GetChild(arc).repr
    ensures done !! settled && current !in done && fresh(done - old(current.GetChild(arc).repr))
    ensures Settled(settled + done, f)
    ensures SettledChild(current.GetChild(arc), settled + done)
    ensures current.path == old(current.path) && current.value == old(current.value) && current.repr == old(current.repr)
    ensures current.GetChild(!arc) == old(current.GetChild(!arc))
    ensures current.model == T.WithChild(old(current.model), arc, Collapse(old(current.GetChild(arc).model)))
    ensures ModelOf(current.GetChild(arc)) == Collapse(old(current.GetChild(arc).model))
    decreases current.GetChild(arc).model, 3
  {
    hide Owned, Settled;
    OwnedParts(current.GetChild(arc), settled, sandbox.marks);
    var child;
    child, done := CollapseAndHash(current.GetChild(arc), sandbox, f, settled);
    CollapseCanonical(old(current.GetChild(arc).model));
    current.SetChild(arc, child);
  }

  method CollapseAndHash(current: Node, sandbox: Sandbox, f: Hasher, ghost settled: set<Node>)
    returns (result: Node?, ghost done: set<Node>)
    requires World(settled, sandbox.marks, f)
    requires current in settled || Owned(current, settled, sandbox.marks)
    modifies Footprint(current, settled), current`hash
    ensures ModelOf(result) == Collapse(old(current.model))
    ensures result != null ==> result in settled + done && result.model.Node?
    ensures done !! settled && fresh(done - old(Footprint(current, settled)))
    ensures Settled(settled + done, f) && Settled(settled, f)
    ensures current in settled ==> current.hash == old(current.hash)
    decreases current.model, 2
  {
    hide Owned, Settled;
    done := {};
    assert settled + done == settled;
    if current in settled {
      SettledParts(current, settled, f);
    } else {
      OwnedParts(current, settled, sandbox.marks);
    }
    if !current.IsLeaf() && current in sandbox.marks {
      done := CollapseDirtyChildren(current, sandbox, f, settled);
    } else {
      UnmarkedChildFixed(current.left, settled);
      UnmarkedChildFixed(current.right, settled);
    }
    result := CollapseHere(current, f, settled + done);
    if result != null && result !in settled {
      assert settled + done + {result} == settled + (done + {result});
      done := done + {result};
    }
  }

  lemma SettledParts(current: Node, settled: set<Node>, f: Hasher)
    requires Settled(settled, f) && current in settled
    ensures SettledNode(current, settled, f)
    ensures current.model == T.Node(current.path, current.value, ModelOf(current.left), ModelOf(current.right))
    ensures SettledChild(current.left, settled) && SettledChild(current.right, settled)
  {
  }

  method CollapseDirtyChildren(current: Node, sandbox: Sandbox, f: Hasher, ghost settled: set<Node>)
    returns (ghost done: set<Node>)
    requires World(settled, sandbox.marks, f) && Owned(current, settled, sandbox.marks)
    requires current in sandbox.marks
    modifies current.repr
    ensures done !! settled && current !in done && fresh(done - old(current.repr))
    ensures Settled(settled + done, f)
    ensures SettledChild(current.left, settled + done) && SettledChild(current.right, settled + done)
    ensures current.path == old(current.path) && current.value == old(current.value)
    ensures old(current.model).Node?
    ensures current.model == old(current.model).(left := Collapse(old(current.model).left), right := Collapse(old(current.model).right))
    ensures current.model == T.Node(current.path, current.value, ModelOf(current.left), ModelOf(current.right))
    decreases current.model, 1
  {
    hide Owned, Settled;
    OwnedParts(current, settled, sandbox.marks);
    ghost var doneLeft, doneRight := {}, {};
    assert settled + {} == settled;
    if sandbox.marks[current].left {
      doneLeft := CollapseChild(current, false, sandbox, f, settled);
    } else {
      UnmarkedChildFixed(current.left, settled);
    }
    if sandbox.marks[current].right {
      doneRight := CollapseChild(current, true, sandbox, f, settled);
    } else {
      UnmarkedChildFixed(current.right, settled);
    }
    SettledUnion(settled, doneLeft, doneRight, f);
    done := doneLeft + doneRight;
    assert settled + doneLeft + doneRight == settled + done;
  }
}
