/** insert and its helpers, in place, with copy on the first write. */
module TrieInsert {
  import opened Digests
  import T = Trie
  import opened CanonicalTrie
  import opened TrieHash
  import opened TrieHeap

  /** The nodes an operation on n may change: none when n is settled. */
  ghost function Footprint(n: Node, settled: set<Node>): set<Node>
    reads n
  {
    if n in settled then {} else n.repr
  }

  ghost predicate MarksOutside(marks: Marks, settled: set<Node>)
  {
    forall m :: m in settled ==> m !in marks
  }

  /** What holds of everything but the trie being changed, throughout an update. */
  ghost predicate World(settled: set<Node>, marks: Marks, f: Hasher)
    reads settled
  {
    Settled(settled, f) && MarksOutside(marks, settled)
  }

  /** Marks outside touched are kept, and new ones belong to touched or new nodes. */
  twostate predicate MarksFramed(before: Marks, new after: Marks, touched: set<Node?>)
  {
    && (forall m :: m in before && m !in touched ==> m in after && after[m] == before[m])
    && (forall m :: m in after && m !in before && m !in touched ==> fresh(m))
  }

  lemma UnmarkedChildren(n: Node, settled: set<Node>, marks: Marks, f: Hasher)
    requires World(settled, marks, f) && (n in settled || Owned(n, settled, marks)) && n !in marks
    ensures SettledChild(n.left, settled) && SettledChild(n.right, settled)
    ensures n.model == T.Node(n.path, n.value, ModelOf(n.left), ModelOf(n.right))
  {
  }

  lemma ShallowOwned(n: Node, settled: set<Node>, marks: Marks)
    requires n.repr == {n} && n !in settled
    requires !Flagged(marks, n, false) && !Flagged(marks, n, true)
    requires SettledChild(n.left, settled) && SettledChild(n.right, settled)
    requires n.model == T.Node(n.path, n.value, ModelOf(n.left), ModelOf(n.right))
    ensures Owned(n, settled, marks)
  {
  }

  method GetOrClone(current: Node, parent: Node?, arc: bool, sandbox: Sandbox,
                    ghost settled: set<Node>, ghost f: Hasher)
    returns (actual: Node)
    requires World(settled, sandbox.marks, f)
    requires current in settled || Owned(current, settled, sandbox.marks)
    requires current in sandbox.marks ==> Flagged(sandbox.marks, parent, arc)
    requires parent != null ==> parent !in settled && parent !in Footprint(current, settled)
    modifies sandbox
    ensures World(settled, sandbox.marks, f) && Owned(actual, settled, sandbox.marks)
    ensures actual in sandbox.marks && Flagged(sandbox.marks, parent, arc)
    ensures Flagged(sandbox.marks, parent, !arc) == Flagged(old(sandbox.marks), parent, !arc)
    ensures actual.model == current.model
    ensures fresh(actual.repr - Footprint(current, settled))
    ensures MarksFramed(old(sandbox.marks), sandbox.marks, Footprint(current, settled) + {parent})
  {
    hide Owned, Settled;
    if current in sandbox.marks {
      actual := current;
    } else {
      UnmarkedChildren(current, settled, sandbox.marks, f);
      actual := current.Clone();
      sandbox.Init(actual);
      sandbox.Set(parent, arc);
      ShallowOwned(actual, settled, sandbox.marks);
    }
  }

  /** The other child of n is either part of the update, apart from child, or settled. */
  ghost predicate SiblingFits(n: Node, s: Node?, flagged: bool, child: Node, settled: set<Node>, marks: Marks)
    reads n, child, settled, s, if s == null then {} else s.repr
  {
    if flagged then s != null && Owned(s, settled, marks) && n !in s.repr && s.repr !! child.repr
    else SettledChild(s, settled)
  }

  lemma OwnedFromParts(n: Node, settled: set<Node>, marks: Marks)
    requires n in n.repr && n.repr !! settled
    requires Placed(n, n.left, Flagged(marks, n, false), settled)
    requires Placed(n, n.right, Flagged(marks, n, true), settled)
    requires n.model == T.Node(n.path, n.value, ModelOf(n.left), ModelOf(n.right))
    requires Flagged(marks, n, false) ==> Owned(n.left, settled, marks)
    requires Flagged(marks, n, true) ==> Owned(n.right, settled, marks)
    requires Flagged(marks, n, false) && Flagged(marks, n, true) ==> n.left.repr !! n.right.repr
    ensures Owned(n, settled, marks)
  {
  }

  /** Links child, which belongs to the update, below current. */
  method Attach(current: Node, arc: bool, child: Node, ghost settled: set<Node>, ghost marks: Marks)
    requires current !in settled && Owned(child, settled, marks) && current !in child.repr
    requires Flagged(marks, current, arc)
    requires SiblingFits(current, current.GetChild(!arc), Flagged(marks, current, !arc), child, settled, marks)
    requires current.model.Node? && current.model.path == current.path && current.model.value == current.value
    requires T.Child(current.model, !arc) == ModelOf(current.GetChild(!arc))
    modifies current
    ensures Owned(current, settled, marks)
    ensures current.model == T.WithChild(old(current.model), arc, old(child.model))
    ensures current.repr == {current} + old(child.repr) +
                            if Flagged(marks, current, !arc) then old(current.GetChild(!arc).repr) else {}
    ensures current.path == old(current.path) && current.value == old(current.value)
    ensures current.GetChild(!arc) == old(current.GetChild(!arc))
  {
    ghost var sibling := current.GetChild(!arc);
    OwnedParts(child, settled, marks);
    if Flagged(marks, current, !arc) { OwnedParts(sibling, settled, marks); }
    hide Owned;
    current.repr := {current} + child.repr + if Flagged(marks, current, !arc) then sibling.repr else {};
    current.SetChild(arc, child);
    assert Owned(child, settled, marks);
    assert Flagged(marks, current, !arc) ==> Owned(sibling, settled, marks);
    OwnedFromParts(current, settled, marks);
  }

  /** The child of an owned node: ready to be updated on behalf of that node. */
  lemma ChildReady(n: Node, arc: bool, settled: set<Node>, marks: Marks, f: Hasher)
    requires World(settled, marks, f) && Owned(n, settled, marks)
    requires n.GetChild(arc) != null
    ensures n.GetChild(arc) in settled || Owned(n.GetChild(arc), settled, marks)
    ensures n !in settled && n !in Footprint(n.GetChild(arc), settled)
    ensures Footprint(n.GetChild(arc), settled) <= n.repr
    ensures n.GetChild(arc) in marks ==> Flagged(marks, n, arc)
    ensures n.GetChild(arc).model == T.Child(n.model, arc) && n.model.Node?
  {
  }

  lemma SiblingApart(n: Node, arc: bool, settled: set<Node>, marks: Marks)
    requires Owned(n, settled, marks)
    ensures n in n.repr && n.repr !! settled
    ensures n.model.Node? && T.Child(n.model, !arc) == ModelOf(n.GetChild(!arc))
    ensures n.model.path == n.path && n.model.value == n.value
    ensures if Flagged(marks, n, !arc)
            then
              var s := n.GetChild(!arc);
              && s != null && s in n.repr && Owned(s, settled, marks) && n !in s.repr && s.repr <= n.repr
              && (n.GetChild(arc) != null ==> Footprint(n.GetChild(arc), settled) !! s.repr)
            else SettledChild(n.GetChild(!arc), settled)
  {
  }

  method InsertIntoChild(current: Node, arc: bool, rest: Bits, valueHash: Digest, sandbox: Sandbox,
                         ghost settled: set<Node>, ghost f: Hasher)
    requires World(settled, sandbox.marks, f) && Owned(current, settled, sandbox.marks)
    requires current in sandbox.marks && current.GetChild(arc) != null
    modifies sandbox, current.repr
    ensures World(settled, sandbox.marks, f) && Owned(current, settled, sandbox.marks)
    ensures current in sandbox.marks
    ensures old(current.GetChild(arc).model).Node? && old(current.model).Node?
    ensures current.model == T.WithChild(old(current.model), arc, T.Insert(old(current.GetChild(arc).model), rest, valueHash))
    ensures fresh(current.repr - old(current.repr))
    ensures MarksFramed(old(sandbox.marks), sandbox.marks, old(current.repr))
    decreases current.model, 0, 0
  {
    hide Owned, Settled, T.Insert;
    ghost var sibling, before := current.GetChild(!arc), sandbox.marks;
    ChildReady(current, arc, settled, sandbox.marks, f);
    SiblingApart(current, arc, settled, sandbox.marks);
    var child := Insert(valueHash, current, arc, current.GetChild(arc), rest, sandbox, settled, f);
    assert SiblingFits(current, sibling, Flagged(before, current, !arc), child, settled, before);
    assert Flagged(before, current, !arc) ==> SameMarks(sibling.repr, before, sandbox.marks);
    assert fresh(child.repr - old(current.repr));
    Reattach(current, arc, child, settled, before, sandbox.marks);
  }

  /** Attach, when the marks below the other child are as they were. */
  method Reattach(current: Node, arc: bool, child: Node, ghost settled: set<Node>, ghost before: Marks, ghost marks: Marks)
    requires current !in settled && Owned(child, settled, marks) && current !in child.repr
    requires Flagged(marks, current, arc) && Flagged(marks, current, !arc) == Flagged(before, current, !arc)
    requires SiblingFits(current, current.GetChild(!arc), Flagged(before, current, !arc), child, settled, before)
    requires Flagged(before, current, !arc) ==> SameMarks(current.GetChild(!arc).repr, before, marks)
    requires current.model.Node? && current.model.path == current.path && current.model.value == current.value
    requires T.Child(current.model, !arc) == ModelOf(current.GetChild(!arc))
    modifies current
    ensures Owned(current, settled, marks)
    ensures current.model == T.WithChild(old(current.model), arc, old(child.model))
    ensures current.repr == {current} + old(child.repr) +
                            if Flagged(marks, current, !arc) then old(current.GetChild(!arc).repr) else {}
  {
    if Flagged(before, current, !arc) {
      OwnedMarks(current.GetChild(!arc), settled, before, marks);
    }
    Attach(current, arc, child, settled, marks);
  }

  method Insert(valueHash: Digest, parent: Node?, arc: bool, current: Node, path: Bits, sandbox: Sandbox,
                ghost settled: set<Node>, ghost f: Hasher)
    returns (result: Node)
    requires World(settled, sandbox.marks, f)
    requires current in settled || Owned(current, settled, sandbox.marks)
    requires current in sandbox.marks ==> Flagged(sandbox.marks, parent, arc)
    requires parent != null ==> parent !in settled && parent !in Footprint(current, settled)
    modifies sandbox, Footprint(current, settled)
    ensures World(settled, sandbox.marks, f) && Owned(result, settled, sandbox.marks)
    ensures Flagged(sandbox.marks, parent, arc)
    ensures Flagged(sandbox.marks, parent, !arc) == Flagged(old(sandbox.marks), parent, !arc)
    ensures old(current.model).Node? && result.model == T.Insert(old(current.model), path, valueHash)
    ensures fresh(result.repr - old(Footprint(current, settled)))
    ensures MarksFramed(old(sandbox.marks), sandbox.marks, old(Footprint(current, settled)) + {parent})
    decreases current.model, 2, 0
  {
    hide Owned, Settled;
    var actual := GetOrClone(current, parent, arc, sandbox, settled, f);
    result := InsertOwned(valueHash, actual, path, sandbox, settled, f);
  }

  /** insert, once the current node is known to belong to the update. */
  method InsertOwned(valueHash: Digest, current: Node, path: Bits, sandbox: Sandbox,
                     ghost settled: set<Node>, ghost f: Hasher)
    returns (result: Node)
    requires World(settled, sandbox.marks, f) && Owned(current, settled, sandbox.marks)
    requires current in sandbox.marks
    modifies sandbox, current.repr
    ensures World(settled, sandbox.marks, f) && Owned(result, settled, sandbox.marks)
    ensures old(current.model).Node? && result.model == T.Insert(old(current.model), path, valueHash)
    ensures fresh(result.repr - old(current.repr))
    ensures MarksFramed(old(sandbox.marks), sandbox.marks, old(current.repr))
    decreases current.model, 1, 0
  {
    hide Owned, Settled;
    OwnedParts(current, settled, sandbox.marks);
    if current.path == path {
      SetValue(current, valueHash, settled, sandbox.marks);
      result := current;
    } else if current.path <= path {
      result := UpdateOrCreateChild(current, path, valueHash, sandbox, settled, f);
    } else if path <= current.path {
      result := CreateParent(current, path, valueHash, sandbox, settled, f);
    } else {
      result := CreateParentAndSibling(current, path, valueHash, sandbox, settled, f);
    }
  }

  method SetValue(current: Node, valueHash: Digest, ghost settled: set<Node>, ghost marks: Marks)
    requires Owned(current, settled, marks)
    modifies current`value, current`model
    ensures Owned(current, settled, marks)
    ensures old(current.model).Node? && current.model == old(current.model).(value := valueHash)
  {
    current.value := valueHash;
    current.model := current.model.(value := valueHash);
  }

  method SetPath(current: Node, path: Bits, ghost settled: set<Node>, ghost marks: Marks)
    requires Owned(current, settled, marks)
    modifies current`path, current`model
    ensures Owned(current, settled, marks)
    ensures old(current.model).Node? && current.model == old(current.model).(path := path)
  {
    current.path := path;
    current.model := current.model.(path := path);
  }

  method UpdateOrCreateChild(current: Node, path: Bits, valueHash: Digest, sandbox: Sandbox,
                             ghost settled: set<Node>, ghost f: Hasher)
    returns (result: Node)
    requires World(settled, sandbox.marks, f) && Owned(current, settled, sandbox.marks)
    requires current in sandbox.marks && current.path < path
    modifies sandbox, current.repr
    ensures World(settled, sandbox.marks, f) && Owned(result, settled, sandbox.marks)
    ensures old(current.model).Node? && old(current.model).path < path
    ensures result.model == T.InsertBelow(old(current.model), path, valueHash)
    ensures fresh(result.repr - old(current.repr))
    ensures MarksFramed(old(sandbox.marks), sandbox.marks, old(current.repr))
    decreases current.model, 0, 2
  {
    hide Owned, Settled, T.Insert, MarksOutside;
    OwnedParts(current, settled, sandbox.marks);
    if !current.HasValue() && current.IsLeaf() {
      SetPath(current, path, settled, sandbox.marks);
      SetValue(current, valueHash, settled, sandbox.marks);
    } else {
      var childArc, childPath := path[|current.path|], path[|current.path| + 1..];
      UpdateChild(current, childArc, childPath, valueHash, sandbox, settled, f);
    }
    result := current;
  }

  /** The trie with the value inserted below the child that arc selects. */
  ghost function ChildUpdated(t: T.Trie, arc: bool, rest: Bits, value: Digest): T.Trie
    requires t.Node?
  {
    if T.Child(t, arc).Node? then T.WithChild(t, arc, T.Insert(T.Child(t, arc), rest, value))
    else if value == ZERO_VALUE then t
    else T.WithChild(t, arc, T.Leaf(rest, value))
  }

  method UpdateChild(current: Node, arc: bool, rest: Bits, valueHash: Digest, sandbox: Sandbox,
                     ghost settled: set<Node>, ghost f: Hasher)
    requires World(settled, sandbox.marks, f) && Owned(current, settled, sandbox.marks)
    requires current in sandbox.marks
    modifies sandbox, current.repr
    ensures World(settled, sandbox.marks, f) && Owned(current, settled, sandbox.marks)
    ensures old(current.model).Node? && current.model == ChildUpdated(old(current.model), arc, rest, valueHash)
    ensures fresh(current.repr - old(current.repr))
    ensures MarksFramed(old(sandbox.marks), sandbox.marks, old(current.repr))
    decreases current.model, 0, 1
  {
    hide Owned, Settled, T.Insert, MarksOutside;
    SiblingApart(current, !arc, settled, sandbox.marks);
    if current.GetChild(arc) != null {
      ChildReady(current, arc, settled, sandbox.marks, f);
      InsertIntoChild(current, arc, rest, valueHash, sandbox, settled, f);
    } else if valueHash == ZERO_VALUE {
    } else {
      CreateChild(current, arc, rest, valueHash, sandbox, settled, f);
    }
  }

  method CreateChild(current: Node, arc: bool, path: Bits, valueHash: Digest, sandbox: Sandbox,
                     ghost settled: set<Node>, ghost f: Hasher)
    requires World(settled, sandbox.marks, f) && Owned(current, settled, sandbox.marks)
    requires current in sandbox.marks && current.GetChild(arc) == null
    modifies sandbox, current.repr
    ensures World(settled, sandbox.marks, f) && Owned(current, settled, sandbox.marks)
    ensures old(current.model).Node?
    ensures current.model == T.WithChild(old(current.model), arc, T.Leaf(path, valueHash))
    ensures fresh(current.repr - old(current.repr))
    ensures MarksFramed(old(sandbox.marks), sandbox.marks, old(current.repr))
  {
    hide Owned, Settled;
    ghost var before := sandbox.marks;
    SiblingApart(current, arc, settled, sandbox.marks);
    var newChild := new Node(path, valueHash);
    sandbox.Set(current, arc);
    ShallowOwned(newChild, settled, sandbox.marks);
    Reattach(current, arc, newChild, settled, before, sandbox.marks);
  }

  /** A new node with the key as its path takes the place of current, which moves below it. */
  method CreateParent(current: Node, path: Bits, valueHash: Digest, sandbox: Sandbox,
                      ghost settled: set<Node>, ghost f: Hasher)
    returns (newParent: Node)
    requires World(settled, sandbox.marks, f) && Owned(current, settled, sandbox.marks)
    requires path < current.path
    modifies sandbox, current
    ensures World(settled, sandbox.marks, f) && Owned(newParent, settled, sandbox.marks)
    ensures old(current.model).Node? && path < old(current.model).path
    ensures newParent.model == T.InsertParent(old(current.model), path, valueHash)
    ensures fresh(newParent.repr - old(current.repr))
    ensures MarksFramed(old(sandbox.marks), sandbox.marks, old(current.repr))
  {
    hide Owned, Settled;
    OwnedParts(current, settled, sandbox.marks);
    var childArc := current.path[|path|];
    newParent := new Node(path, valueHash);
    PutBelow(newParent, childArc, current, current.path[|path| + 1..], sandbox, settled, f);
  }

  /** Links current, with its shortened path, below the new node newParent. */
  method PutBelow(newParent: Node, arc: bool, current: Node, rest: Bits, sandbox: Sandbox,
                  ghost settled: set<Node>, ghost f: Hasher)
    requires World(settled, sandbox.marks, f) && Owned(current, settled, sandbox.marks)
    requires newParent !in settled && newParent !in current.repr && newParent !in sandbox.marks
    requires newParent.left == null && newParent.right == null
    requires newParent.model == T.Leaf(newParent.path, newParent.value)
    modifies sandbox, current, newParent
    ensures World(settled, sandbox.marks, f) && Owned(newParent, settled, sandbox.marks)
    ensures old(current.model).Node? && newParent.GetChild(!arc) == null && newParent in sandbox.marks
    ensures newParent.model == T.WithChild(old(newParent.model), arc, old(current.model).(path := rest))
    ensures newParent.repr == {newParent} + old(current.repr)
    ensures newParent.path == old(newParent.path) && newParent.value == old(newParent.value)
    ensures sandbox.marks.Keys == old(sandbox.marks).Keys + {newParent}
    ensures forall m :: m in old(sandbox.marks) ==> sandbox.marks[m] == old(sandbox.marks)[m]
  {
    hide Owned, Settled;
    ghost var before := sandbox.marks;
    sandbox.Set(newParent, arc);
    SetPath(current, rest, settled, before);
    OwnedMarks(current, settled, before, sandbox.marks);
    Attach(newParent, arc, current, settled, sandbox.marks);
  }

  method CreateParentAndSibling(current: Node, path: Bits, valueHash: Digest, sandbox: Sandbox,
                                ghost settled: set<Node>, ghost f: Hasher)
    returns (newParent: Node)
    requires World(settled, sandbox.marks, f) && Owned(current, settled, sandbox.marks)
    requires !(current.path <= path) && !(path <= current.path)
    modifies sandbox, current.repr
    ensures World(settled, sandbox.marks, f) && Owned(newParent, settled, sandbox.marks)
    ensures old(current.model).Node? && !(old(current.model).path <= path) && !(path <= old(current.model).path)
    ensures newParent.model == T.InsertSibling(old(current.model), path, valueHash)
    ensures fresh(newParent.repr - old(current.repr))
    ensures MarksFramed(old(sandbox.marks), sandbox.marks, old(current.repr))
  {
    hide Owned, Settled, T.CommonLength, T.Insert, MarksOutside;
    OwnedParts(current, settled, sandbox.marks);
    var i := LastCommonPathIndex(current, path);
    newParent := new Node(path[..i], ZERO_VALUE);
    PutBelow(newParent, current.path[i], current, current.path[i + 1..], sandbox, settled, f);
    CreateChild(newParent, path[i], path[i + 1..], valueHash, sandbox, settled, f);
  }

  method LastCommonPathIndex(current: Node, path: Bits) returns (i: nat)
    ensures i == T.CommonLength(current.path, path)
  {
    i := 0;
    while i < |current.path| && i < |path| && current.path[i] == path[i]
      invariant i <= |current.path| && i <= |path|
      invariant T.CommonLength(current.path, path) == i + T.CommonLength(current.path[i..], path[i..])
    {
      assert current.path[i..][1..] == current.path[i + 1..];
      assert path[i..][1..] == path[i + 1..];
      i := i + 1;
    }
  }
}
