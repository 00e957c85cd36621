/** The trie as the node keeps it: records with child pointers, shared between
    revisions, copied on the first write of an update and changed in place after that.

    A node's ghost field `model` is the value the pointers below it spell out. The nodes
    of earlier roots are the ghost set called `settled`; nothing here ever changes them.
    The nodes an update has created so far hang below its current root, each in exactly
    one place, in the `repr` of the nodes above it.
 */
module TrieHeap {
  import opened Digests
  import T = Trie
  import opened CanonicalTrie
  import opened TrieHash

  class Node {
    var path: Bits
    var value: Digest
    var hash: Digest
    var left: Node?
    var right: Node?
    ghost var model: T.Trie
    ghost var repr: set<Node>

    constructor (path: Bits, value: Digest)
      ensures this.path == path && this.value == value && hash == NilSlice
      ensures left == null && right == null
      ensures model == T.Leaf(path, value) && repr == {this}
    {
      this.path, this.value, this.hash := path, value, NilSlice;
      left, right := null, null;
      model := T.Leaf(path, value);
      repr := {this};
    }

    predicate HasValue() reads this { value != ZERO_VALUE }

    predicate IsLeaf() reads this { left == null && right == null }

    function GetChild(arc: bool): Node? reads this { if arc then right else left }

    method SetChild(arc: bool, child: Node?)
      requires model.Node?
      modifies this`left, this`right, this`model
      ensures GetChild(arc) == child && GetChild(!arc) == old(GetChild(!arc))
      ensures model == T.WithChild(old(model), arc, old(ModelOf(child)))
    {
      model := T.WithChild(model, arc, ModelOf(child));
      if !arc { left := child; } else { right := child; }
    }

    method Clone() returns (result: Node)
      ensures fresh(result) && result.repr == {result}
      ensures result.path == path && result.value == value && result.hash == NilSlice
      ensures result.left == left && result.right == right && result.model == model
    {
      result := new Node(path, value);
      result.left, result.right, result.model := left, right, model;
    }
  }

  ghost function ModelOf(n: Node?): T.Trie
    reads n
  {
    if n == null then T.Nil else n.model
  }

  // ----- the sandbox of an update -----

  datatype DirtyNode = DirtyNode(left: bool, right: bool)

  type Marks = map<Node?, DirtyNode>

  class Sandbox {
    var marks: Marks

    constructor ()
      ensures marks == map[]
    {
      marks := map[];
    }

    method Init(node: Node?)
      modifies this
      ensures marks == old(marks)[node := DirtyNode(false, false)]
    {
      marks := marks[node := DirtyNode(false, false)];
    }

    method Set(node: Node?, arc: bool)
      modifies this
      ensures node in marks && Flagged(marks, node, arc)
      ensures Flagged(marks, node, !arc) == Flagged(old(marks), node, !arc)
      ensures marks.Keys == old(marks).Keys + {node}
      ensures forall m :: m in old(marks) && m != node ==> marks[m] == old(marks)[m]
    {
      if node !in marks { Init(node); }
      if !arc {
        marks := marks[node := marks[node].(left := true)];
      } else {
        marks := marks[node := marks[node].(right := true)];
      }
    }
  }

  predicate Flagged(marks: Marks, node: Node?, arc: bool)
  {
    node in marks && if arc then marks[node].right else marks[node].left
  }

  /** The marks of every node in nodes are the same in both. */
  ghost predicate SameMarks(nodes: set<Node>, before: Marks, after: Marks)
  {
    forall m :: m in nodes ==> (m in before <==> m in after) && (m in before ==> before[m] == after[m])
  }

  // ----- settled nodes -----

  /** A node of an earlier root: it is hashed, its subtries are canonical, and all of it
      lies within settled. */
  ghost predicate SettledNode(n: Node, settled: set<Node>, f: Hasher)
    reads n, settled
  {
    && SettledChild(n.left, settled)
    && SettledChild(n.right, settled)
    && n.model == T.Node(n.path, n.value, ModelOf(n.left), ModelOf(n.right))
    && n.hash == HashOf(f, n.model)
    && IsRoot(n.model)
  }

  ghost predicate Settled(settled: set<Node>, f: Hasher)
    reads settled
  {
    forall n :: n in settled ==> SettledNode(n, settled, f)
  }

  lemma NoneSettled(f: Hasher)
    ensures Settled({}, f)
  {
  }

  // ----- nodes of the update in progress -----

  ghost predicate SettledChild(c: Node?, settled: set<Node>)
    reads settled
  {
    c != null ==> c in settled && c.model.Node? && Canonical(c.model)
  }

  /** A flagged child belongs to the update; any other child is settled. */
  ghost predicate Placed(n: Node, c: Node?, flagged: bool, settled: set<Node>)
    requires n in n.repr
    reads n, n.repr, settled
  {
    if flagged then c != null && c in n.repr && c.repr <= n.repr - {n}
    else SettledChild(c, settled)
  }

  ghost predicate Owned(n: Node, settled: set<Node>, marks: Marks)
    reads n, n.repr, settled
    decreases n.repr
  {
    && n in n.repr && n.repr !! settled
    && Placed(n, n.left, Flagged(marks, n, false), settled)
    && Placed(n, n.right, Flagged(marks, n, true), settled)
    && n.model == T.Node(n.path, n.value, ModelOf(n.left), ModelOf(n.right))
    && (Flagged(marks, n, false) ==> Owned(n.left, settled, marks))
    && (Flagged(marks, n, true) ==> Owned(n.right, settled, marks))
    && (Flagged(marks, n, false) && Flagged(marks, n, true) ==> n.left.repr !! n.right.repr)
  }

  lemma {:induction false} OwnedMarks(n: Node, settled: set<Node>, before: Marks, after: Marks)
    requires Owned(n, settled, before) && SameMarks(n.repr, before, after)
    ensures Owned(n, settled, after)
    decreases n.repr
  {
    if Flagged(before, n, false) { OwnedMarks(n.left, settled, before, after); }
    if Flagged(before, n, true) { OwnedMarks(n.right, settled, before, after); }
  }

  lemma OwnedParts(n: Node, settled: set<Node>, marks: Marks)
    requires Owned(n, settled, marks)
    ensures n in n.repr && n.repr !! settled
    ensures n.model == T.Node(n.path, n.value, ModelOf(n.left), ModelOf(n.right))
    ensures Placed(n, n.left, Flagged(marks, n, false), settled)
    ensures Placed(n, n.right, Flagged(marks, n, true), settled)
    ensures Flagged(marks, n, false) ==> Owned(n.left, settled, marks)
    ensures Flagged(marks, n, true) ==> Owned(n.right, settled, marks)
    ensures Flagged(marks, n, false) && Flagged(marks, n, true) ==> n.left.repr !! n.right.repr
  {
  }
}
