/** The trie with its paths as the source keeps them: slices of the arrays of keys, which nodes share. Joining
    a node to its only child appends to a slice, which writes behind it wherever its array has room. The
    tries of the other modules have paths as values; here is why that is right for the root made last,
    whatever the lengths of keys, and where it fails for an older one.
 */
module SlicedTries {
  import opened Basics
  import opened Digests
  import T = Trie
  import C = CanonicalTrie
  import P = SharedPaths

  /** An array of bits. The depth, which proofs alone look at, is where in the trie its first bit lies: zero
      for the array of a key. */
  datatype Cells = Cells(depth: nat, bits: Bits)

  type Memory = seq<Cells>

  /** A slice of an array; its capacity goes to the end of the array. */
  datatype Slice = Slice(arr: nat, lo: nat, len: nat)

  datatype Sliced = Nil | Node(path: Slice, value: Digest, left: Sliced, right: Sliced)

  function Leaf(path: Slice, value: Digest): Sliced { Node(path, value, Nil, Nil) }

  function Child(t: Sliced, arc: bool): Sliced
    requires t.Node?
  {
    if arc then t.right else t.left
  }

  function WithChild(t: Sliced, arc: bool, child: Sliced): Sliced
    requires t.Node?
  {
    if arc then t.(right := child) else t.(left := child)
  }

  /** The slice lies in its array, and starts at depth d. */
  predicate At(mem: Memory, s: Slice, d: nat)
  {
    s.arr < |mem| && mem[s.arr].depth + s.lo == d && s.lo + s.len <= |mem[s.arr].bits|
  }

  function Contents(mem: Memory, s: Slice): Bits
    requires s.arr < |mem| && s.lo + s.len <= |mem[s.arr].bits|
  {
    mem[s.arr].bits[s.lo..s.lo + s.len]
  }

  /** Every path of a trie below depth d lies in its array at the depth it has in the trie. */
  predicate Placed(mem: Memory, t: Sliced, d: nat)
  {
    t.Node? ==>
      && At(mem, t.path, d)
      && Placed(mem, t.left, d + t.path.len + 1)
      && Placed(mem, t.right, d + t.path.len + 1)
  }

  /** The trie with its paths as they are in memory. */
  function Read(mem: Memory, t: Sliced, d: nat): (r: T.Trie)
    requires Placed(mem, t, d)
    ensures r.Nil? <==> t.Nil?
  {
    if t.Nil? then T.Nil
    else
      T.Node(Contents(mem, t.path), t.value, Read(mem, t.left, d + t.path.len + 1), Read(mem, t.right, d + t.path.len + 1))
  }

  function Arrays(t: Sliced): set<nat>
  {
    if t.Nil? then {} else {t.path.arr} + Arrays(t.left) + Arrays(t.right)
  }

  /** Nodes with paths in one array are above each other. */
  predicate Apart(t: Sliced)
  {
    t.Node? ==> Arrays(t.left) !! Arrays(t.right) && Apart(t.left) && Apart(t.right)
  }

  lemma {:induction false} ArraysPlaced(mem: Memory, t: Sliced, d: nat)
    requires Placed(mem, t, d)
    ensures forall x | x in Arrays(t) :: x < |mem|
    decreases t
  {
    if t.Node? {
      ArraysPlaced(mem, t.left, d + t.path.len + 1);
      ArraysPlaced(mem, t.right, d + t.path.len + 1);
    }
  }

  // ----- memory after some writes -----

  /** No array has gone or changed its size. */
  predicate Grown(mem: Memory, mem': Memory)
  {
    |mem| <= |mem'| && forall x | 0 <= x < |mem| :: mem'[x].depth == mem[x].depth && |mem'[x].bits| == |mem[x].bits|
  }

  lemma {:induction false} StaysPlaced(mem: Memory, mem': Memory, t: Sliced, d: nat)
    requires Grown(mem, mem') && Placed(mem, t, d)
    ensures Placed(mem', t, d)
    decreases t
  {
    if t.Node? {
      StaysPlaced(mem, mem', t.left, d + t.path.len + 1);
      StaysPlaced(mem, mem', t.right, d + t.path.len + 1);
    }
  }

  /** The arrays have the bits they had from depth d on. */
  predicate KeptFrom(mem: Memory, mem': Memory, xs: set<nat>, d: nat)
    requires Grown(mem, mem')
  {
    forall x, p | x in xs && 0 <= x < |mem| && 0 <= p < |mem[x].bits| && mem[x].depth + p >= d :: mem'[x].bits[p] == mem[x].bits[p]
  }

  /** All arrays have the bits they had before depth d. */
  predicate KeptBefore(mem: Memory, mem': Memory, d: nat)
    requires Grown(mem, mem')
  {
    forall x, p | 0 <= x < |mem| && 0 <= p < |mem[x].bits| && mem[x].depth + p < d :: mem'[x].bits[p] == mem[x].bits[p]
  }

  predicate KeptOutside(mem: Memory, mem': Memory, xs: set<nat>)
    requires Grown(mem, mem')
  {
    forall x | 0 <= x < |mem| && x !in xs :: mem'[x] == mem[x]
  }

  /** A trie reads the same when its arrays are kept from its depth on. */
  lemma {:induction false} ReadKept(mem: Memory, mem': Memory, t: Sliced, d: nat, xs: set<nat>)
    requires Grown(mem, mem') && Placed(mem, t, d) && Arrays(t) <= xs && KeptFrom(mem, mem', xs, d)
    ensures Placed(mem', t, d) && Read(mem', t, d) == Read(mem, t, d)
    decreases t
  {
    if t.Node? {
      var below := d + t.path.len + 1;
      assert KeptFrom(mem, mem', xs, below);
      ReadKept(mem, mem', t.left, below, xs);
      ReadKept(mem, mem', t.right, below, xs);
      assert Contents(mem', t.path) == Contents(mem, t.path);
    }
  }

  // ----- insertion takes slices of the array of its key, and writes to none -----

  predicate IsKey(mem: Memory, key: nat) { key < |mem| && mem[key].depth == 0 }

  function Tail(t: Sliced, n: nat): Sliced
    requires t.Node? && n <= t.path.len
  {
    t.(path := Slice(t.path.arr, t.path.lo + n, t.path.len - n))
  }

  /** The rest of the key from depth d on. */
  function Rest(mem: Memory, key: nat, d: nat): Bits
    requires IsKey(mem, key) && d <= |mem[key].bits|
  {
    mem[key].bits[d..]
  }

  function Insert(mem: Memory, t: Sliced, d: nat, key: nat, value: Digest): (r: Sliced)
    requires t.Node? && Placed(mem, t, d) && IsKey(mem, key) && d <= |mem[key].bits|
    ensures r.Node? && Placed(mem, r, d)
    decreases t, 1
  {
    var p, k := Contents(mem, t.path), Rest(mem, key, d);
    if p == k then t.(value := value)
    else if p <= k then InsertBelow(mem, t, d, key, value)
    else if k <= p then InsertParent(mem, t, d, key, value)
    else InsertSibling(mem, t, d, key, value)
  }

  function InsertBelow(mem: Memory, t: Sliced, d: nat, key: nat, value: Digest): (r: Sliced)
    requires t.Node? && Placed(mem, t, d) && IsKey(mem, key) && d <= |mem[key].bits|
    requires Contents(mem, t.path) < Rest(mem, key, d)
    ensures r.Node? && Placed(mem, r, d)
    decreases t, 0
  {
    if t.value == ZERO_VALUE && t.left.Nil? && t.right.Nil? then t.(path := Slice(key, d, |Rest(mem, key, d)|), value := value)
    else
      var arc, below := Rest(mem, key, d)[t.path.len], d + t.path.len + 1;
      var child := Child(t, arc);
      if child.Node? then WithChild(t, arc, Insert(mem, child, below, key, value))
      else if value == ZERO_VALUE then t
      else WithChild(t, arc, Leaf(Slice(key, below, |Rest(mem, key, below)|), value))
  }

  function InsertParent(mem: Memory, t: Sliced, d: nat, key: nat, value: Digest): (r: Sliced)
    requires t.Node? && Placed(mem, t, d) && IsKey(mem, key) && d <= |mem[key].bits|
    requires Rest(mem, key, d) < Contents(mem, t.path)
    ensures r.Node? && Placed(mem, r, d)
  {
    var n := |Rest(mem, key, d)|;
    TailReads(mem, t, d, n + 1);
    WithChild(Leaf(Slice(key, d, n), value), Contents(mem, t.path)[n], Tail(t, n + 1))
  }

  /** A node over a trie and a leaf. */
  function Split(top: Slice, arc: bool, t: Sliced, leaf: Slice, value: Digest): Sliced
  {
    WithChild(WithChild(Leaf(top, ZERO_VALUE), arc, t), !arc, Leaf(leaf, value))
  }

  lemma SiblingReads(mem: Memory, t: Sliced, d: nat, key: nat, i: nat, value: Digest)
    requires t.Node? && Placed(mem, t, d) && IsKey(mem, key) && d <= |mem[key].bits|
    requires i < t.path.len && i < |Rest(mem, key, d)|
    ensures var u, k := Read(mem, t, d), Rest(mem, key, d);
            var leaf := Slice(key, d + i + 1, |Rest(mem, key, d + i + 1)|);
            var r := Split(Slice(key, d, i), Contents(mem, t.path)[i], Tail(t, i + 1), leaf, value);
            && Placed(mem, r, d) && u.path == Contents(mem, t.path)
            && Read(mem, r, d) == ValueSplit(u, i, k, value)
  {
    hide Placed, Read, Rest, Contents, Tail, Split, T.WithChild;
    ReadTop(mem, t, d);
    TailReads(mem, t, d, i + 1);
    RestOf(mem, key, d, i);
    var leaf := Slice(key, d + i + 1, |Rest(mem, key, d + i + 1)|);
    SplitReads(mem, Slice(key, d, i), d, Contents(mem, t.path)[i], Tail(t, i + 1), leaf, value);
  }

  /** The trie split at bit i of its path, with a leaf for the rest of key k. */
  function ValueSplit(t: T.Trie, i: nat, k: Bits, value: Digest): T.Trie
    requires t.Node? && i < |t.path| && i < |k|
  {
    T.WithChild(T.WithChild(T.Leaf(k[..i], ZERO_VALUE), t.path[i], t.(path := t.path[i + 1..])), !t.path[i], T.Leaf(k[i + 1..], value))
  }

  function InsertSibling(mem: Memory, t: Sliced, d: nat, key: nat, value: Digest): (r: Sliced)
    requires t.Node? && Placed(mem, t, d) && IsKey(mem, key) && d <= |mem[key].bits|
    requires var p, k := Contents(mem, t.path), Rest(mem, key, d); !(p <= k) && !(k <= p)
    ensures r.Node? && Placed(mem, r, d)
  {
    var p, k := Contents(mem, t.path), Rest(mem, key, d);
    var i := T.CommonLength(p, k);
    Diverges(p, k);
    SiblingReads(mem, t, d, key, i, value);
    Split(Slice(key, d, i), p[i], Tail(t, i + 1), Slice(key, d + i + 1, |Rest(mem, key, d + i + 1)|), value)
  }

  lemma TailReads(mem: Memory, t: Sliced, d: nat, n: nat)
    requires t.Node? && Placed(mem, t, d) && n <= t.path.len
    ensures Placed(mem, Tail(t, n), d + n)
    ensures var u := Read(mem, t, d); u.Node? && Read(mem, Tail(t, n), d + n) == u.(path := u.path[n..])
  {
  }

  lemma ChildReads(mem: Memory, t: Sliced, d: nat, arc: bool, child: Sliced)
    requires t.Node? && Placed(mem, t, d) && (child.Node? ==> Placed(mem, child, d + t.path.len + 1))
    ensures Placed(mem, WithChild(t, arc, child), d) && Placed(mem, Child(t, arc), d + t.path.len + 1)
    ensures var u := Read(mem, t, d);
            && T.Child(u, arc) == Read(mem, Child(t, arc), d + t.path.len + 1)
            && Read(mem, WithChild(t, arc, child), d) == T.WithChild(u, arc, Read(mem, child, d + t.path.len + 1))
  {
  }

  lemma LeafReads(mem: Memory, s: Slice, d: nat, value: Digest)
    requires At(mem, s, d)
    ensures Placed(mem, Leaf(s, value), d) && Read(mem, Leaf(s, value), d) == T.Leaf(Contents(mem, s), value)
  {
  }

  /** Insertion by slices is insertion by values. */
  lemma {:induction false} InsertReads(mem: Memory, t: Sliced, d: nat, key: nat, value: Digest)
    requires t.Node? && Placed(mem, t, d) && IsKey(mem, key) && d <= |mem[key].bits|
    ensures Read(mem, Insert(mem, t, d, key, value), d) == T.Insert(Read(mem, t, d), Rest(mem, key, d), value)
    decreases t, 1
  {
    hide InsertBelow, InsertParent, InsertSibling, T.InsertBelow, T.InsertParent, T.InsertSibling;
    var p, k := Contents(mem, t.path), Rest(mem, key, d);
    if p == k {
    } else if p <= k {
      InsertBelowReads(mem, t, d, key, value);
    } else if k <= p {
      InsertParentReads(mem, t, d, key, value);
    } else {
      InsertSiblingReads(mem, t, d, key, value);
    }
  }

  lemma {:induction false} InsertBelowReads(mem: Memory, t: Sliced, d: nat, key: nat, value: Digest)
    requires t.Node? && Placed(mem, t, d) && IsKey(mem, key) && d <= |mem[key].bits|
    requires Contents(mem, t.path) < Rest(mem, key, d)
    ensures Read(mem, InsertBelow(mem, t, d, key, value), d) == T.InsertBelow(Read(mem, t, d), Rest(mem, key, d), value)
    decreases t, 0
  {
    hide T.Insert, Insert, Placed, Read, Contents, Rest;
    ReadTop(mem, t, d);
    RestOf(mem, key, d, t.path.len);
    var arc, below := Rest(mem, key, d)[t.path.len], d + t.path.len + 1;
    ChildReads(mem, t, d, arc, Nil);
    if t.value == ZERO_VALUE && t.left.Nil? && t.right.Nil? {
      LeafReads(mem, Slice(key, d, |Rest(mem, key, d)|), d, value);
    } else if Child(t, arc).Node? {
      InsertReads(mem, Child(t, arc), below, key, value);
      ChildReads(mem, t, d, arc, Insert(mem, Child(t, arc), below, key, value));
    } else {
      var leaf := Slice(key, below, |Rest(mem, key, below)|);
      LeafReads(mem, leaf, below, value);
      ChildReads(mem, t, d, arc, Leaf(leaf, value));
    }
  }

  /** The rest of a key is a slice of its array, and goes on behind a bit. */
  lemma RestOf(mem: Memory, key: nat, d: nat, i: nat)
    requires IsKey(mem, key) && d <= |mem[key].bits|
    ensures var k := Rest(mem, key, d);
            && At(mem, Slice(key, d, |k|), d) && Contents(mem, Slice(key, d, |k|)) == k
            && (i < |k| ==>
                  var r := Rest(mem, key, d + i + 1);
                  && k[i + 1..] == r && At(mem, Slice(key, d, i), d) && Contents(mem, Slice(key, d, i)) == k[..i]
                  && At(mem, Slice(key, d + i + 1, |r|), d + i + 1) && Contents(mem, Slice(key, d + i + 1, |r|)) == r)
  {
  }

  lemma InsertParentReads(mem: Memory, t: Sliced, d: nat, key: nat, value: Digest)
    requires t.Node? && Placed(mem, t, d) && IsKey(mem, key) && d <= |mem[key].bits|
    requires Rest(mem, key, d) < Contents(mem, t.path)
    ensures Read(mem, InsertParent(mem, t, d, key, value), d) == T.InsertParent(Read(mem, t, d), Rest(mem, key, d), value)
  {
    var n := |Rest(mem, key, d)|;
    TailReads(mem, t, d, n + 1);
    LeafReads(mem, Slice(key, d, n), d, value);
    ChildReads(mem, Leaf(Slice(key, d, n), value), d, Contents(mem, t.path)[n], Tail(t, n + 1));
  }

  lemma InsertSiblingReads(mem: Memory, t: Sliced, d: nat, key: nat, value: Digest)
    requires t.Node? && Placed(mem, t, d) && IsKey(mem, key) && d <= |mem[key].bits|
    requires var p, k := Contents(mem, t.path), Rest(mem, key, d); !(p <= k) && !(k <= p)
    ensures Read(mem, InsertSibling(mem, t, d, key, value), d) == T.InsertSibling(Read(mem, t, d), Rest(mem, key, d), value)
  {
    hide Placed, Read, T.CommonLength, Contents, Rest, T.InsertSibling, Split, Tail, ValueSplit;
    ReadTop(mem, t, d);
    var p, k := Contents(mem, t.path), Rest(mem, key, d);
    ValueSibling(Read(mem, t, d), k, value);
    SiblingReads(mem, t, d, key, T.CommonLength(p, k), value);
  }

  lemma ValueSibling(t: T.Trie, k: Bits, value: Digest)
    requires t.Node? && !(t.path <= k) && !(k <= t.path)
    ensures var i := T.CommonLength(t.path, k);
            && i < |t.path| && i < |k|
            && T.InsertSibling(t, k, value) == ValueSplit(t, i, k, value)
  {
    Diverges(t.path, k);
  }

  lemma Diverges(p: Bits, k: Bits)
    requires !(p <= k) && !(k <= p)
    ensures var i := T.CommonLength(p, k); i < |p| && i < |k| && k[i] == !p[i]
  {
    var i := T.CommonLength(p, k);
    assert p[..|p|] == p && k[..|k|] == k;
  }

  lemma SplitReads(mem: Memory, top: Slice, d: nat, arc: bool, t: Sliced, leaf: Slice, value: Digest)
    requires At(mem, top, d) && Placed(mem, t, d + top.len + 1) && At(mem, leaf, d + top.len + 1)
    ensures var r := Split(top, arc, t, leaf, value);
            && Placed(mem, r, d)
            && Read(mem, r, d) ==
               T.WithChild(T.WithChild(T.Leaf(Contents(mem, top), ZERO_VALUE), arc, Read(mem, t, d + top.len + 1)),
                           !arc, T.Leaf(Contents(mem, leaf), value))
  {
    LeafReads(mem, top, d, ZERO_VALUE);
    LeafReads(mem, leaf, d + top.len + 1, value);
  }

  lemma ReadTop(mem: Memory, t: Sliced, d: nat)
    requires t.Node? && Placed(mem, t, d)
    ensures At(mem, t.path, d) && |Contents(mem, t.path)| == t.path.len
    ensures var u := Read(mem, t, d);
            && u.Node? && u.path == Contents(mem, t.path) && u.value == t.value
            && (u.left.Nil? <==> t.left.Nil?) && (u.right.Nil? <==> t.right.Nil?)
  {
  }

  lemma ChildApart(t: Sliced, arc: bool, child: Sliced)
    requires t.Node? && Apart(t) && Apart(child) && Arrays(child) !! Arrays(Child(t, !arc))
    ensures Apart(WithChild(t, arc, child))
    ensures Arrays(WithChild(t, arc, child)) == {t.path.arr} + Arrays(Child(t, !arc)) + Arrays(child)
  {
  }

  lemma LeafApart(path: Slice, value: Digest)
    ensures Apart(Leaf(path, value)) && Arrays(Leaf(path, value)) == {path.arr}
  {
  }

  lemma PartsApart(t: Sliced, arc: bool)
    requires t.Node? && Apart(t)
    ensures Arrays(t) == {t.path.arr} + Arrays(Child(t, arc)) + Arrays(Child(t, !arc))
    ensures Apart(Child(t, arc)) && Arrays(Child(t, arc)) !! Arrays(Child(t, !arc))
  {
  }

  lemma TailApart(t: Sliced, n: nat)
    requires t.Node? && n <= t.path.len && Apart(t)
    ensures Apart(Tail(t, n)) && Arrays(Tail(t, n)) == Arrays(t)
  {
  }

  /** The array of a new key is in no other path, so the nodes of every array stay above each other. */
  lemma {:induction false} InsertApart(mem: Memory, t: Sliced, d: nat, key: nat, value: Digest)
    requires t.Node? && Placed(mem, t, d) && IsKey(mem, key) && d <= |mem[key].bits|
    requires Apart(t) && key !in Arrays(t)
    ensures var r := Insert(mem, t, d, key, value); Apart(r) && Arrays(r) <= Arrays(t) + {key}
    decreases t, 1
  {
    hide InsertBelow, InsertParent, InsertSibling;
    var p, k := Contents(mem, t.path), Rest(mem, key, d);
    if p == k {
    } else if p <= k {
      InsertBelowApart(mem, t, d, key, value);
    } else if k <= p {
      InsertParentApart(mem, t, d, key, value);
    } else {
      InsertSiblingApart(mem, t, d, key, value);
    }
  }

  lemma {:induction false} InsertBelowApart(mem: Memory, t: Sliced, d: nat, key: nat, value: Digest)
    requires t.Node? && Placed(mem, t, d) && IsKey(mem, key) && d <= |mem[key].bits|
    requires Apart(t) && key !in Arrays(t) && Contents(mem, t.path) < Rest(mem, key, d)
    ensures var r := InsertBelow(mem, t, d, key, value); Apart(r) && Arrays(r) <= Arrays(t) + {key}
    decreases t, 0
  {
    hide Insert, Apart, Arrays, Placed, Contents, Rest;
    ReadTop(mem, t, d);
    RestOf(mem, key, d, t.path.len);
    var arc, below := Rest(mem, key, d)[t.path.len], d + t.path.len + 1;
    PartsApart(t, arc);
    ChildReads(mem, t, d, arc, Nil);
    if t.value == ZERO_VALUE && t.left.Nil? && t.right.Nil? {
      LeafApart(Slice(key, d, |Rest(mem, key, d)|), value);
    } else if Child(t, arc).Node? {
      InsertApart(mem, Child(t, arc), below, key, value);
      ChildApart(t, arc, Insert(mem, Child(t, arc), below, key, value));
    } else {
      LeafApart(Slice(key, below, |Rest(mem, key, below)|), value);
      ChildApart(t, arc, Leaf(Slice(key, below, |Rest(mem, key, below)|), value));
    }
  }

  lemma InsertParentApart(mem: Memory, t: Sliced, d: nat, key: nat, value: Digest)
    requires t.Node? && Placed(mem, t, d) && IsKey(mem, key) && d <= |mem[key].bits|
    requires Apart(t) && key !in Arrays(t) && Rest(mem, key, d) < Contents(mem, t.path)
    ensures var r := InsertParent(mem, t, d, key, value); Apart(r) && Arrays(r) <= Arrays(t) + {key}
  {
    var n := |Rest(mem, key, d)|;
    TailApart(t, n + 1);
  }

  lemma InsertSiblingApart(mem: Memory, t: Sliced, d: nat, key: nat, value: Digest)
    requires t.Node? && Placed(mem, t, d) && IsKey(mem, key) && d <= |mem[key].bits|
    requires var p, k := Contents(mem, t.path), Rest(mem, key, d); !(p <= k) && !(k <= p)
    requires Apart(t) && key !in Arrays(t)
    ensures var r := InsertSibling(mem, t, d, key, value); Apart(r) && Arrays(r) <= Arrays(t) + {key}
  {
    hide T.CommonLength, Apart, Arrays, Placed, Contents, Rest, Split, Tail;
    ReadTop(mem, t, d);
    var p, k := Contents(mem, t.path), Rest(mem, key, d);
    var i := T.CommonLength(p, k);
    Diverges(p, k);
    RestOf(mem, key, d, i);
    TailApart(t, i + 1);
    SplitApart(Slice(key, d, i), p[i], Tail(t, i + 1), Slice(key, d + i + 1, |Rest(mem, key, d + i + 1)|), value);
  }

  lemma SplitApart(path: Slice, arc: bool, t: Sliced, leaf: Slice, value: Digest)
    requires Apart(t) && leaf.arr == path.arr && path.arr !in Arrays(t)
    ensures var r := Split(path, arc, t, leaf, value); Apart(r) && Arrays(r) <= Arrays(t) + {path.arr}
  {
    LeafApart(leaf, value);
  }

  // ----- joining a node to its only child -----

  /** Appending writes behind the slice where its array has room, or else copies to a new array, with
      whatever spare capacity the runtime chooses. */
  function Appended(mem: Memory, s: Slice, bits: Bits, grow: nat -> nat): (r: (Memory, Slice))
    requires s.arr < |mem| && s.lo + s.len <= |mem[s.arr].bits|
  {
    var cells, end := mem[s.arr], s.lo + s.len;
    if end + |bits| <= |cells.bits| then
      (mem[s.arr := cells.(bits := Overwritten(cells.bits, end, bits))], s.(len := s.len + |bits|))
    else
      var all := Contents(mem, s) + bits;
      (mem + [Cells(cells.depth + s.lo, all + seq(grow(|all|), _ => false))], Slice(|mem|, 0, |all|))
  }

  /** Appending gives the joined contents at the same depth, and writes behind the slice only. */
  lemma AppendedReads(mem: Memory, s: Slice, d: nat, bits: Bits, grow: nat -> nat)
    requires At(mem, s, d)
    ensures var (mem', r) := Appended(mem, s, bits, grow);
            && Grown(mem, mem') && At(mem', r, d) && r.len == s.len + |bits| && Contents(mem', r) == Contents(mem, s) + bits
            && (r.arr == s.arr || r.arr == |mem|)
            && KeptBefore(mem, mem', d + s.len) && KeptOutside(mem, mem', {s.arr})
            && (forall e | e >= d + s.len + |bits| :: KeptFrom(mem, mem', {s.arr}, e))
  {
    hide Overwritten, Leftover;
    var cells, end := mem[s.arr], s.lo + s.len;
    if end + |bits| <= |cells.bits| {
      OverwrittenFrom(cells.bits, s.lo, end, bits);
      P.OverwrittenAt(cells.bits, end, bits);
    }
  }

  lemma GrowsOn(mem: Memory, mem': Memory, mem'': Memory)
    requires Grown(mem, mem') && Grown(mem', mem'')
    ensures Grown(mem, mem'')
  {
  }

  /** The path of the node that takes the place of a node and its only child: two appends, and the child's
      path is read between them. */
  function Joined(mem: Memory, s: Slice, d: nat, arc: bool, child: Slice, grow: nat -> nat): (r: (Memory, Slice))
    requires At(mem, s, d) && At(mem, child, d + s.len + 1)
  {
    AppendedReads(mem, s, d, [arc], grow);
    var (mem', one) := Appended(mem, s, [arc], grow);
    Appended(mem', one, Contents(mem', child), grow)
  }

  /** The joined path is the one it should be. What is written lies behind the slice and before the end of
      the child's path. */
  lemma JoinedReads(mem: Memory, s: Slice, d: nat, arc: bool, child: Slice, grow: nat -> nat)
    requires At(mem, s, d) && At(mem, child, d + s.len + 1)
    ensures var (mem', r) := Joined(mem, s, d, arc, child, grow);
            && Grown(mem, mem') && At(mem', r, d) && r.len == s.len + 1 + child.len
            && Contents(mem', r) == Contents(mem, s) + [arc] + Contents(mem, child)
            && (r.arr == s.arr || |mem| <= r.arr < |mem'|)
            && KeptBefore(mem, mem', d + s.len) && KeptOutside(mem, mem', {s.arr})
            && KeptFrom(mem, mem', {s.arr}, d + s.len + 1 + child.len)
  {
    hide Appended;
    AppendedReads(mem, s, d, [arc], grow);
    var (mem1, one) := Appended(mem, s, [arc], grow);
    assert Contents(mem1, child) == Contents(mem, child) by {
      assert KeptFrom(mem, mem1, {s.arr}, d + s.len + 1);
    }
    AppendedReads(mem1, one, d, Contents(mem1, child), grow);
    var (mem2, r) := Appended(mem1, one, Contents(mem1, child), grow);
    GrowsOn(mem, mem1, mem2);
    KeptThrough(mem, mem1, mem2, s.arr, one.arr, d + s.len, d + s.len + 1 + child.len);
  }

  lemma KeptThrough(mem: Memory, mem1: Memory, mem2: Memory, x: nat, y: nat, from: nat, to: nat)
    requires Grown(mem, mem1) && Grown(mem1, mem2) && Grown(mem, mem2) && from < to && (y == x || y >= |mem|)
    requires KeptBefore(mem, mem1, from) && KeptBefore(mem1, mem2, from + 1)
    requires KeptOutside(mem, mem1, {x}) && KeptOutside(mem1, mem2, {y})
    requires KeptFrom(mem, mem1, {x}, to) && KeptFrom(mem1, mem2, {y}, to)
    ensures KeptBefore(mem, mem2, from) && KeptOutside(mem, mem2, {x}) && KeptFrom(mem, mem2, {x}, to)
  {
  }

  // ----- collapsing -----

  function CollapseNode(mem: Memory, t: Sliced, d: nat, grow: nat -> nat): (r: (Memory, Sliced))
    requires t.Node? && Placed(mem, t, d)
    ensures Grown(mem, r.0) && Placed(r.0, r.1, d)
  {
    if t.value != ZERO_VALUE then (mem, t)
    else if t.left.Nil? && t.right.Nil? then (mem, Nil)
    else if t.right.Nil? then Join(mem, t, d, false, grow)
    else if t.left.Nil? then Join(mem, t, d, true, grow)
    else (mem, t)
  }

  function Join(mem: Memory, t: Sliced, d: nat, arc: bool, grow: nat -> nat): (r: (Memory, Sliced))
    requires t.Node? && Placed(mem, t, d) && Child(t, arc).Node?
    ensures Grown(mem, r.0) && Placed(r.0, r.1, d)
  {
    var child := Child(t, arc);
    ReadTop(mem, child, d + t.path.len + 1);
    JoinedReads(mem, t.path, d, arc, child.path, grow);
    var (mem', path) := Joined(mem, t.path, d, arc, child.path, grow);
    StaysPlaced(mem, mem', child, d + t.path.len + 1);
    (mem', child.(path := path))
  }

  /** Children first, the left one before the right one, then the node. */
  function Collapse(mem: Memory, t: Sliced, d: nat, grow: nat -> nat): (r: (Memory, Sliced))
    requires Placed(mem, t, d)
    ensures Grown(mem, r.0) && Placed(r.0, r.1, d)
    decreases t
  {
    if t.Nil? then (mem, Nil)
    else
      var below := d + t.path.len + 1;
      var (mem1, left) := Collapse(mem, t.left, below, grow);
      StaysPlaced(mem, mem1, t.right, below);
      var (mem2, right) := Collapse(mem1, t.right, below, grow);
      StaysPlaced(mem1, mem2, left, below);
      GrowsOn(mem, mem1, mem2);
      var t' := t.(left := left, right := right);
      GrowsOn(mem, mem2, CollapseNode(mem2, t', d, grow).0);
      CollapseNode(mem2, t', d, grow)
  }

  /** What a collapse may do: write to arrays of the trie, from its depth on, and make new ones. */
  predicate Local(mem: Memory, t: Sliced, d: nat, mem': Memory, t': Sliced)
  {
    && Grown(mem, mem') && (forall x | x in Arrays(t') :: x in Arrays(t) || |mem| <= x < |mem'|)
    && KeptOutside(mem, mem', Arrays(t)) && KeptBefore(mem, mem', d)
  }

  lemma Parts(mem: Memory, t: Sliced, d: nat)
    requires t.Node?
    ensures var below := d + t.path.len + 1;
            && (Placed(mem, t, d) <==> At(mem, t.path, d) && Placed(mem, t.left, below) && Placed(mem, t.right, below))
            && (Placed(mem, t, d) ==>
                  Read(mem, t, d) == T.Node(Contents(mem, t.path), t.value, Read(mem, t.left, below), Read(mem, t.right, below)))
    ensures Arrays(t) == {t.path.arr} + Arrays(t.left) + Arrays(t.right)
    ensures Apart(t) <==> Arrays(t.left) !! Arrays(t.right) && Apart(t.left) && Apart(t.right)
  {
  }

  lemma KeptElsewhere(mem: Memory, mem': Memory, x: nat, d: nat, xs: set<nat>, e: nat)
    requires Grown(mem, mem') && KeptFrom(mem, mem', {x}, d) && KeptOutside(mem, mem', {x}) && d <= e
    ensures KeptFrom(mem, mem', xs, e)
  {
  }

  lemma {:induction false} JoinReads(mem: Memory, t: Sliced, d: nat, arc: bool, grow: nat -> nat)
    requires t.Node? && Placed(mem, t, d) && Child(t, arc).Node? && Apart(t)
    ensures var (mem', t') := Join(mem, t, d, arc, grow);
            && Local(mem, t, d, mem', t') && Apart(t')
            && Read(mem', t', d) == C.Merge(Contents(mem, t.path), arc, Read(mem, Child(t, arc), d + t.path.len + 1))
  {
    hide Placed, Read, Apart, Arrays, Joined, KeptFrom, Contents;
    var child, below := Child(t, arc), d + t.path.len + 1;
    var deep := below + child.path.len + 1;
    Parts(mem, t, d);
    Parts(mem, child, below);
    JoinedReads(mem, t.path, d, arc, child.path, grow);
    var (mem', path) := Joined(mem, t.path, d, arc, child.path, grow);
    KeptElsewhere(mem, mem', t.path.arr, deep - 1, Arrays(child), deep);
    ReadKept(mem, mem', child.left, deep, Arrays(child));
    ReadKept(mem, mem', child.right, deep, Arrays(child));
    Parts(mem', child.(path := path), d);
  }

  lemma {:induction false} CollapseNodeReads(mem: Memory, t: Sliced, d: nat, grow: nat -> nat)
    requires t.Node? && Placed(mem, t, d) && Apart(t)
    ensures var (mem', t') := CollapseNode(mem, t, d, grow);
            Local(mem, t, d, mem', t') && Apart(t') && Read(mem', t', d) == C.CollapseNode(Read(mem, t, d))
  {
    hide Join;
    Parts(mem, t, d);
    if t.value == ZERO_VALUE && t.left.Node? && t.right.Nil? {
      JoinReads(mem, t, d, false, grow);
    } else if t.value == ZERO_VALUE && t.left.Nil? && t.right.Node? {
      JoinReads(mem, t, d, true, grow);
    }
  }

  lemma KeptApart(mem: Memory, mem': Memory, xs: set<nat>, ys: set<nat>, d: nat)
    requires Grown(mem, mem') && KeptOutside(mem, mem', ys) && xs !! ys
    ensures KeptFrom(mem, mem', xs, d)
  {
  }

  /** Collapsing both children leaves them in different arrays, and the node's own path as it was. */
  lemma {:induction false} SidesCollapsed(mem: Memory, t: Sliced, d: nat, mem1: Memory, left: Sliced, mem2: Memory, right: Sliced)
    requires t.Node? && Placed(mem, t, d) && Apart(t)
    requires Local(mem, t.left, d + t.path.len + 1, mem1, left) && Local(mem1, t.right, d + t.path.len + 1, mem2, right)
    ensures Arrays(left) !! Arrays(t.right) && Arrays(left) !! Arrays(right)
    ensures Local(mem, t, d + t.path.len + 1, mem2, t.(left := left, right := right))
    ensures At(mem2, t.path, d) && Contents(mem2, t.path) == Contents(mem, t.path)
  {
    hide Placed, Apart, Arrays;
    Parts(mem, t, d);
    Parts(mem2, t.(left := left, right := right), d);
    ArraysPlaced(mem, t.left, d + t.path.len + 1);
    ArraysPlaced(mem, t.right, d + t.path.len + 1);
  }

  lemma LocalThen(mem: Memory, t: Sliced, d: nat, mem1: Memory, t1: Sliced, mem2: Memory, t2: Sliced)
    requires Local(mem, t, d, mem1, t1) && Local(mem1, t1, d, mem2, t2)
    ensures Local(mem, t, d, mem2, t2)
  {
    hide Arrays;
  }

  /** Collapsing with shared arrays is collapsing by values: no join changes a path of another node. */
  lemma {:induction false} CollapseReads(mem: Memory, t: Sliced, d: nat, grow: nat -> nat)
    requires Placed(mem, t, d) && Apart(t)
    ensures var (mem', t') := Collapse(mem, t, d, grow);
            Local(mem, t, d, mem', t') && Apart(t') && Read(mem', t', d) == C.Collapse(Read(mem, t, d))
    decreases t
  {
    hide Placed, Read, Apart, Arrays, Contents, CollapseNode, C.CollapseNode, KeptFrom;
    if t.Node? {
      var below := d + t.path.len + 1;
      Parts(mem, t, d);
      CollapseReads(mem, t.left, below, grow);
      var (mem1, left) := Collapse(mem, t.left, below, grow);
      KeptApart(mem, mem1, Arrays(t.right), Arrays(t.left), below);
      ReadKept(mem, mem1, t.right, below, Arrays(t.right));
      CollapseReads(mem1, t.right, below, grow);
      var (mem2, right) := Collapse(mem1, t.right, below, grow);
      SidesCollapsed(mem, t, d, mem1, left, mem2, right);
      KeptApart(mem1, mem2, Arrays(left), Arrays(t.right), below);
      ReadKept(mem1, mem2, left, below, Arrays(left));
      var t' := t.(left := left, right := right);
      Parts(mem2, t', d);
      CollapseNodeReads(mem2, t', d, grow);
      LocalThen(mem, t, d, mem2, t', CollapseNode(mem2, t', d, grow).0, CollapseNode(mem2, t', d, grow).1);
    } else {
      NilReads(mem, d);
    }
  }

  lemma NilReads(mem: Memory, d: nat)
    ensures Placed(mem, Nil, d) && Read(mem, Nil, d) == T.Nil && Apart(Nil) && Local(mem, Nil, d, mem, Nil)
  {
  }

  /** In a subtrie that is canonical already, which insertion has not touched, collapsing writes nothing. */
  lemma {:induction false} CanonicalUntouched(mem: Memory, t: Sliced, d: nat, grow: nat -> nat)
    requires Placed(mem, t, d) && C.Canonical(Read(mem, t, d))
    ensures Collapse(mem, t, d, grow) == (mem, t)
    decreases t
  {
    if t.Node? {
      CanonicalUntouched(mem, t.left, d + t.path.len + 1, grow);
      CanonicalUntouched(mem, t.right, d + t.path.len + 1, grow);
    }
  }

  // ----- updates -----

  /** What a root is: placed from depth zero on, with the nodes of every array above each other. */
  predicate IsRoot(mem: Memory, t: Sliced) { t.Node? && Placed(mem, t, 0) && Apart(t) }

  function EmptyRoot(mem: Memory): (Memory, Sliced) { (mem + [Cells(0, [])], Leaf(Slice(|mem|, 0, 0), ZERO_VALUE)) }

  /** Every key is spread out into an array of its own. */
  function InsertOne(mem: Memory, t: Sliced, diff: C.TrieDiff): (r: (Memory, Sliced))
    requires IsRoot(mem, t)
    ensures IsRoot(r.0, r.1) && Grown(mem, r.0)
  {
    var mem' := mem + [Cells(0, diff.key)];
    InsertOneReads(mem, t, diff);
    (mem', Insert(mem', t, 0, |mem|, diff.value))
  }

  lemma {:induction false} InsertOneReads(mem: Memory, t: Sliced, diff: C.TrieDiff)
    requires IsRoot(mem, t)
    ensures var mem' := mem + [Cells(0, diff.key)];
            && Placed(mem', t, 0) && IsRoot(mem', Insert(mem', t, 0, |mem|, diff.value))
            && Read(mem', Insert(mem', t, 0, |mem|, diff.value), 0) == T.Insert(Read(mem, t, 0), diff.key, diff.value)
  {
    hide Placed, Apart, Insert;
    var mem' := mem + [Cells(0, diff.key)];
    ArraysPlaced(mem, t, 0);
    ReadKept(mem, mem', t, 0, Arrays(t));
    InsertReads(mem', t, 0, |mem|, diff.value);
    InsertApart(mem', t, 0, |mem|, diff.value);
    assert Rest(mem', |mem|, 0) == diff.key;
  }

  function InsertAll(mem: Memory, t: Sliced, diffs: seq<C.TrieDiff>): (r: (Memory, Sliced))
    requires IsRoot(mem, t)
    ensures IsRoot(r.0, r.1) && Grown(mem, r.0)
  {
    if diffs == [] then (mem, t)
    else
      var (mem', t') := InsertAll(mem, t, diffs[..|diffs| - 1]);
      InsertOne(mem', t', diffs[|diffs| - 1])
  }

  function Update(mem: Memory, t: Sliced, diffs: seq<C.TrieDiff>, grow: nat -> nat): (r: (Memory, Sliced))
    requires IsRoot(mem, t)
    ensures Grown(mem, r.0)
  {
    var (mem1, t1) := InsertAll(mem, t, diffs);
    var (mem2, t2) := Collapse(mem1, t1, 0, grow);
    if t2.Nil? then EmptyRoot(mem2) else (mem2, t2)
  }

  lemma {:induction false} InsertAllReads(mem: Memory, t: Sliced, diffs: seq<C.TrieDiff>)
    requires IsRoot(mem, t)
    ensures var (mem', t') := InsertAll(mem, t, diffs); Read(mem', t', 0) == C.InsertAll(Read(mem, t, 0), diffs)
  {
    hide IsRoot, Read, T.Insert;
    if diffs != [] {
      var before := diffs[..|diffs| - 1];
      InsertAllReads(mem, t, before);
      var (mem', t') := InsertAll(mem, t, before);
      InsertOneReads(mem', t', diffs[|diffs| - 1]);
    }
  }

  /** An update with shared arrays makes the root that the update by values makes, whatever the lengths of
      the keys and the capacities the runtime chooses. */
  lemma {:induction false} UpdateReads(mem: Memory, t: Sliced, diffs: seq<C.TrieDiff>, grow: nat -> nat)
    requires IsRoot(mem, t)
    ensures var (mem', t') := Update(mem, t, diffs, grow);
            IsRoot(mem', t') && Read(mem', t', 0) == C.Update(Read(mem, t, 0), diffs)
  {
    InsertAllReads(mem, t, diffs);
    var (mem1, t1) := InsertAll(mem, t, diffs);
    CollapseReads(mem1, t1, 0, grow);
    EmptyRootReads(Collapse(mem1, t1, 0, grow).0);
    hide Collapse, InsertAll, C.InsertAll, C.Collapse, Local, EmptyRoot;
  }

  lemma EmptyRootReads(mem: Memory)
    ensures var (mem', t) := EmptyRoot(mem); IsRoot(mem', t) && Read(mem', t, 0) == T.EMPTY_ROOT
  {
    LeafReads(mem + [Cells(0, [])], Slice(|mem|, 0, 0), 0, ZERO_VALUE);
    LeafApart(Slice(|mem|, 0, 0), ZERO_VALUE);
  }

  /** The root after a run of updates, each of the root that the one before it made. */
  function Run(mem: Memory, t: Sliced, batches: seq<seq<C.TrieDiff>>, grow: nat -> nat): (r: (Memory, Sliced))
    requires IsRoot(mem, t)
    ensures IsRoot(r.0, r.1)
  {
    if batches == [] then (mem, t)
    else
      var (mem', t') := Run(mem, t, batches[..|batches| - 1], grow);
      UpdateReads(mem', t', batches[|batches| - 1], grow);
      Update(mem', t', batches[|batches| - 1], grow)
  }

  function RunByValue(t: T.Trie, batches: seq<seq<C.TrieDiff>>): (r: T.Trie)
    requires t.Node?
    ensures r.Node?
  {
    if batches == [] then t else C.Update(RunByValue(t, batches[..|batches| - 1]), batches[|batches| - 1])
  }

  /** In every run the newest root reads as the trie by values, down to the last path. */
  lemma {:induction false} NewestRootRight(batches: seq<seq<C.TrieDiff>>, grow: nat -> nat)
    ensures var (mem, t) := EmptyRoot([]);
            && IsRoot(mem, t)
            && var (mem', t') := Run(mem, t, batches, grow); Read(mem', t', 0) == RunByValue(T.EMPTY_ROOT, batches)
  {
    var (mem, t) := EmptyRoot([]);
    EmptyRootReads([]);
    hide IsRoot, Read, Update, C.Update, EmptyRoot;
    if batches != [] {
      NewestRootRight(batches[..|batches| - 1], grow);
      var (mem', t') := Run(mem, t, batches[..|batches| - 1], grow);
      UpdateReads(mem', t', batches[|batches| - 1], grow);
    }
  }
}
