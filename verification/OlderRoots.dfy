/** What joins do to the paths of an older root, which shares arrays with the root made last: the exact
    condition under which they stay, and an update after which one has changed.
 */
module OlderRoots {
  import opened Basics
  import opened Digests
  import C = CanonicalTrie
  import P = SharedPaths
  import opened SlicedTries

  function Paths(t: Sliced): set<Slice>
  {
    if t.Nil? then {} else {t.path} + Paths(t.left) + Paths(t.right)
  }

  /** What the join of a node and its only child writes agrees with the slice wherever it meets it. */
  predicate Undisturbed(mem: Memory, s: Slice, d: nat, arc: bool, child: Slice, x: Slice)
    requires At(mem, s, d) && At(mem, child, d + s.len + 1)
  {
    x.arr == s.arr && x.lo + x.len <= |mem[x.arr].bits| ==>
      var a, at := mem[s.arr].bits, s.lo + s.len;
      P.Agrees(a, x.lo, x.len, at, P.Written(a, at, arc, Contents(mem, child)))
  }

  lemma AppendedWrites(mem: Memory, s: Slice, bits: Bits, grow: nat -> nat)
    requires s.arr < |mem| && s.lo + s.len <= |mem[s.arr].bits|
    ensures var (mem', r), a, end := Appended(mem, s, bits, grow), mem[s.arr].bits, s.lo + s.len;
            && s.arr < |mem'| && |mem'[s.arr].bits| == |a|
            && if end + |bits| <= |a| then r.arr == s.arr && r.lo + r.len == end + |bits| && mem'[s.arr].bits == Overwritten(a, end, bits)
               else r.arr == |mem| && mem'[s.arr].bits == a
  {
  }

  lemma JoinedWrites(mem: Memory, s: Slice, d: nat, arc: bool, child: Slice, grow: nat -> nat)
    requires At(mem, s, d) && At(mem, child, d + s.len + 1)
    ensures var (mem', r), a, at := Joined(mem, s, d, arc, child, grow), mem[s.arr].bits, s.lo + s.len;
            && Grown(mem, mem') && KeptOutside(mem, mem', {s.arr})
            && mem'[s.arr].bits == Overwritten(a, at, P.Written(a, at, arc, Contents(mem, child)))
  {
    hide Appended, Overwritten, Leftover, P.Written, KeptBefore, Grown, KeptOutside, KeptFrom;
    JoinedReads(mem, s, d, arc, child, grow);
    AppendedReads(mem, s, d, [arc], grow);
    AppendedWrites(mem, s, [arc], grow);
    var (mem1, one) := Appended(mem, s, [arc], grow);
    ChildKept(mem, mem1, s, d, child);
    AppendedReads(mem1, one, d, Contents(mem1, child), grow);
    AppendedWrites(mem1, one, Contents(mem1, child), grow);
    FarKept(mem, mem1, Appended(mem1, one, Contents(mem1, child), grow).0, s.arr, one.arr);
    P.WrittenInTwo(mem[s.arr].bits, s.lo + s.len, arc, Contents(mem, child));
  }

  lemma ChildKept(mem: Memory, mem1: Memory, s: Slice, d: nat, child: Slice)
    requires At(mem, s, d) && At(mem, child, d + s.len + 1) && Grown(mem, mem1) && KeptOutside(mem, mem1, {s.arr})
    requires forall e | e >= d + s.len + 1 :: KeptFrom(mem, mem1, {s.arr}, e)
    ensures At(mem1, child, d + s.len + 1) && Contents(mem1, child) == Contents(mem, child)
  {
    assert KeptFrom(mem, mem1, {s.arr}, d + s.len + 1);
  }

  lemma FarKept(mem: Memory, mem1: Memory, mem2: Memory, x: nat, y: nat)
    requires Grown(mem, mem1) && Grown(mem1, mem2) && KeptOutside(mem1, mem2, {y}) && x < |mem|
    ensures x < |mem2| && (y != x ==> mem2[x] == mem1[x])
  {
  }

  lemma PathKeptIff(mem: Memory, s: Slice, d: nat, arc: bool, child: Slice, grow: nat -> nat, x: Slice, e: nat)
    requires At(mem, s, d) && At(mem, child, d + s.len + 1) && At(mem, x, e)
    ensures var (mem', r) := Joined(mem, s, d, arc, child, grow);
            At(mem', x, e) && (Contents(mem', x) == Contents(mem, x) <==> Undisturbed(mem, s, d, arc, child, x))
  {
    hide Joined, Overwritten, Leftover, P.Agrees, P.Written;
    JoinedWrites(mem, s, d, arc, child, grow);
    if x.arr == s.arr {
      var a, at := mem[s.arr].bits, s.lo + s.len;
      P.KeptIff(a, x.lo, x.len, at, P.Written(a, at, arc, Contents(mem, child)));
    }
  }

  /** Any trie, of an older root say, reads the same after a join exactly when what the join writes agrees with
      every path of it. */
  lemma {:induction false} TrieKeptIff(mem: Memory, s: Slice, d: nat, arc: bool, child: Slice, grow: nat -> nat, t: Sliced, e: nat)
    requires At(mem, s, d) && At(mem, child, d + s.len + 1) && Placed(mem, t, e)
    ensures var (mem', r) := Joined(mem, s, d, arc, child, grow);
            && Placed(mem', t, e)
            && (Read(mem', t, e) == Read(mem, t, e) <==> forall x | x in Paths(t) :: Undisturbed(mem, s, d, arc, child, x))
    decreases t
  {
    hide Joined, Undisturbed;
    JoinedReads(mem, s, d, arc, child, grow);
    if t.Node? {
      PathKeptIff(mem, s, d, arc, child, grow, t.path, e);
      TrieKeptIff(mem, s, d, arc, child, grow, t.left, e + t.path.len + 1);
      TrieKeptIff(mem, s, d, arc, child, grow, t.right, e + t.path.len + 1);
      Parts(mem, t, e);
      Parts(Joined(mem, s, d, arc, child, grow).0, t, e);
    }
  }

  // ----- an older root that changes -----

  const ZEROS: Bits := seq(8, _ => false)
  const ONES: Bits := seq(8, _ => true)
  const VALUE: Digest := ShaBytes([1])

  /** The root that holds both keys, and the memory it lies in. */
  const BOTH: Sliced := Node(Slice(2, 0, 0), ZERO_VALUE, Leaf(Slice(1, 1, 7), VALUE), Leaf(Slice(2, 1, 7), VALUE))
  const BEFORE: Memory := [Cells(0, []), Cells(0, ZEROS), Cells(0, ONES)]

  lemma FirstInserted()
    ensures var (mem, t) := EmptyRoot([]);
            && IsRoot(mem, t)
            && InsertOne(mem, t, C.TrieDiff(ZEROS, VALUE)) == ([Cells(0, []), Cells(0, ZEROS)], Leaf(Slice(1, 0, 8), VALUE))
  {
    var (mem, t) := EmptyRoot([]);
    EmptyRootReads([]);
    var mem' := mem + [Cells(0, ZEROS)];
    StaysPlaced(mem, mem', t, 0);
    assert Contents(mem', t.path) == [] && Rest(mem', 1, 0) == ZEROS;
    assert mem' == [Cells(0, []), Cells(0, ZEROS)];
  }

  lemma SecondInserted()
    ensures var mem, t := [Cells(0, []), Cells(0, ZEROS)], Leaf(Slice(1, 0, 8), VALUE);
            IsRoot(mem, t) && InsertOne(mem, t, C.TrieDiff(ONES, VALUE)) == (BEFORE, BOTH)
  {
    var mem, t := [Cells(0, []), Cells(0, ZEROS)], Leaf(Slice(1, 0, 8), VALUE);
    LeafReads(mem, t.path, 0, VALUE);
    LeafApart(t.path, VALUE);
    LeafReads(BEFORE, t.path, 0, VALUE);
    assert mem + [Cells(0, ONES)] == BEFORE;
    assert Contents(BEFORE, t.path) == ZEROS && Rest(BEFORE, 2, 0) == ONES;
    assert ZEROS[0] != ONES[0];
  }

  lemma BothMade(grow: nat -> nat)
    ensures var (mem, t) := EmptyRoot([]);
            && IsRoot(mem, t)
            && Update(mem, t, [C.TrieDiff(ZEROS, VALUE), C.TrieDiff(ONES, VALUE)], grow) == (BEFORE, BOTH)
  {
    hide InsertOne, Collapse;
    var (mem, t) := EmptyRoot([]);
    var diffs := [C.TrieDiff(ZEROS, VALUE), C.TrieDiff(ONES, VALUE)];
    FirstInserted();
    SecondInserted();
    assert diffs[..1] == [diffs[0]] && [diffs[0]][..0] == [];
    assert InsertAll(mem, t, [diffs[0]]) == InsertOne(mem, t, diffs[0]);
    assert InsertAll(mem, t, diffs) == (BEFORE, BOTH);
    BothIsRoot();
    CanonicalUntouched(BEFORE, BOTH, 0, grow);
  }

  lemma BothIsRoot()
    ensures IsRoot(BEFORE, BOTH)
  {
    LeafReads(BEFORE, Slice(1, 1, 7), 1, VALUE);
    LeafReads(BEFORE, Slice(2, 1, 7), 1, VALUE);
    LeafApart(Slice(1, 1, 7), VALUE);
    LeafApart(Slice(2, 1, 7), VALUE);
    Parts(BEFORE, BOTH, 0);
  }

  /** The root after the second key has got the zero value, not collapsed yet. */
  const CLEARED: Sliced := BOTH.(right := Leaf(Slice(2, 1, 7), ZERO_VALUE))
  const MORE: Memory := BEFORE + [Cells(0, ONES)]

  lemma SecondCleared()
    ensures IsRoot(BEFORE, BOTH) && InsertOne(BEFORE, BOTH, C.TrieDiff(ONES, ZERO_VALUE)) == (MORE, CLEARED)
  {
    BothIsRoot();
    var leaf := BOTH.right;
    assert Contents(MORE, BOTH.path) == [] && Rest(MORE, 3, 0) == ONES;
    assert MORE[2].bits == ONES && |ONES| == 8;
    assert Contents(MORE, leaf.path) == ONES[1..8] == ONES[1..];
    assert Rest(MORE, 3, 1) == ONES[1..];
    assert Insert(MORE, leaf, 1, 3, ZERO_VALUE) == Leaf(Slice(2, 1, 7), ZERO_VALUE);
  }

  lemma JoinedOver(grow: nat -> nat)
    ensures Placed(MORE, CLEARED, 0)
    ensures var mem := Collapse(MORE, CLEARED, 0, grow).0; |mem| > 2 && mem[2] == Cells(0, ZEROS)
  {
    hide Joined, P.Written, Overwritten;
    var left, right := CLEARED.left, CLEARED.right;
    LeafReads(MORE, left.path, 1, VALUE);
    LeafReads(MORE, right.path, 1, ZERO_VALUE);
    assert Collapse(MORE, left, 1, grow) == (MORE, left);
    assert Collapse(MORE, right, 1, grow) == (MORE, Nil);
    JoinedWrites(MORE, CLEARED.path, 0, false, left.path, grow);
    OnesOverwritten();
    assert Contents(MORE, left.path) == ZEROS[1..];
  }

  lemma OnesOverwritten()
    ensures Overwritten(ONES, 0, P.Written(ONES, 0, false, ZEROS[1..])) == ZEROS
  {
    assert [false] + ZEROS[1..] == ZEROS;
  }

  lemma SecondDeleted(grow: nat -> nat)
    ensures IsRoot(BEFORE, BOTH)
    ensures var mem := Update(BEFORE, BOTH, [C.TrieDiff(ONES, ZERO_VALUE)], grow).0; |mem| > 2 && mem[2] == Cells(0, ZEROS)
  {
    hide InsertOne, Collapse, IsRoot, Placed;
    var diffs := [C.TrieDiff(ONES, ZERO_VALUE)];
    SecondCleared();
    JoinedOver(grow);
    assert diffs[..0] == [];
    assert InsertAll(BEFORE, BOTH, diffs) == (MORE, CLEARED);
  }

  /** The keys of eight zeros and of eight ones are in the trie, and the second is deleted. Under the older
      root its leaf now has the path of the first. */
  lemma OlderRootChanges(grow: nat -> nat)
    ensures var (mem, t) := EmptyRoot([]);
            && IsRoot(mem, t)
            && var (mem1, t1) := Update(mem, t, [C.TrieDiff(ZEROS, VALUE), C.TrieDiff(ONES, VALUE)], grow);
            && IsRoot(mem1, t1)
            && var (mem2, t2) := Update(mem1, t1, [C.TrieDiff(ONES, ZERO_VALUE)], grow);
            && Placed(mem2, t1, 0) && Read(mem2, t1, 0) != Read(mem1, t1, 0)
  {
    hide Update;
    BothMade(grow);
    SecondDeleted(grow);
    var mem := Update(BEFORE, BOTH, [C.TrieDiff(ONES, ZERO_VALUE)], grow).0;
    StaysPlaced(BEFORE, mem, BOTH, 0);
    assert Contents(mem, BOTH.right.path)[0] != Contents(BEFORE, BOTH.right.path)[0];
  }
}
