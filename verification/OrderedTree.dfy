/** The ordered Merkle tree of transactions and receipts: a list of digests reduced to one,
    by an in-place pairwise fold and, independently, by the compressed trie over the bits of
    the list index.
 */
module OrderedTrees {
  import opened Digests
  import opened Trie
  import opened CanonicalTrie
  import opened TrieHash

  /** Stands for bytes.Compare(left, right) > 0 on digests. */
  type Greater = (Digest, Digest) -> bool

  ghost predicate Antisymmetric(gt: Greater)
  {
    forall l, r :: l != r ==> gt(l, r) == !gt(r, l)
  }

  function HashTwo(gt: Greater, left: Digest, right: Digest): Digest
  {
    if gt(left, right) then ShaPair(right, left) else ShaPair(left, right)
  }

  lemma HashTwoCommutes(gt: Greater, left: Digest, right: Digest)
    requires Antisymmetric(gt)
    ensures HashTwo(gt, left, right) == HashTwo(gt, right, left)
  {
  }

  /** treeHash. A node with exactly one child does not occur; the source would dereference nil. */
  function TreeHash(gt: Greater): Hasher
  {
    (value: Digest, path: Bits, left: Option<Digest>, right: Option<Digest>) =>
      if left.None? && right.None? then value
      else if left.Some? && right.Some? then HashTwo(gt, left.value, right.value)
      else NilSlice
  }

  // ----- powers of two and key sizes -----

  function Pow2(k: nat): (p: nat)
    ensures p >= 1
  {
    if k == 0 then 1 else 2 * Pow2(k - 1)
  }

  /** The ceiling of the base-two logarithm. */
  function CeilLog2(n: nat): nat
  {
    if n <= 1 then 0 else 1 + CeilLog2((n + 1) / 2)
  }

  lemma {:induction false} CeilLog2Bounds(n: nat)
    requires n >= 1
    ensures n <= Pow2(CeilLog2(n))
    ensures n > 1 ==> Pow2(CeilLog2(n) - 1) < n
  {
    if n > 1 {
      CeilLog2Bounds((n + 1) / 2);
    }
  }

  // ----- the pairwise fold -----

  /** One pass: neighbours are hashed together, an odd last element is carried over. */
  function Level(gt: Greater, s: seq<Digest>): (r: seq<Digest>)
    ensures |r| == (|s| + 1) / 2
  {
    seq((|s| + 1) / 2, i requires 0 <= i < (|s| + 1) / 2 => LevelAt(gt, s, i))
  }

  function LevelAt(gt: Greater, s: seq<Digest>, i: nat): Digest
    requires i < (|s| + 1) / 2
  {
    if 2 * i + 1 < |s| then HashTwo(gt, s[2 * i], s[2 * i + 1]) else s[2 * i]
  }

  function Passes(gt: Greater, s: seq<Digest>, k: nat): seq<Digest>
    decreases k
  {
    if k == 0 then s else Passes(gt, Level(gt, s), k - 1)
  }

  /** CeilLog2 passes leave one element, and no smaller number of passes does. */
  lemma {:induction false} PassesExactlyEnough(gt: Greater, s: seq<Digest>, k: nat)
    requires s != []
    ensures |Passes(gt, s, k)| == 1 <==> k >= CeilLog2(|s|)
    decreases k
  {
    if k > 0 {
      PassesExactlyEnough(gt, Level(gt, s), k - 1);
      if |s| == 1 { assert CeilLog2(|Level(gt, s)|) == 0; }
    }
  }

  /** The root by recursive halving at powers of two, the reference for both algorithms. */
  function Root(gt: Greater, s: seq<Digest>, k: nat): Digest
    requires 1 <= |s| <= Pow2(k)
    decreases k
  {
    if k == 0 then s[0]
    else if |s| <= Pow2(k - 1) then Root(gt, s, k - 1)
    else HashTwo(gt, Root(gt, s[..Pow2(k - 1)], k - 1), Root(gt, s[Pow2(k - 1)..], k - 1))
  }

  lemma {:induction false} LevelSplits(gt: Greater, s: seq<Digest>, h: nat)
    requires 2 * h <= |s|
    ensures |Level(gt, s)| >= h
    ensures Level(gt, s)[..h] == Level(gt, s[..2 * h])
    ensures Level(gt, s)[h..] == Level(gt, s[2 * h..])
  {
    forall i | 0 <= i < h ensures Level(gt, s)[i] == Level(gt, s[..2 * h])[i] {
    }
    forall i | h <= i < |Level(gt, s)| ensures Level(gt, s)[i] == Level(gt, s[2 * h..])[i - h] {
      assert LevelAt(gt, s, i) == LevelAt(gt, s[2 * h..], i - h);
    }
  }

  lemma LevelOfTwo(gt: Greater, s: seq<Digest>)
    requires 1 <= |s| <= 2
    ensures Root(gt, s, 1) == Root(gt, Level(gt, s), 0)
  {
    hide HashTwo;
    assert Level(gt, s)[0] == LevelAt(gt, s, 0);
    assert Pow2(0) == 1;
  }

  /** One pass of the fold takes one level off the recursive root. */
  lemma {:induction false} LevelKeepsRoot(gt: Greater, s: seq<Digest>, k: nat)
    requires k >= 1 && 1 <= |s| <= Pow2(k)
    ensures Root(gt, s, k) == Root(gt, Level(gt, s), k - 1)
    decreases k
  {
    hide HashTwo, Level, Root, Pow2;
    Pow2Steps(k);
    RootStep(gt, s, k);
    if k == 1 {
      LevelOfTwo(gt, s);
    } else {
      var half, quarter, up := Pow2(k - 1), Pow2(k - 2), Level(gt, s);
      RootStep(gt, up, k - 1);
      if |s| <= half {
        LevelKeepsRoot(gt, s, k - 1);
      } else {
        LevelSplits(gt, s, quarter);
        LevelKeepsRoot(gt, s[..half], k - 1);
        LevelKeepsRoot(gt, s[half..], k - 1);
      }
    }
  }

  lemma Pow2Steps(k: nat)
    ensures k >= 1 ==> Pow2(k) == 2 * Pow2(k - 1)
    ensures k >= 2 ==> Pow2(k - 1) == 2 * Pow2(k - 2)
    ensures k == 1 ==> Pow2(k) == 2 && Pow2(k - 1) == 1
  {
  }

  lemma RootStep(gt: Greater, s: seq<Digest>, k: nat)
    requires k >= 1 && 1 <= |s| <= Pow2(k)
    ensures |s| <= Pow2(k - 1) ==> Root(gt, s, k) == Root(gt, s, k - 1)
    ensures |s| > Pow2(k - 1) ==>
              |s| - Pow2(k - 1) <= Pow2(k - 1) &&
              Root(gt, s, k) == HashTwo(gt, Root(gt, s[..Pow2(k - 1)], k - 1), Root(gt, s[Pow2(k - 1)..], k - 1))
  {
  }

  lemma {:induction false} PassesGiveRoot(gt: Greater, s: seq<Digest>, k: nat)
    requires 1 <= |s| <= Pow2(k)
    ensures |Passes(gt, s, k)| == 1 && Passes(gt, s, k)[0] == Root(gt, s, k)
    decreases k
  {
    if k > 0 {
      LevelKeepsRoot(gt, s, k);
      PassesGiveRoot(gt, Level(gt, s), k - 1);
    }
  }

  // ----- in place -----

  /** One pass over the first size entries of src into dst, which may be the same array. */
  method CollapseOneLevel(gt: Greater, src: array<Digest>, dst: array<Digest>, size: nat) returns (newSize: nat)
    requires 1 <= size <= src.Length && (size + 1) / 2 <= dst.Length
    modifies dst
    ensures newSize == (size + 1) / 2
    ensures dst[..newSize] == Level(gt, old(src[..size]))
  {
    hide HashTwo, Level;
    ghost var s := src[..size];
    var j := 1;
    ghost var m := 0;
    while j < size
      invariant j == 2 * m + 1 <= size + 1
      invariant forall i :: 0 <= i < m ==> dst[i] == LevelAt(gt, s, i)
      invariant forall i :: 2 * m <= i < size ==> src[i] == s[i]
    {
      assert j / 2 == m;
      dst[j / 2] := HashTwo(gt, src[j - 1], src[j]);
      j, m := j + 2, m + 1;
    }
    if size % 2 != 0 {
      dst[size / 2] := src[size - 1];
      newSize := size / 2 + 1;
    } else {
      newSize := size / 2;
    }
    IsLevel(gt, s, dst[..newSize]);
  }

  lemma IsLevel(gt: Greater, s: seq<Digest>, r: seq<Digest>)
    requires |r| == (|s| + 1) / 2 && forall i :: 0 <= i < |r| ==> r[i] == LevelAt(gt, s, i)
    ensures r == Level(gt, s)
  {
  }

  /** The root of a list of digests; thirty-two zero bytes for the empty list. */
  function OrderedRoot(gt: Greater, s: seq<Digest>): Digest
  {
    if s == [] then ZeroBytes
    else CeilLog2Bounds(|s|); Root(gt, s, CeilLog2(|s|))
  }

  method CalculateOrderedTreeRoot(gt: Greater, values: array<Digest>) returns (root: Digest)
    ensures root == OrderedRoot(gt, values[..])
  {
    if values.Length == 0 {
      return ZeroBytes;
    }
    var nodes := new Digest[values.Length / 2 + 1](_ => NilSlice);
    ghost var s := values[..];
    assert s == values[..values.Length];
    var n := CollapseOneLevel(gt, values, nodes, values.Length);
    var iteration := CeilLog2(values.Length);
    ghost var left := if iteration == 0 then 0 else iteration - 1;
    assert iteration == 0 ==> Level(gt, s) == s;
    var i := 1;
    while i < iteration
      invariant 1 <= i && left == if iteration <= i then 0 else iteration - i
      invariant 1 <= n <= nodes.Length
      invariant Passes(gt, s, iteration) == Passes(gt, nodes[..n], left)
    {
      n := CollapseOneLevel(gt, nodes, nodes, n);
      i := i + 1;
      left := left - 1;
    }
    CeilLog2Bounds(values.Length);
    PassesGiveRoot(gt, s, iteration);
    assert nodes[0] == nodes[..n][0];
    root := nodes[0];
  }

  // ----- keys -----

  /** The number a key spells, most significant bit first. */
  function Number(key: Bits): nat
  {
    if key == [] then 0 else (if key[0] then Pow2(|key| - 1) else 0) + Number(key[1..])
  }

  function ToKeySpec(index: nat, keySize: nat): (key: Bits)
    ensures |key| == keySize
    decreases keySize
  {
    if keySize == 0 then [] else ToKeySpec(index / 2, keySize - 1) + [index % 2 == 1]
  }

  method ToKey(index: nat, keySize: nat) returns (key: Bits)
    ensures key == ToKeySpec(index, keySize)
  {
    var i, rest := keySize, index;
    key := [];
    while i > 0
      invariant 0 <= i <= keySize
      invariant ToKeySpec(index, keySize) == ToKeySpec(rest, i) + key
    {
      key := [rest % 2 == 1] + key;
      rest := rest / 2;
      i := i - 1;
    }
  }

  lemma {:induction false} NumberSnoc(key: Bits, bit: bool)
    ensures Number(key + [bit]) == 2 * Number(key) + if bit then 1 else 0
    decreases |key|
  {
    if key == [] {
      assert Number([bit]) == (if bit then Pow2(0) else 0) + Number([bit][1..]);
    } else {
      NumberSnoc(key[1..], bit);
      assert (key + [bit])[1..] == key[1..] + [bit];
    }
  }

  /** toKey writes the index in binary. */
  lemma {:induction false} ToKeyNumber(index: nat, keySize: nat)
    requires index < Pow2(keySize)
    ensures Number(ToKeySpec(index, keySize)) == index
    decreases keySize
  {
    if keySize > 0 {
      ToKeyNumber(index / 2, keySize - 1);
      NumberSnoc(ToKeySpec(index / 2, keySize - 1), index % 2 == 1);
    }
  }

  lemma {:induction false} NumberBelow(key: Bits)
    ensures Number(key) < Pow2(|key|)
  {
    if key != [] { NumberBelow(key[1..]); }
  }

  lemma {:induction false} NumberInjective(a: Bits, b: Bits)
    requires |a| == |b| && Number(a) == Number(b)
    ensures a == b
  {
    if a != [] {
      NumberBelow(a[1..]);
      NumberBelow(b[1..]);
      NumberInjective(a[1..], b[1..]);
      assert a == [a[0]] + a[1..] && b == [b[0]] + b[1..];
    }
  }

  // ----- the tree as a trie -----

  /** The canonical trie that holds s[i] under the key of i. */
  function Build(s: seq<Digest>, k: nat): (t: Trie)
    requires 1 <= |s| <= Pow2(k)
    ensures t.Node?
    decreases k
  {
    if k == 0 then Leaf([], s[0])
    else if |s| <= Pow2(k - 1) then
      var sub := Build(s, k - 1);
      sub.(path := [false] + sub.path)
    else Node([], ZERO_VALUE, Build(s[..Pow2(k - 1)], k - 1), Build(s[Pow2(k - 1)..], k - 1))
  }

  function ValueAt(s: seq<Digest>, k: nat, key: Bits): Digest
  {
    if |key| == k && Number(key) < |s| then s[Number(key)] else ZERO_VALUE
  }

  lemma {:induction false} BuildContents(s: seq<Digest>, k: nat, key: Bits)
    requires 1 <= |s| <= Pow2(k)
    ensures Lookup(Build(s, k), key) == ValueAt(s, k, key)
    decreases k
  {
    if k == 0 {
      LeafLookup([], s[0], key);
    } else if |s| <= Pow2(k - 1) {
      ShortContents(s, k, key);
    } else {
      SplitContents(s, k, key);
    }
  }

  lemma {:induction false} ShortContents(s: seq<Digest>, k: nat, key: Bits)
    requires k > 0 && 1 <= |s| <= Pow2(k - 1)
    ensures Lookup(Build(s, k), key) == ValueAt(s, k, key)
    decreases k, 0
  {
    hide Lookup;
    var t := Build(s, k);
    if key != [] && !key[0] {
      PushDownLookup(t, 0, key);
      assert t.(path := t.path[1..]) == Build(s, k - 1);
      BuildContents(s, k - 1, key[1..]);
    } else {
      MissesPath(t, 0, key);
    }
  }

  lemma {:induction false} SplitContents(s: seq<Digest>, k: nat, key: Bits)
    requires k > 0 && Pow2(k - 1) < |s| <= Pow2(k)
    ensures Lookup(Build(s, k), key) == ValueAt(s, k, key)
    decreases k, 0
  {
    hide Lookup, Build, Number;
    var t, half := Build(s, k), Pow2(k - 1);
    BuildSplits(s, k);
    TopLookup(t, key);
    if key != [] {
      BelowLookup(t, key);
      assert key[|t.path|..] == key;
      var part := if key[0] then s[half..] else s[..half];
      BuildContents(part, k - 1, key[1..]);
      ValueSplits(s, k, key);
    }
  }

  lemma BuildSplits(s: seq<Digest>, k: nat)
    requires k > 0 && Pow2(k - 1) < |s| <= Pow2(k)
    ensures Build(s, k) == Node([], ZERO_VALUE, Build(s[..Pow2(k - 1)], k - 1), Build(s[Pow2(k - 1)..], k - 1))
  {
  }

  /** The first bit of a key tells the half its value is in. */
  lemma ValueSplits(s: seq<Digest>, k: nat, key: Bits)
    requires k > 0 && Pow2(k - 1) < |s| <= Pow2(k) && key != []
    ensures ValueAt(s, k, key) == ValueAt(if key[0] then s[Pow2(k - 1)..] else s[..Pow2(k - 1)], k - 1, key[1..])
  {
    NumberBelow(key[1..]);
  }

  predicate NoZero(s: seq<Digest>)
  {
    forall i :: 0 <= i < |s| ==> s[i] != ZERO_VALUE
  }

  lemma {:induction false} BuildCanonical(s: seq<Digest>, k: nat)
    requires 1 <= |s| <= Pow2(k) && NoZero(s)
    ensures Canonical(Build(s, k))
    decreases k
  {
    if k > 0 {
      if |s| <= Pow2(k - 1) {
        BuildCanonical(s, k - 1);
      } else {
        BuildCanonical(s[..Pow2(k - 1)], k - 1);
        BuildCanonical(s[Pow2(k - 1)..], k - 1);
      }
    }
  }

  lemma {:induction false} BuildHash(gt: Greater, s: seq<Digest>, k: nat)
    requires 1 <= |s| <= Pow2(k)
    ensures HashOf(TreeHash(gt), Build(s, k)) == Root(gt, s, k)
    decreases k
  {
    if k > 0 {
      if |s| <= Pow2(k - 1) {
        BuildHash(gt, s, k - 1);
      } else {
        BuildHash(gt, s[..Pow2(k - 1)], k - 1);
        BuildHash(gt, s[Pow2(k - 1)..], k - 1);
      }
    }
  }

  /** What create makes of the values: repeated insertion, then a collapse. Its first node is a
      bare record whose value is a nil slice, which is not the zero value hash. */
  function ToDiffs(s: seq<Digest>, k: nat): (d: seq<TrieDiff>)
    ensures |d| == |s| && forall i :: 0 <= i < |d| ==> d[i] == TrieDiff(ToKeySpec(i, k), s[i])
  {
    seq(|s|, i requires 0 <= i < |s| => TrieDiff(ToKeySpec(i, k), s[i]))
  }

  const BARE_NODE: Trie := Leaf([], NilSlice)

  function Created(s: seq<Digest>): Trie
    requires s != []
  {
    Collapse(InsertAll(BARE_NODE, ToDiffs(s, CeilLog2(|s|))))
  }

  /** The same tree written down directly: the root keeps the nil slice unless it is a leaf. */
  function Expected(s: seq<Digest>): (t: Trie)
    requires s != []
    ensures t.Node?
  {
    CeilLog2Bounds(|s|);
    var t := Build(s, CeilLog2(|s|));
    if |s| == 1 then t else t.(value := NilSlice)
  }

  lemma {:induction false} DiffsContents(s: seq<Digest>, k: nat, before: Digest, key: Bits)
    requires |s| <= Pow2(k)
    ensures Overridden(before, ToDiffs(s, k), key) ==
            if |key| == k && Number(key) < |s| then s[Number(key)] else before
  {
    var d := ToDiffs(s, k);
    forall i | 0 <= i < |s| ensures Number(d[i].key) == i {
      ToKeyNumber(i, k);
    }
    assert DistinctKeys(d);
    if |key| == k && Number(key) < |s| {
      NumberInjective(key, d[Number(key)].key);
      OverriddenByMember(before, d, Number(key));
    } else {
      OverriddenByNone(before, d, key);
    }
  }

  /** Repeated insertion and collapse yield the tree over the index bits. */
  lemma {:induction false} CreatedIsExpected(s: seq<Digest>)
    requires s != [] && NoZero(s)
    ensures Created(s) == Expected(s)
  {
    var k := CeilLog2(|s|);
    CeilLog2Bounds(|s|);
    var inserted := InsertAll(BARE_NODE, ToDiffs(s, k));
    forall key ensures Lookup(Created(s), key) == Lookup(Expected(s), key) {
      CollapseLookup(inserted, key);
      InsertAllLookup(BARE_NODE, ToDiffs(s, k), key);
      DiffsContents(s, k, Lookup(BARE_NODE, key), key);
      LeafLookup([], NilSlice, key);
      ExpectedContents(s, key);
    }
    CollapseCanonical(inserted);
    BuildCanonical(s, k);
    CanonicalUnique(Created(s), Expected(s));
  }

  lemma ExpectedContents(s: seq<Digest>, key: Bits)
    requires s != []
    ensures Lookup(Expected(s), key) ==
            if |key| == CeilLog2(|s|) && Number(key) < |s| then s[Number(key)]
            else if key == [] then NilSlice else ZERO_VALUE
  {
    hide Lookup, Build;
    CeilLog2Bounds(|s|);
    var k := CeilLog2(|s|);
    BuildContents(s, k, key);
    if |s| > 1 {
      BuildTop(s, k);
      RevalueLookup(Build(s, k), NilSlice, key);
    } else {
      assert key == [] ==> Number(key) == 0;
    }
  }

  /** A tree that needs all its levels branches at the root. */
  lemma BuildTop(s: seq<Digest>, k: nat)
    requires k > 0 && Pow2(k - 1) < |s| <= Pow2(k)
    ensures Build(s, k).path == []
  {
  }

  lemma RevalueLookup(t: Trie, value: Digest, key: Bits)
    requires t.Node?
    ensures Lookup(t.(value := value), key) == if key == t.path then value else Lookup(t, key)
  {
  }

  /** The two root algorithms agree on every list without the zero value hash. */
  lemma {:induction false} FoldAgreesWithTrie(gt: Greater, s: seq<Digest>)
    requires s != [] && NoZero(s)
    ensures Created(s).Node? && HashOf(TreeHash(gt), Created(s)) == OrderedRoot(gt, s)
  {
    CreatedIsExpected(s);
    CeilLog2Bounds(|s|);
    BuildHash(gt, s, CeilLog2(|s|));
    var f, t := TreeHash(gt), Build(s, CeilLog2(|s|));
    if |s| > 1 {
      assert HashOf(f, t) == f(t.value, t.path, ChildHash(f, t.left), ChildHash(f, t.right));
    }
  }

  // ----- proofs -----

  /** All keys below t have length n, and every inner node has both children. */
  predicate Full(t: Trie, n: nat)
    requires t.Node?
    decreases t
  {
    if IsLeaf(t) then |t.path| == n
    else
      && |t.path| < n
      && t.left.Node? && Full(t.left, n - |t.path| - 1)
      && t.right.Node? && Full(t.right, n - |t.path| - 1)
  }

  lemma {:induction false} BuildFull(s: seq<Digest>, k: nat)
    requires 1 <= |s| <= Pow2(k)
    ensures Full(Build(s, k), k)
    decreases k
  {
    if k > 0 {
      if |s| <= Pow2(k - 1) {
        BuildFull(s, k - 1);
      } else {
        BuildFull(s[..Pow2(k - 1)], k - 1);
        BuildFull(s[Pow2(k - 1)..], k - 1);
      }
    }
  }

  lemma ExpectedFull(s: seq<Digest>)
    requires s != []
    ensures Full(Expected(s), CeilLog2(|s|)) && (IsLeaf(Expected(s)) <==> CeilLog2(|s|) == 0)
  {
    CeilLog2Bounds(|s|);
    BuildFull(s, CeilLog2(|s|));
  }

  /** The hashes beside the walk for key, from the root down. */
  function SiblingHashes(gt: Greater, t: Trie, key: Bits): seq<Digest>
    requires t.Node? && Full(t, |key|)
    decreases t
  {
    if IsLeaf(t) then []
    else
      var arc := key[|t.path|];
      [HashOf(TreeHash(gt), Child(t, !arc))] + SiblingHashes(gt, Child(t, arc), key[|t.path| + 1..])
  }

  /** The root that a value and a proof imply. */
  function ImpliedRoot(gt: Greater, value: Digest, proof: seq<Digest>): Digest
  {
    if proof == [] then value else HashTwo(gt, ImpliedRoot(gt, value, proof[1..]), proof[0])
  }

  lemma {:induction false} SiblingsImplyHash(gt: Greater, t: Trie, key: Bits)
    requires Antisymmetric(gt)
    requires t.Node? && Full(t, |key|)
    requires Lookup(t, key) != ZERO_VALUE
    ensures ImpliedRoot(gt, Lookup(t, key), SiblingHashes(gt, t, key)) == HashOf(TreeHash(gt), t)
    decreases t
  {
    var f := TreeHash(gt);
    assert HashOf(f, t) == f(t.value, t.path, ChildHash(f, t.left), ChildHash(f, t.right));
    if !IsLeaf(t) {
      var arc := key[|t.path|];
      BelowLookup(t, key);
      SiblingsImplyHash(gt, Child(t, arc), key[|t.path| + 1..]);
      HashTwoCommutes(gt, HashOf(f, t.left), HashOf(f, t.right));
      assert SiblingHashes(gt, t, key)[1..] == SiblingHashes(gt, Child(t, arc), key[|t.path| + 1..]);
    }
  }

  /** For every index in range the proof leads from its value to the root. */
  lemma {:induction false} ProofLeadsToRoot(gt: Greater, s: seq<Digest>, index: nat)
    requires Antisymmetric(gt) && NoZero(s) && index < |s|
    ensures var k := CeilLog2(|s|);
            && Full(Expected(s), k)
            && ImpliedRoot(gt, s[index], SiblingHashes(gt, Expected(s), ToKeySpec(index, k))) == OrderedRoot(gt, s)
  {
    var k := CeilLog2(|s|);
    var key := ToKeySpec(index, k);
    CeilLog2Bounds(|s|);
    ToKeyNumber(index, k);
    ExpectedContents(s, key);
    ExpectedFull(s);
    SiblingsImplyHash(gt, Expected(s), key);
    CreatedIsExpected(s);
    FoldAgreesWithTrie(gt, s);
  }

  /** Verify: hashes the value with the proof from its end to its start. */
  method Verify(gt: Greater, value: Digest, proof: seq<Digest>, root: Digest) returns (ok: bool)
    ensures ok <==> ImpliedRoot(gt, value, proof) == root
  {
    var current, i := value, |proof| - 1;
    while i >= 0
      invariant -1 <= i < |proof|
      invariant current == ImpliedRoot(gt, value, proof[i + 1..])
    {
      assert proof[i..][1..] == proof[i + 1..];
      current := HashTwo(gt, current, proof[i]);
      i := i - 1;
    }
    assert proof[0..] == proof;
    ok := root == current;
  }

  // ----- what a root says about its list -----

  /** The digests that a digest was hashed together from. */
  function Leaves(d: Digest): multiset<Digest>
  {
    if d.ShaPair? then Leaves(d.lower) + Leaves(d.upper) else multiset{d}
  }

  /** In every pair the first digest is not greater than the second. */
  predicate Ordered(gt: Greater, d: Digest)
  {
    d.ShaPair? ==> !gt(d.lower, d.upper) && Ordered(gt, d.lower) && Ordered(gt, d.upper)
  }

  ghost predicate Irreflexive(gt: Greater)
  {
    forall d :: !gt(d, d)
  }

  predicate NoPairs(s: seq<Digest>)
  {
    forall i :: 0 <= i < |s| ==> !s[i].ShaPair?
  }

  lemma HashTwoLeaves(gt: Greater, left: Digest, right: Digest)
    ensures Leaves(HashTwo(gt, left, right)) == Leaves(left) + Leaves(right)
    ensures Antisymmetric(gt) && Irreflexive(gt) && Ordered(gt, left) && Ordered(gt, right) ==> Ordered(gt, HashTwo(gt, left, right))
  {
  }

  lemma {:induction false} RootLeaves(gt: Greater, s: seq<Digest>, k: nat)
    requires 1 <= |s| <= Pow2(k) && NoPairs(s)
    ensures Leaves(Root(gt, s, k)) == multiset(s)
    ensures Antisymmetric(gt) && Irreflexive(gt) ==> Ordered(gt, Root(gt, s, k))
    decreases k
  {
    hide HashTwo, Leaves, Ordered;
    if k == 0 {
      SingleLeaf(gt, s[0]);
      assert s == [s[0]];
    } else if |s| <= Pow2(k - 1) {
      RootLeaves(gt, s, k - 1);
    } else {
      var half := Pow2(k - 1);
      RootLeaves(gt, s[..half], k - 1);
      RootLeaves(gt, s[half..], k - 1);
      HashTwoLeaves(gt, Root(gt, s[..half], k - 1), Root(gt, s[half..], k - 1));
      assert s == s[..half] + s[half..];
    }
  }

  lemma SingleLeaf(gt: Greater, d: Digest)
    requires !d.ShaPair?
    ensures Leaves(d) == multiset{d} && Ordered(gt, d)
  {
  }

  /** The root of a list is hashed together from its digests, each as often as it is there, the lesser one
      first in every pair. */
  lemma {:induction false} RootMadeOfValues(gt: Greater, s: seq<Digest>)
    requires Antisymmetric(gt) && Irreflexive(gt) && s != [] && NoPairs(s)
    ensures Leaves(OrderedRoot(gt, s)) == multiset(s) && Ordered(gt, OrderedRoot(gt, s))
  {
    CeilLog2Bounds(|s|);
    RootLeaves(gt, s, CeilLog2(|s|));
  }

  /** Lists with one root hold the same digests, each as often; the empty list has the root of the list of
      thirty-two zero bytes. */
  lemma {:induction false} RootIdentifiesValues(gt: Greater, s: seq<Digest>, u: seq<Digest>)
    requires NoPairs(s) && NoPairs(u) && OrderedRoot(gt, s) == OrderedRoot(gt, u)
    ensures multiset(s) == multiset(u) || {s, u} == {[], [ZeroBytes]}
  {
    hide Root;
    var root := OrderedRoot(gt, s);
    if s != [] {
      CeilLog2Bounds(|s|);
      RootLeaves(gt, s, CeilLog2(|s|));
      if u == [] { SingleValue(s, ZeroBytes); }
    }
    if u != [] {
      CeilLog2Bounds(|u|);
      RootLeaves(gt, u, CeilLog2(|u|));
      if s == [] { SingleValue(u, ZeroBytes); }
    }
  }

  lemma SingleValue(s: seq<Digest>, d: Digest)
    requires multiset(s) == multiset{d}
    ensures s == [d]
  {
    assert |s| == |multiset(s)| == 1;
    assert s[0] in multiset(s);
  }

  lemma {:induction false} ImpliedLeaves(gt: Greater, value: Digest, proof: seq<Digest>)
    ensures Leaves(value) <= Leaves(ImpliedRoot(gt, value, proof))
  {
    hide HashTwo, Leaves;
    if proof != [] {
      ImpliedLeaves(gt, value, proof[1..]);
      HashTwoLeaves(gt, ImpliedRoot(gt, value, proof[1..]), proof[0]);
    }
  }

  /** No proof is accepted against the root of a list for a digest that is not in it. */
  lemma {:induction false} ProofIsSound(gt: Greater, s: seq<Digest>, value: Digest, proof: seq<Digest>)
    requires s != [] && NoPairs(s) && !value.ShaPair? && ImpliedRoot(gt, value, proof) == OrderedRoot(gt, s)
    ensures value in s
  {
    hide Root, Leaves;
    CeilLog2Bounds(|s|);
    RootLeaves(gt, s, CeilLog2(|s|));
    ImpliedLeaves(gt, value, proof);
    SingleLeaf(gt, value);
    assert value in multiset(s);
  }
}
