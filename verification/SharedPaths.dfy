/** Keys as arrays of bits, and what joining paths does to them. A path is a slice of the array of a key, and
    the source appends to it: where the array has room behind the slice, the bits are written there, over
    whatever other slices of the array lie there.
 */
module SharedPaths {
  import opened Basics
  import opened Digests

  // ----- keys as bits -----

  predicate BitOf(b: bv8, i: nat)
    requires i < 8
  {
    1 & (b >> (7 - i)) == 1
  }

  function Spread(key: seq<bv8>): Bits
  {
    seq(|key| * 8, i requires 0 <= i < |key| * 8 => BitOf(key[i / 8], i % 8))
  }

  /** The bits of a key, highest first, in an array that is full. */
  method ToBin(key: seq<bv8>) returns (arr: array<bool>)
    ensures fresh(arr) && arr[..] == Spread(key)
  {
    arr := new bool[|key| * 8];
    for i := 0 to |key| * 8
      invariant arr[..i] == Spread(key)[..i]
    {
      arr[i] := BitOf(key[i / 8], i % 8);
    }
  }

  lemma ByteOfBits(b: bv8, c: bv8)
    requires forall i | 0 <= i < 8 :: BitOf(b, i) == BitOf(c, i)
    ensures b == c
  {
    assert BitOf(b, 0) == BitOf(c, 0) && BitOf(b, 1) == BitOf(c, 1) && BitOf(b, 2) == BitOf(c, 2) && BitOf(b, 3) == BitOf(c, 3);
    assert BitOf(b, 4) == BitOf(c, 4) && BitOf(b, 5) == BitOf(c, 5) && BitOf(b, 6) == BitOf(c, 6) && BitOf(b, 7) == BitOf(c, 7);
  }

  /** The bits of a byte spell it, the highest first. */
  lemma BitsSpell(b: bv8)
    ensures b == (if BitOf(b, 0) then 128 else 0) + (if BitOf(b, 1) then 64 else 0) + (if BitOf(b, 2) then 32 else 0) +
                 (if BitOf(b, 3) then 16 else 0) + (if BitOf(b, 4) then 8 else 0) + (if BitOf(b, 5) then 4 else 0) +
                 (if BitOf(b, 6) then 2 else 0) + (if BitOf(b, 7) then 1 else 0)
  {
  }

  /** Different keys have different bits. */
  lemma SpreadInjective(p: seq<bv8>, q: seq<bv8>)
    requires Spread(p) == Spread(q)
    ensures p == q
  {
    assert |p| * 8 == |q| * 8;
    forall j | 0 <= j < |p|
      ensures p[j] == q[j]
    {
      forall i | 0 <= i < 8
        ensures BitOf(p[j], i) == BitOf(q[j], i)
      {
        assert Spread(p)[j * 8 + i] == Spread(q)[j * 8 + i];
      }
      ByteOfBits(p[j], q[j]);
    }
  }

  // ----- slices -----

  /** A slice of an array; its capacity goes to the end of the array. */
  datatype Slice = Slice(arr: array<bool>, lo: nat, len: nat)

  predicate InArray(s: Slice) { s.lo + s.len <= s.arr.Length }

  function Contents(s: Slice): Bits
    requires InArray(s)
    reads s.arr
  {
    s.arr[s.lo..s.lo + s.len]
  }

  predicate HasRoom(s: Slice, bits: Bits) { s.lo + s.len + |bits| <= s.arr.Length }

  /** Appending gives the joined contents. With room behind the slice they go into its array, without
      room into a new one. */
  method Append(s: Slice, bits: Bits) returns (r: Slice)
    requires InArray(s)
    modifies s.arr
    ensures InArray(r) && Contents(r) == old(Contents(s)) + bits
    ensures if HasRoom(s, bits) then r == Slice(s.arr, s.lo, s.len + |bits|) && s.arr[..] == Overwritten(old(s.arr[..]), s.lo + s.len, bits)
            else fresh(r.arr) && s.arr[..] == old(s.arr[..])
  {
    hide Overwritten, Leftover;
    if HasRoom(s, bits) {
      WriteAt(s.arr, s.lo + s.len, bits);
      OverwrittenFrom(old(s.arr[..]), s.lo, s.lo + s.len, bits);
      assert old(s.arr[..])[s.lo..s.lo + s.len] == old(Contents(s));
      r := Slice(s.arr, s.lo, s.len + |bits|);
      assert Contents(r) == s.arr[..][s.lo..s.lo + s.len + |bits|];
    } else {
      var all := Contents(s) + bits;
      var arr := new bool[|all|](i requires 0 <= i < |all| => all[i]);
      r := Slice(arr, 0, |all|);
    }
  }

  method WriteAt(arr: array<bool>, at: nat, bits: Bits)
    requires at + |bits| <= arr.Length
    modifies arr
    ensures arr[..] == Overwritten(old(arr[..]), at, bits)
  {
    for i := 0 to |bits|
      invariant forall k | 0 <= k < arr.Length :: arr[k] == if at <= k < at + i then bits[k - at] else old(arr[k])
    {
      arr[at + i] := bits[i];
    }
    var a := old(arr[..]);
    assert forall k | at + |bits| <= k < arr.Length :: Overwritten(a, at, bits)[k] == a[at..][|bits|..][k - at - |bits|];
  }

  lemma OverwrittenAt(a: Bits, at: nat, bits: Bits)
    requires at + |bits| <= |a|
    ensures |Overwritten(a, at, bits)| == |a|
    ensures forall k | 0 <= k < |a| :: Overwritten(a, at, bits)[k] == if at <= k < at + |bits| then bits[k - at] else a[k]
  {
  }

  lemma OverwrittenTwice(a: Bits, at: nat, p: Bits, q: Bits)
    requires at + |p| + |q| <= |a|
    ensures Overwritten(Overwritten(a, at, p), at + |p|, q) == Overwritten(a, at, p + q)
  {
  }

  // ----- joins -----

  /** What a join writes behind a path that ends at position at: the arc and the child's path, the arc alone
      when there is no room for more, or nothing. */
  function Written(a: Bits, at: nat, arc: bool, child: Bits): (r: Bits)
    requires at <= |a|
    ensures at + |r| <= |a|
  {
    if at + 1 + |child| <= |a| then [arc] + child else if at < |a| then [arc] else []
  }

  /** The bits written from position at on agree with the slice wherever they meet it. */
  predicate Agrees(a: Bits, lo: nat, len: nat, at: nat, bits: Bits)
    requires at + |bits| <= |a| && lo + len <= |a|
  {
    forall k | lo <= k < lo + len && at <= k < at + |bits| :: bits[k - at] == a[k]
  }

  lemma KeptIff(a: Bits, lo: nat, len: nat, at: nat, bits: Bits)
    requires at + |bits| <= |a| && lo + len <= |a|
    ensures |Overwritten(a, at, bits)| == |a|
    ensures Overwritten(a, at, bits)[lo..lo + len] == a[lo..lo + len] <==> Agrees(a, lo, len, at, bits)
  {
    hide Overwritten;
    var r := Overwritten(a, at, bits);
    OverwrittenAt(a, at, bits);
    if Agrees(a, lo, len, at, bits) {
      assert r[lo..lo + len] == a[lo..lo + len];
    } else {
      var k :| lo <= k < lo + len && at <= k < at + |bits| && bits[k - at] != a[k];
      assert r[lo..lo + len][k - lo] != a[lo..lo + len][k - lo];
    }
  }

  /** The path of the child when the arc has been written. */
  ghost function AfterArc(current: Slice, arc: bool, child: Slice): Bits
    requires InArray(current) && InArray(child)
    reads current.arr, child.arr
  {
    var at := current.lo + current.len;
    if child.arr == current.arr && at < child.arr.Length then child.arr[..][at := arc][child.lo..child.lo + child.len] else Contents(child)
  }

  /** The path of the node that takes the place of a node and its only child. The array of the node's path
      changes by what is written behind the path, and any other slice of it keeps its contents exactly when
      what is written agrees with it. */
  method CombinedPath(current: Slice, onlyChild: bool, child: Slice) returns (r: Slice)
    requires InArray(current) && InArray(child)
    modifies current.arr
    ensures InArray(r) && Contents(r) == old(Contents(current)) + [onlyChild] + old(AfterArc(current, onlyChild, child))
    ensures if HasRoom(current, [onlyChild] + old(AfterArc(current, onlyChild, child))) then r.arr == current.arr else fresh(r.arr)
    ensures var a, at := old(current.arr[..]), current.lo + current.len;
            var bits := Written(a, at, onlyChild, old(AfterArc(current, onlyChild, child)));
            && current.arr[..] == Overwritten(a, at, bits)
            && forall lo: nat, len: nat | lo + len <= |a| ::
                 current.arr[..][lo..lo + len] == a[lo..lo + len] <==> Agrees(a, lo, len, at, bits)
  {
    hide Overwritten, Leftover, Agrees, Written, AfterArc, Contents;
    ghost var a, at := current.arr[..], current.lo + current.len;
    ghost var path := AfterArc(current, onlyChild, child);
    var one, childPath := AppendArc(current, onlyChild, child);
    r := Append(one, childPath);
    WrittenInTwo(a, at, onlyChild, path);
    AllKeptIff(a, at, Written(a, at, onlyChild, path));
  }

  /** The first of the two appends, and the child's path as it is then. */
  method AppendArc(current: Slice, onlyChild: bool, child: Slice) returns (one: Slice, childPath: Bits)
    requires InArray(current) && InArray(child)
    modifies current.arr
    ensures InArray(one) && Contents(one) == old(Contents(current)) + [onlyChild] && childPath == old(AfterArc(current, onlyChild, child))
    ensures var a, at := old(current.arr[..]), current.lo + current.len;
            if at + 1 <= |a| then one == Slice(current.arr, current.lo, current.len + 1) && current.arr[..] == Overwritten(a, at, [onlyChild])
            else fresh(one.arr) && current.arr[..] == a
  {
    hide Overwritten, Leftover;
    ghost var a, at := current.arr[..], current.lo + current.len;
    ghost var path := AfterArc(current, onlyChild, child);
    if child.arr == current.arr {
      assert path == (if at < |a| then a[at := onlyChild] else a)[child.lo..child.lo + child.len];
    }
    hide AfterArc;
    one := Append(current, [onlyChild]);
    ArcWritten(a, at, onlyChild);
    childPath := Contents(child);
    if child.arr == current.arr {
      assert childPath == current.arr[..][child.lo..child.lo + child.len];
    }
  }

  lemma WrittenInTwo(a: Bits, at: nat, arc: bool, child: Bits)
    requires at <= |a|
    ensures var one := if at + 1 <= |a| then Overwritten(a, at, [arc]) else a;
            Overwritten(a, at, Written(a, at, arc, child)) ==
            if at + 1 + |child| <= |a| then Overwritten(one, at + 1, child) else one
  {
    hide Overwritten, Leftover;
    ArcWritten(a, at, arc);
    if at + 1 + |child| <= |a| { OverwrittenTwice(a, at, [arc], child); }
  }

  lemma AllKeptIff(a: Bits, at: nat, bits: Bits)
    requires at + |bits| <= |a|
    ensures |Overwritten(a, at, bits)| == |a|
    ensures forall lo: nat, len: nat | lo + len <= |a| ::
              Overwritten(a, at, bits)[lo..lo + len] == a[lo..lo + len] <==> Agrees(a, lo, len, at, bits)
  {
    hide Overwritten, Leftover, Agrees;
    OverwrittenAt(a, at, bits);
    forall lo: nat, len: nat | lo + len <= |a|
      ensures Overwritten(a, at, bits)[lo..lo + len] == a[lo..lo + len] <==> Agrees(a, lo, len, at, bits)
    {
      KeptIff(a, lo, len, at, bits);
    }
  }

  lemma ArcWritten(a: Bits, at: nat, arc: bool)
    requires at <= |a|
    ensures at < |a| ==> Overwritten(a, at, [arc]) == a[at := arc]
    ensures Overwritten(a, at, []) == a
  {
  }

  // ----- a path under an older root that changes -----

  /** The slices that insertion leaves when a key parts from a path at bit i: the common path, the rest of the
      path, and the rest of the key. */
  function SplitSlices(path: Slice, key: Slice, i: nat): (Slice, Slice, Slice)
    requires i < path.len && i < key.len
  {
    (Slice(key.arr, key.lo, i), Slice(path.arr, path.lo + i + 1, path.len - i - 1), Slice(key.arr, key.lo + i + 1, key.len - i - 1))
  }

  /** The keys 00 and ff part at their first bit. When ff is deleted, the root is joined to the leaf of 00 in
      the array of ff, and the leaf of ff under the older root has the path of 00. */
  method OlderPathChanges() returns (before: Bits, after: Bits)
    ensures before == seq(7, _ => true) && after == seq(7, _ => false)
  {
    hide Spread, Overwritten, Leftover, Agrees;
    SampleBits();
    var zeros := ToBin([0]);
    var ones := ToBin([0xff]);
    assert zeros.Length == |zeros[..]| == 8 && ones.Length == |ones[..]| == 8;
    var (root, left, right) := SplitSlices(Slice(zeros, 0, 8), Slice(ones, 0, 8), 0);
    before := Contents(right);
    assert Contents(left) == zeros[..][1..8] == seq(7, _ => false);
    assert before == ones[..][1..8];
    AllOverwritten(ones[..], [false] + seq(7, _ => false));
    var _ := CombinedPath(root, false, left);
    after := Contents(right);
    assert after == ones[..][1..8];
  }

  lemma AllOverwritten(a: Bits, bits: Bits)
    requires |a| == |bits|
    ensures Overwritten(a, 0, bits) == bits
  {
  }

  lemma SampleBits()
    ensures Spread([0]) == seq(8, _ => false) && Spread([0xff]) == seq(8, _ => true)
  {
  }
}
