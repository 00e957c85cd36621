/** Collapsing a trie after a batch of insertions, and why the collapsed form is
    the only one for the key/value pairs it holds.
 */
module CanonicalTrie {
  import opened Digests
  import opened Trie

  /** Every node without a value has two children; in particular no leaf is valueless. */
  predicate Canonical(t: Trie)
  {
    t.Node? ==>
      && (t.value == ZERO_VALUE ==> t.left.Node? && t.right.Node?)
      && Canonical(t.left)
      && Canonical(t.right)
  }

  /** What a forest keeps as a root: a canonical trie, or the node that stands for no keys. */
  predicate IsRoot(t: Trie)
  {
    t == EMPTY_ROOT || (t.Node? && Canonical(t))
  }

  function Merge(path: Bits, arc: bool, child: Trie): (r: Trie)
    requires child.Node?
    ensures r.Node?
  {
    child.(path := path + [arc] + child.path)
  }

  /** Prunes valueless leaves and joins a valueless node to its only child. */
  function CollapseNode(t: Trie): Trie
    requires t.Node?
  {
    if t.value != ZERO_VALUE then t
    else if t.left.Nil? && t.right.Nil? then Nil
    else if t.right.Nil? then Merge(t.path, false, t.left)
    else if t.left.Nil? then Merge(t.path, true, t.right)
    else t
  }

  function Collapse(t: Trie): Trie
  {
    if t.Nil? then Nil
    else CollapseNode(t.(left := Collapse(t.left), right := Collapse(t.right)))
  }

  function Rooted(t: Trie): (r: Trie)
    ensures r.Node?
  {
    if t.Nil? then EMPTY_ROOT else t
  }

  // ----- collapsing keeps the contents and yields the canonical form -----

  lemma {:induction false} MergeLookup(path: Bits, arc: bool, child: Trie, k: Bits)
    requires child.Node?
    ensures Lookup(Merge(path, arc, child), k) == Lookup(WithChild(Leaf(path, ZERO_VALUE), arc, child), k)
  {
    var m := Merge(path, arc, child);
    var i := |path|;
    if path < k && k[i] == arc {
      SplitAt(k, i);
      PushDownLookup(m, i, k);
      assert m.path[i + 1..] == child.path;
      assert m.(path := child.path) == child;
    } else if path < k {
      MissesPath(m, i, k);
    } else {
      assert m.path <= k ==> path < k;
    }
  }

  lemma {:induction false} CollapseNodeLookup(t: Trie, k: Bits)
    requires t.Node?
    ensures Lookup(CollapseNode(t), k) == Lookup(t, k)
  {
    if t.value == ZERO_VALUE {
      if t.left.Nil? && t.right.Nil? {
        LeafLookup(t.path, t.value, k);
      } else if t.right.Nil? {
        MergeLookup(t.path, false, t.left, k);
      } else if t.left.Nil? {
        MergeLookup(t.path, true, t.right, k);
      }
    }
  }

  lemma {:induction false} CollapseLookup(t: Trie, k: Bits)
    ensures Lookup(Collapse(t), k) == Lookup(t, k)
    decreases t
  {
    if t.Node? {
      var t' := t.(left := Collapse(t.left), right := Collapse(t.right));
      CollapseNodeLookup(t', k);
      if t.path < k {
        BelowLookup(t, k);
        BelowLookup(t', k);
        CollapseLookup(Child(t, k[|t.path|]), k[|t.path| + 1..]);
      }
    }
  }

  lemma {:induction false} CollapseCanonical(t: Trie)
    ensures Canonical(Collapse(t))
  {
    if t.Node? {
      CollapseCanonical(t.left);
      CollapseCanonical(t.right);
    }
  }

  /** A subtree that is already canonical need not be visited. */
  lemma {:induction false} CollapseFixpoint(t: Trie)
    requires Canonical(t)
    ensures Collapse(t) == t
  {
    if t.Node? {
      CollapseFixpoint(t.left);
      CollapseFixpoint(t.right);
    }
  }

  // ----- uniqueness -----

  /** Some key stored in a canonical node, and, given a longer path, one that leaves it. */
  lemma {:induction false} StoredKey(t: Trie) returns (k: Bits)
    requires t.Node? && Canonical(t)
    ensures t.path <= k && Lookup(t, k) != ZERO_VALUE
    decreases t
  {
    if t.value != ZERO_VALUE {
      k := t.path;
    } else {
      k := StoredKeyBelow(t, false);
    }
  }

  lemma {:induction false} StoredKeyBelow(t: Trie, arc: bool) returns (k: Bits)
    requires t.Node? && Canonical(t) && Child(t, arc).Node?
    ensures t.path + [arc] <= k && Lookup(t, k) != ZERO_VALUE
    decreases t, 0
  {
    var rest := StoredKey(Child(t, arc));
    k := t.path + [arc] + rest;
    assert k[|t.path| + 1..] == rest;
    assert t.path <= k;
  }

  lemma {:induction false} StoredKeyOff(t: Trie, path: Bits) returns (k: Bits)
    requires t.Node? && Canonical(t) && t.path < path
    ensures !(path <= k) && Lookup(t, k) != ZERO_VALUE
  {
    if t.value != ZERO_VALUE {
      k := t.path;
    } else {
      k := StoredKeyBelow(t, !path[|t.path|]);
      assert k[|t.path|] != path[|t.path|];
    }
  }

  ghost predicate SameContents(t: Trie, u: Trie)
  {
    forall k :: Lookup(t, k) == Lookup(u, k)
  }

  lemma {:induction false} SamePath(t: Trie, u: Trie)
    requires t.Node? && u.Node? && Canonical(t) && Canonical(u)
    requires SameContents(t, u)
    ensures t.path == u.path
  {
    var k := StoredKey(t);
    assert Lookup(u, k) != ZERO_VALUE;
    assert t.path <= k && u.path <= k;
    if |t.path| < |u.path| {
      assert t.path == k[..|t.path|] && u.path == k[..|u.path|];
      var k' := StoredKeyOff(t, u.path);
    } else if |u.path| < |t.path| {
      assert t.path == k[..|t.path|] && u.path == k[..|u.path|];
      var k' := StoredKeyOff(u, t.path);
    }
  }

  lemma {:induction false} SameChild(t: Trie, u: Trie, arc: bool)
    requires t.Node? && u.Node? && t.path == u.path
    requires SameContents(t, u)
    ensures SameContents(Child(t, arc), Child(u, arc))
  {
    forall k ensures Lookup(Child(t, arc), k) == Lookup(Child(u, arc), k) {
      var full := t.path + [arc] + k;
      assert full[|t.path| + 1..] == k;
      assert t.path < full;
      BelowLookup(t, full);
      BelowLookup(u, full);
      assert Lookup(t, full) == Lookup(u, full);
    }
  }

  /** Two canonical tries with the same contents are the same trie. */
  lemma {:induction false} CanonicalUnique(t: Trie, u: Trie)
    requires Canonical(t) && Canonical(u)
    requires SameContents(t, u)
    ensures t == u
  {
    if t.Nil? && u.Node? {
      var k := StoredKey(u);
    } else if t.Node? && u.Nil? {
      var k := StoredKey(t);
    } else if t.Node? && u.Node? {
      SamePath(t, u);
      assert Lookup(t, t.path) == Lookup(u, t.path);
      SameChild(t, u, false);
      SameChild(t, u, true);
      CanonicalUnique(t.left, u.left);
      CanonicalUnique(t.right, u.right);
    }
  }

  lemma {:induction false} RootUnique(t: Trie, u: Trie)
    requires IsRoot(t) && IsRoot(u)
    requires SameContents(t, u)
    ensures t == u
  {
    EmptyContents();
    if t == EMPTY_ROOT && u != EMPTY_ROOT {
      CanonicalUnique(Nil, u);
    } else if t != EMPTY_ROOT && u == EMPTY_ROOT {
      CanonicalUnique(t, Nil);
    } else if t != EMPTY_ROOT {
      CanonicalUnique(t, u);
    }
  }

  lemma EmptyContents()
    ensures SameContents(EMPTY_ROOT, Nil)
  {
    forall k ensures Lookup(EMPTY_ROOT, k) == ZERO_VALUE {
      LeafLookup([], ZERO_VALUE, k);
    }
  }

  // ----- a whole update -----

  datatype TrieDiff = TrieDiff(key: Bits, value: Digest)

  function InsertAll(t: Trie, diffs: seq<TrieDiff>): (r: Trie)
    requires t.Node?
    ensures r.Node?
  {
    if diffs == [] then t
    else
      var last := diffs[|diffs| - 1];
      Insert(InsertAll(t, diffs[..|diffs| - 1]), last.key, last.value)
  }

  lemma InsertAllStep(t: Trie, diffs: seq<TrieDiff>, i: nat)
    requires t.Node? && i < |diffs|
    ensures InsertAll(t, diffs[..i + 1]) == Insert(InsertAll(t, diffs[..i]), diffs[i].key, diffs[i].value)
  {
    assert diffs[..i + 1][..i] == diffs[..i];
  }

  lemma InsertAllEnds(t: Trie, diffs: seq<TrieDiff>)
    requires t.Node?
    ensures InsertAll(t, diffs[..0]) == t && diffs[..|diffs|] == diffs
  {
  }

  /** The trie an update leaves behind. */
  function Update(t: Trie, diffs: seq<TrieDiff>): (r: Trie)
    requires t.Node?
    ensures r.Node?
  {
    Rooted(Collapse(InsertAll(t, diffs)))
  }

  /** What key k holds once the diffs are applied in order over the value before. */
  function Overridden(before: Digest, diffs: seq<TrieDiff>, k: Bits): Digest
  {
    if diffs == [] then before
    else if diffs[|diffs| - 1].key == k then diffs[|diffs| - 1].value
    else Overridden(before, diffs[..|diffs| - 1], k)
  }

  /** The last of the diffs for a key decides; without one the value before stays. */
  lemma {:induction false} OverriddenExact(before: Digest, diffs: seq<TrieDiff>, k: Bits)
    ensures || (Overridden(before, diffs, k) == before && forall i | 0 <= i < |diffs| :: diffs[i].key != k)
            || exists i | 0 <= i < |diffs| ::
                 diffs[i] == TrieDiff(k, Overridden(before, diffs, k)) && forall j | i < j < |diffs| :: diffs[j].key != k
  {
    if diffs != [] {
      var n := |diffs| - 1;
      if diffs[n].key == k {
        assert diffs[n] == TrieDiff(k, Overridden(before, diffs, k));
      } else {
        OverriddenExact(before, diffs[..n], k);
      }
    }
  }

  lemma {:induction false} InsertAllLookup(t: Trie, diffs: seq<TrieDiff>, k: Bits)
    requires t.Node?
    ensures Lookup(InsertAll(t, diffs), k) == Overridden(Lookup(t, k), diffs, k)
  {
    if diffs != [] {
      var before, last := diffs[..|diffs| - 1], diffs[|diffs| - 1];
      InsertAllLookup(t, before, k);
      InsertLookup(InsertAll(t, before), last.key, last.value, k);
    }
  }

  /** An update of any trie holds, under every key of any length, the last value its
      diffs give the key, and is in the one form a root may have. */
  lemma {:induction false} UpdateContents(t: Trie, diffs: seq<TrieDiff>)
    requires t.Node?
    ensures IsRoot(Update(t, diffs))
    ensures forall k :: Lookup(Update(t, diffs), k) == Overridden(Lookup(t, k), diffs, k)
  {
    var inserted := InsertAll(t, diffs);
    CollapseCanonical(inserted);
    EmptyContents();
    forall k ensures Lookup(Update(t, diffs), k) == Overridden(Lookup(t, k), diffs, k) {
      InsertAllLookup(t, diffs, k);
      CollapseLookup(inserted, k);
      assert Lookup(EMPTY_ROOT, k) == Lookup(Nil, k);
    }
  }

  /** The root is a function of the resulting contents alone: any two histories that
      end in the same contents end in the same trie. */
  lemma {:induction false} UpdateDependsOnContents(t: Trie, d: seq<TrieDiff>, u: Trie, e: seq<TrieDiff>)
    requires t.Node? && u.Node?
    requires forall k :: Overridden(Lookup(t, k), d, k) == Overridden(Lookup(u, k), e, k)
    ensures Update(t, d) == Update(u, e)
  {
    UpdateContents(t, d);
    UpdateContents(u, e);
    RootUnique(Update(t, d), Update(u, e));
  }

  predicate DistinctKeys(diffs: seq<TrieDiff>)
  {
    forall i, j :: 0 <= i < j < |diffs| ==> diffs[i].key != diffs[j].key
  }

  lemma {:induction false} OverriddenByMember(before: Digest, diffs: seq<TrieDiff>, i: nat)
    requires DistinctKeys(diffs) && i < |diffs|
    ensures Overridden(before, diffs, diffs[i].key) == diffs[i].value
  {
    if i < |diffs| - 1 { OverriddenByMember(before, diffs[..|diffs| - 1], i); }
  }

  lemma {:induction false} OverriddenByNone(before: Digest, diffs: seq<TrieDiff>, k: Bits)
    requires forall d :: d in diffs ==> d.key != k
    ensures Overridden(before, diffs, k) == before
  {
    if diffs != [] { OverriddenByNone(before, diffs[..|diffs| - 1], k); }
  }

  /** Any order of diffs with distinct keys gives the same trie. */
  lemma {:induction false} UpdateOrderIrrelevant(t: Trie, d: seq<TrieDiff>, e: seq<TrieDiff>)
    requires t.Node?
    requires DistinctKeys(d) && DistinctKeys(e)
    requires forall x :: x in d <==> x in e
    ensures Update(t, d) == Update(t, e)
  {
    forall k ensures Overridden(Lookup(t, k), d, k) == Overridden(Lookup(t, k), e, k) {
      var before := Lookup(t, k);
      if i :| 0 <= i < |d| && d[i].key == k {
        OverriddenByMember(before, d, i);
        assert d[i] in e;
        var j :| 0 <= j < |e| && e[j] == d[i];
        OverriddenByMember(before, e, j);
      } else {
        OverriddenByNone(before, d, k);
        OverriddenByNone(before, e, k);
      }
    }
    UpdateDependsOnContents(t, d, t, e);
  }
}
