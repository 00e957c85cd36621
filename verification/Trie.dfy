/** The compressed binary trie of crypto/merkle as an immutable value: the partner
    against which the pointer structure in TrieHeap is proved.
 */
module Trie {
  import opened Digests

  datatype Trie = Nil | Node(path: Bits, value: Digest, left: Trie, right: Trie)

  const EMPTY_ROOT: Trie := Node([], ZERO_VALUE, Nil, Nil)

  function Leaf(path: Bits, value: Digest): Trie { Node(path, value, Nil, Nil) }

  function Child(t: Trie, arc: bool): Trie
    requires t.Node?
  {
    if arc then t.right else t.left
  }

  function WithChild(t: Trie, arc: bool, child: Trie): Trie
    requires t.Node?
  {
    if arc then t.(right := child) else t.(left := child)
  }

  predicate IsLeaf(t: Trie)
    requires t.Node?
  {
    t.left.Nil? && t.right.Nil?
  }

  /** The value hash stored under key, ZERO_VALUE when the key is absent. */
  function Lookup(t: Trie, key: Bits): Digest
  {
    if t.Nil? then ZERO_VALUE
    else if key == t.path then t.value
    else if t.path <= key then Lookup(Child(t, key[|t.path|]), key[|t.path| + 1..])
    else ZERO_VALUE
  }

  function CommonLength(p: Bits, q: Bits): (i: nat)
    ensures i <= |p| && i <= |q|
    ensures p[..i] == q[..i]
    ensures i < |p| && i < |q| ==> p[i] != q[i]
  {
    if p == [] || q == [] || p[0] != q[0] then 0
    else
      var i := 1 + CommonLength(p[1..], q[1..]);
      assert p[..i] == [p[0]] + p[1..][..i - 1];
      assert q[..i] == [q[0]] + q[1..][..i - 1];
      i
  }

  // ----- insert -----

  function Insert(t: Trie, key: Bits, value: Digest): (r: Trie)
    requires t.Node?
    ensures r.Node?
    decreases t, 1
  {
    if t.path == key then t.(value := value)
    else if t.path <= key then InsertBelow(t, key, value)
    else if key <= t.path then InsertParent(t, key, value)
    else InsertSibling(t, key, value)
  }

  function InsertBelow(t: Trie, key: Bits, value: Digest): (r: Trie)
    requires t.Node? && t.path < key
    ensures r.Node?
    decreases t, 0
  {
    if t.value == ZERO_VALUE && IsLeaf(t) then t.(path := key, value := value)
    else
      var arc, rest := key[|t.path|], key[|t.path| + 1..];
      var child := Child(t, arc);
      if child.Node? then WithChild(t, arc, Insert(child, rest, value))
      else if value == ZERO_VALUE then t
      else WithChild(t, arc, Leaf(rest, value))
  }

  function InsertParent(t: Trie, key: Bits, value: Digest): (r: Trie)
    requires t.Node? && key < t.path
    ensures r.Node?
  {
    WithChild(Leaf(key, value), t.path[|key|], t.(path := t.path[|key| + 1..]))
  }

  function InsertSibling(t: Trie, key: Bits, value: Digest): (r: Trie)
    requires t.Node? && !(t.path <= key) && !(key <= t.path)
    ensures r.Node?
  {
    var i := CommonLength(t.path, key);
    var parent := WithChild(Leaf(key[..i], ZERO_VALUE), t.path[i], t.(path := t.path[i + 1..]));
    WithChild(parent, key[i], Leaf(key[i + 1..], value))
  }

  lemma LeafLookup(path: Bits, value: Digest, k: Bits)
    ensures Lookup(Leaf(path, value), k) == if k == path then value else ZERO_VALUE
  {
    if path < k { assert Lookup(Nil, k[|path| + 1..]) == ZERO_VALUE; }
  }

  /** A key strictly below a node is looked up in the child its next bit selects. */
  lemma BelowLookup(t: Trie, k: Bits)
    requires t.Node? && t.path < k
    ensures Lookup(t, k) == Lookup(Child(t, k[|t.path|]), k[|t.path| + 1..])
  {
  }

  /** At its own path a node stores its value; off it, nothing. */
  lemma TopLookup(t: Trie, k: Bits)
    requires t.Node?
    ensures k == t.path ==> Lookup(t, k) == t.value
    ensures !(t.path <= k) ==> Lookup(t, k) == ZERO_VALUE
  {
  }

  lemma NilLookup(k: Bits)
    ensures Lookup(Nil, k) == ZERO_VALUE
  {
  }

  lemma SplitAt(k: Bits, i: nat)
    requires i < |k|
    ensures k == k[..i] + [k[i]] + k[i + 1..]
  {
  }

  /** Inserting changes what is stored under the inserted key and nothing else,
      for keys of any length. */
  lemma {:induction false} InsertLookup(t: Trie, key: Bits, value: Digest, k: Bits)
    requires t.Node?
    ensures Lookup(Insert(t, key, value), k) == if k == key then value else Lookup(t, k)
    decreases t
  {
    if t.path == key {
    } else if t.path <= key {
      if t.value == ZERO_VALUE && IsLeaf(t) {
        LeafLookup(key, value, k);
        LeafLookup(t.path, t.value, k);
      } else {
        InsertBelowLookup(t, key, value, k);
      }
    } else if key <= t.path {
      InsertParentLookup(t, key, value, k);
    } else {
      InsertSiblingLookup(t, key, value, k);
    }
  }

  lemma {:induction false} InsertBelowLookup(t: Trie, key: Bits, value: Digest, k: Bits)
    requires t.Node? && t.path < key
    requires !(t.value == ZERO_VALUE && IsLeaf(t))
    ensures Lookup(InsertBelow(t, key, value), k) == if k == key then value else Lookup(t, k)
    decreases t, 0
  {
    hide Lookup, Insert, InsertBelow;
    var i, r := |t.path|, InsertBelow(t, key, value);
    BelowShape(t, key, value);
    TopLookup(t, k);
    TopLookup(r, k);
    if t.path < k {
      BelowLookup(t, k);
      BelowLookup(r, k);
      if k[i] == key[i] {
        BelowSame(t.path, k, key);
        var child := Child(t, key[i]);
        if child.Node? {
          InsertLookup(child, key[i + 1..], value, k[i + 1..]);
        } else {
          NilLookup(k[i + 1..]);
          LeafLookup(key[i + 1..], value, k[i + 1..]);
        }
      }
    }
  }

  /** Only the child that the key selects changes. */
  lemma BelowShape(t: Trie, key: Bits, value: Digest)
    requires t.Node? && t.path < key && !(t.value == ZERO_VALUE && IsLeaf(t))
    ensures var r, arc, rest := InsertBelow(t, key, value), key[|t.path|], key[|t.path| + 1..];
            && r.path == t.path && r.value == t.value && Child(r, !arc) == Child(t, !arc)
            && Child(r, arc) == if Child(t, arc).Node? then Insert(Child(t, arc), rest, value)
                                else if value == ZERO_VALUE then Nil else Leaf(rest, value)
  {
    hide Insert;
  }

  lemma BelowSame(path: Bits, k: Bits, key: Bits)
    requires path < k && path < key && k[|path|] == key[|path|]
    ensures k == key <==> k[|path| + 1..] == key[|path| + 1..]
  {
    SplitAt(k, |path|);
    SplitAt(key, |path|);
  }

  /** Pushing a node below a new parent drops the shared prefix and the arc. */
  lemma {:induction false} PushDownLookup(t: Trie, i: nat, k: Bits)
    requires t.Node? && i < |t.path|
    requires i < |k| && k[..i] == t.path[..i] && k[i] == t.path[i]
    ensures Lookup(t.(path := t.path[i + 1..]), k[i + 1..]) == Lookup(t, k)
  {
    assert k == t.path[..i + 1] + k[i + 1..];
    assert t.path == t.path[..i + 1] + t.path[i + 1..];
    assert t.path[i + 1..] <= k[i + 1..] ==> t.path <= k;
    if t.path < k {
      assert k[i + 1..][|t.path| - i..] == k[|t.path| + 1..];
    }
  }

  /** A key that leaves the path of a node before its end is not stored under it. */
  lemma MissesPath(t: Trie, i: nat, k: Bits)
    requires t.Node? && i < |t.path|
    requires i < |k| ==> k[i] != t.path[i]
    ensures Lookup(t, k) == ZERO_VALUE
  {
  }

  lemma {:induction false} InsertParentLookup(t: Trie, key: Bits, value: Digest, k: Bits)
    requires t.Node? && key < t.path
    ensures Lookup(InsertParent(t, key, value), k) == if k == key then value else Lookup(t, k)
  {
    var i := |key|;
    assert t.path <= k ==> key <= k;
    if key < k {
      BelowLookup(InsertParent(t, key, value), k);
      if k[i] == t.path[i] {
        PushDownLookup(t, i, k);
      } else {
        MissesPath(t, i, k);
      }
    }
  }

  lemma {:induction false} InsertSiblingLookup(t: Trie, key: Bits, value: Digest, k: Bits)
    requires t.Node? && !(t.path <= key) && !(key <= t.path)
    ensures Lookup(InsertSibling(t, key, value), k) == if k == key then value else Lookup(t, k)
  {
    hide Lookup, CommonLength;
    var i, r := CommonLength(t.path, key), InsertSibling(t, key, value);
    SplitAt(key, i);
    TopLookup(t, k);
    TopLookup(r, k);
    if key[..i] < k {
      SplitAt(k, i);
      BelowLookup(r, k);
      if k[i] == t.path[i] {
        PushDownLookup(t, i, k);
      } else {
        MissesPath(t, i, k);
        LeafLookup(key[i + 1..], value, k[i + 1..]);
      }
    } else {
      assert t.path <= k ==> k[..i] == key[..i];
    }
  }
}
