/** Machine words, and changes to a list: one element taken out, a stretch written over. */
module Basics {

  const TWO_32: nat := 0x1_0000_0000

  type U32 = x: int | 0 <= x < 0x1_0000_0000

  function AsU32(n: int): U32 { n % TWO_32 }

  const TWO_64: nat := 0x1_0000_0000_0000_0000

  type U64 = x: int | 0 <= x < 0x1_0000_0000_0000_0000

  function Without<A>(s: seq<A>, i: nat): seq<A>
  {
    if i < |s| then s[..i] + s[i + 1..] else s
  }

  lemma WithoutAt<A>(s: seq<A>, i: nat)
    ensures |Without(s, i)| == if i < |s| then |s| - 1 else |s|
    ensures forall j | 0 <= j < |Without(s, i)| :: Without(s, i)[j] == s[if j < i then j else j + 1]
    ensures s != [] ==> Without(s, 0) == s[1..]
  {
  }

  lemma WithoutSnoc<A>(s: seq<A>, x: A, i: nat)
    ensures Without(s + [x], i) == if i == |s| then Without(s, i) else Without(s, i) + [x]
  {
  }

  /** A list after p was written over it from pos on. */
  function Overwritten<A>(s: seq<A>, pos: nat, p: seq<A>): (r: seq<A>)
    requires pos <= |s|
    ensures |r| >= pos + |p| && r[..pos] == s[..pos] && r[pos..pos + |p|] == p
    ensures r[pos + |p|..] == Leftover(s[pos..], |p|)
  {
    s[..pos] + p + Leftover(s[pos..], |p|)
  }

  /** What writing n elements over the start of a tail leaves of it. */
  function Leftover<A>(tail: seq<A>, n: nat): seq<A> { if n <= |tail| then tail[n..] else [] }

  lemma OverwrittenFrom<A>(s: seq<A>, first: nat, pos: nat, p: seq<A>)
    requires first <= pos <= |s|
    ensures Overwritten(s, pos, p)[first..pos + |p|] == s[first..pos] + p
  {
  }
}
