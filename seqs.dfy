/**
 * Facts about slicing and concatenating sequences, stated for any element
 * type so that they are proved once, apart from the byte-level definitions.
 */
module Seqs {

  /** Dropping a prefix of the left operand commutes with concatenation. */
  lemma DropAppend<T>(a: seq<T>, b: seq<T>, n: nat)
    requires n <= |a|
    ensures (a + b)[n..] == a[n..] + b
  {
  }

  /** The slice of a concatenation that starts where the left operand ends. */
  lemma SliceAfterPrefix<T>(a: seq<T>, b: seq<T>, n: nat)
    requires n <= |b|
    ensures (a + b)[|a|..|a| + n] == b[..n]
  {
  }

  /** A sequence is its prefix followed by the rest. */
  lemma SplitAt<T>(s: seq<T>, k: nat)
    requires k <= |s|
    ensures s == s[..k] + s[k..]
  {
  }

  /** A sequence is its prefix, a middle slice and the rest. */
  lemma ThreeParts<T>(s: seq<T>, x: nat, y: nat)
    requires x <= y <= |s|
    ensures s == s[..x] + (s[x..y] + s[y..])
  {
  }

  /** A prefix followed by the next slice is the longer prefix. */
  lemma PrefixSlice<T>(s: seq<T>, i: nat, j: nat)
    requires i <= j <= |s|
    ensures s[..i] + s[i..j] == s[..j]
  {
  }

  /** A slice of `s` that lies inside its prefix `p` is the same slice of `p`. */
  lemma SliceOfPrefix<T>(s: seq<T>, p: seq<T>, lo: nat, hi: nat)
    requires |p| <= |s| && p == s[..|p|] && lo <= hi <= |p|
    ensures s[lo..hi][..hi - lo] == p[lo..hi]
  {
  }

  /** Concatenation is associative. */
  lemma AppendAssoc<T>(a: seq<T>, b: seq<T>, c: seq<T>)
    ensures a + (b + c) == (a + b) + c
  {
  }
  /** A slice of a concatenation that lies inside its left operand. */
  lemma SliceInLeft<T>(a: seq<T>, b: seq<T>, lo: nat, hi: nat)
    requires lo <= hi <= |a|
    ensures (a + b)[lo..hi] == a[lo..hi]
  {
  }

  /** A slice of a concatenation that lies inside its right operand, starting at `i`. */
  lemma SliceInRight<T>(a: seq<T>, b: seq<T>, lo: nat, n: nat, i: nat)
    requires lo + n <= |b| && i == |a| + lo
    ensures (a + b)[i..i + n] == b[lo..lo + n]
  {
  }

  /** The left operand is a prefix of a concatenation. */
  lemma PrefixOfAppend<T>(a: seq<T>, b: seq<T>)
    ensures (a + b)[..|a|] == a
  {
  }

  /** Four consecutive elements as a slice. */
  lemma Slice4<T>(s: seq<T>, k: nat)
    requires k + 4 <= |s|
    ensures s[k..k + 4] == [s[k], s[k + 1], s[k + 2], s[k + 3]]
  {
  }

  /** A sequence of at least three elements is its first three and the rest. */
  lemma Split3<T>(s: seq<T>)
    requires |s| >= 3
    ensures s == [s[0], s[1], s[2]] + s[3..]
  {
  }
  /** A prefix followed by the next three elements is the longer prefix. */
  lemma PrefixSnoc3<T>(s: seq<T>, k: nat)
    requires k + 3 <= |s|
    ensures s[..k] + [s[k], s[k + 1], s[k + 2]] == s[..k + 3]
  {
  }

  /** A slice of a suffix is a slice of the whole, shifted. */
  lemma SliceOfDrop<T>(s: seq<T>, k: nat, lo: nat, hi: nat)
    requires lo <= hi && k + hi <= |s|
    ensures s[k..][lo..hi] == s[k + lo..k + hi]
  {
  }
}
