/**
 * Writing a run of bytes into a mutable slice. `Splice(s, at, w)` is the
 * contents of `s` after `w` has been copied over it from position `at`; every
 * method below that writes into a destination slice states its whole new
 * contents with it.
 */
module Buffers {
  import opened Seqs

  function Splice<T>(s: seq<T>, at: nat, w: seq<T>): (r: seq<T>)
    requires at + |w| <= |s|
    ensures |r| == |s|
  {
    s[..at] + w + s[at + |w|..]
  }

  /** Writing `a` and then `b` right after it is writing `a + b`. */
  lemma {:induction false} SpliceSplice<T>(s: seq<T>, at: nat, a: seq<T>, b: seq<T>)
    requires at + |a| + |b| <= |s|
    ensures Splice(Splice(s, at, a), at + |a|, b) == Splice(s, at, a + b)
  {
    var l, r := Splice(Splice(s, at, a), at + |a|, b), Splice(s, at, a + b);
    assert |l| == |r|;
    forall i | 0 <= i < |l|
      ensures l[i] == r[i]
    {
      if i < at {
      } else if i < at + |a| {
        assert l[i] == Splice(s, at, a)[i] == a[i - at];
      } else if i < at + |a| + |b| {
        assert r[i] == (a + b)[i - at];
      }
    }
  }

  /** Writing `w` after `a` over an earlier `a + z`, with `w` at least as long as `z`, leaves `a + w`. */
  lemma {:induction false} SpliceOver<T>(s: seq<T>, at: nat, a: seq<T>, z: seq<T>, w: seq<T>)
    requires |z| <= |w| && at + |a| + |w| <= |s|
    ensures Splice(Splice(s, at, a + z), at + |a|, w) == Splice(s, at, a + w)
  {
    var l, r := Splice(Splice(s, at, a + z), at + |a|, w), Splice(s, at, a + w);
    assert |l| == |r|;
    forall i | 0 <= i < |l|
      ensures l[i] == r[i]
    {
      if i < at {
      } else if i < at + |a| {
        assert l[i] == Splice(s, at, a + z)[i] == (a + z)[i - at];
        assert r[i] == (a + w)[i - at];
      } else if i < at + |a| + |w| {
        assert r[i] == (a + w)[i - at];
      }
    }
  }

  lemma {:induction false} SpliceEmpty<T>(s: seq<T>, at: nat)
    requires at <= |s|
    ensures Splice(s, at, []) == s
  {
  }

  /**
   * Copies `w` into `dest` from position `at`: the `copy_from_slice` of a
   * subslice and the unaligned 32-byte vector store.
   */
  method Store(dest: array<bv8>, at: nat, w: seq<bv8>)
    requires at + |w| <= dest.Length
    modifies dest
    ensures dest[..] == Splice(old(dest[..]), at, w)
  {
    for i := 0 to |w|
      invariant dest[..] == Splice(old(dest[..]), at, w[..i])
    {
      SpliceSplice(old(dest[..]), at, w[..i], [w[i]]);
      assert w[..i] + [w[i]] == w[..i + 1];
      dest[at + i] := w[i];
    }
    assert w[..|w|] == w;
  }
}
