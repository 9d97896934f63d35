/** Facts about sequences, and memcpy */
module Seqs {

  lemma Associative<T>(a: seq<T>, b: seq<T>, c: seq<T>)
    ensures a + b + c == a + (b + c)
  {
  }

  /** A part of a part */
  lemma Within<T>(s: seq<T>, pos: nat, size: nat, i: nat, j: nat)
    requires pos + size <= |s| && i <= j <= size
    ensures s[pos..pos + size][i..j] == s[pos + i..pos + j]
  {
    var whole, part := s[pos..pos + size], s[pos + i..pos + j];
    forall k | 0 <= k < j - i ensures whole[i..j][k] == part[k] {
      assert whole[i + k] == s[pos + i + k];
    }
  }

  /** What is the same from j on is so from k on */
  lemma SameTail<T>(x: seq<T>, y: seq<T>, j: nat, k: nat)
    requires |x| == |y| && j <= k <= |x| && x[j..] == y[j..]
    ensures x[k..] == y[k..]
  {
    assert x[j..][k - j..] == x[k..] && y[j..][k - j..] == y[k..];
  }

  /** memcpy to position `at` */
  method Write<T>(a: array<T>, at: nat, s: seq<T>)
    requires at + |s| <= a.Length
    modifies a
    ensures a[..] == old(a[..])[..at] + s + old(a[..])[at + |s|..]
  {
    forall k | 0 <= k < |s| { a[at + k] := s[k]; }
  }
}
