/** Facts about slicing concatenated sequences, used to read fields back
    out of a byte layout. */
module Seqs {
  /** A prefix made of two parts splits into those parts. */
  lemma SplitPrefix<T>(u: seq<T>, a: seq<T>, b: seq<T>)
    requires |a| + |b| <= |u| && u[..|a| + |b|] == a + b
    ensures u[..|a|] == a && u[|a|..|a| + |b|] == b
  {
    assert u[..|a|] == (a + b)[..|a|];
    assert u[|a|..|a| + |b|] == (a + b)[|a|..];
  }

  /** A concatenation splits back into its two parts. */
  lemma ConcatParts<T>(x: seq<T>, y: seq<T>)
    ensures (x + y)[..|x|] == x && (x + y)[|x|..] == y
  {
  }

  /** A prefix of a concatenation that covers its first part. */
  lemma PrefixOfConcat<T>(x: seq<T>, y: seq<T>, k: nat)
    requires |x| <= k <= |x| + |y|
    ensures (x + y)[..k] == x + y[..k - |x|]
  {
  }

  /** Appending five parts one after another gives their right-nested
      concatenation. */
  lemma AppendFive<T>(s: seq<T>, a: seq<T>, b: seq<T>, c: seq<T>, d: seq<T>, e: seq<T>)
    ensures s + a + b + c + d + e == s + (a + (b + (c + (d + e))))
  {
  }

  /** A slice grown by one element at its end. */
  lemma SliceExtend<T>(s: seq<T>, i: nat, j: nat)
    requires i <= j < |s|
    ensures s[i..j + 1] == s[i..j] + [s[j]]
  {
  }

  /** Concatenation is associative. */
  lemma Associative<T>(a: seq<T>, b: seq<T>, c: seq<T>)
    ensures (a + b) + c == a + (b + c)
  {
  }
}
