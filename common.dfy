/** Shared value types: bytes as read from a file, and an optional value
    standing for Python's `None`. */
module Common {

  /** One byte of file content, as Python's `bytes` holds it. */
  newtype byte = b: int | 0 <= b < 256

  /** A value that may be absent (`None` in the source). */
  datatype Option<+T> = None | Some(value: T)

  /** `s` begins with `prefix`. */
  predicate StartsWith<T(==)>(s: seq<T>, prefix: seq<T>)
  {
    |prefix| <= |s| && s[..|prefix|] == prefix
  }

  /** Python's slice `s[:n]` for `n >= 0`: at most the first `n` elements. */
  function Take<T>(s: seq<T>, n: nat): (r: seq<T>)
    ensures |r| == if n <= |s| then n else |s|
    ensures StartsWith(s, r)
  {
    if n <= |s| then s[..n] else s
  }

  /** Comparing a slice `s[:|p|]` with `p`, as the source does, is the same as
      asking whether `s` starts with `p`: a too-short `s` never matches. */
  lemma TakeEqualsIffStartsWith<T>(s: seq<T>, p: seq<T>)
    ensures Take(s, |p|) == p <==> StartsWith(s, p)
  {
    if |s| < |p| {
      assert |Take(s, |p|)| < |p|;
    }
  }
}
