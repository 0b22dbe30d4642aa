/** Shared vocabulary: optional values, results, bytes, and Python's slice
    semantics on byte strings. */
module Base {

  /** A value that may be absent (Python's `None`). */
  datatype Option<+T> = None | Some(value: T)

  /** The outcome of an operation that may raise. */
  datatype Result<+T, +E> = Ok(value: T) | Err(error: E)

  type byte = b: int | 0 <= b < 0x100

  type Bytes = seq<byte>

  /** `s[i:j]` in Python for non-negative bounds: both bounds are clamped to
      the length and an empty slice results when the stop is not past the
      start. Slicing never raises. */
  function PySlice<T>(s: seq<T>, i: nat, j: nat): (r: seq<T>)
    ensures j <= i || |s| <= i ==> r == []
    ensures i < j <= |s| ==> r == s[i..j]
    ensures i < |s| < j ==> r == s[i..]
    ensures |r| <= |s|
  {
    var lo := if i < |s| then i else |s|;
    var hi := if j < |s| then j else |s|;
    if hi <= lo then [] else s[lo..hi]
  }

  /** True when `pat` occurs in `s` starting at index `i`. */
  predicate OccursAt<T(==)>(s: seq<T>, pat: seq<T>, i: int)
  {
    0 <= i && i + |pat| <= |s| && s[i..i + |pat|] == pat
  }

  /** `pat in s` for byte strings (Python's `s.find(pat) > -1`). */
  predicate Contains<T(==)>(s: seq<T>, pat: seq<T>)
  {
    exists i | 0 <= i <= |s| :: OccursAt(s, pat, i)
  }

  predicate EndsWith<T(==)>(s: seq<T>, pat: seq<T>)
  {
    |pat| <= |s| && s[|s| - |pat|..] == pat
  }

  function Pow(base: int, e: nat): int
  {
    if e == 0 then 1 else base * Pow(base, e - 1)
  }

  lemma {:induction false} PowPositive(base: int, e: nat)
    requires base > 0
    ensures Pow(base, e) > 0
  {
    if e > 0 {
      PowPositive(base, e - 1);
    }
  }
}
