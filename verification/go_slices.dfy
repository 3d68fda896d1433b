/**
 The small part of Go's slice semantics the proxy relies on: indexing and
 slicing that panic when out of range, and the built-in `copy`.

 A Go byte slice is modelled by its visible bytes (`seq<bv8>`, of length
 `len(s)`) together with its capacity `cap(s)`. Indexing `s[i]` needs
 `i < len(s)`; the slice expression `s[lo:hi]` only needs `hi <= cap(s)`,
 so a slice may reach past the visible end into the backing array.
 */
module GoSlices {

  /** Why a Go expression panicked. */
  datatype PanicKind = IndexOutOfRange | SliceBoundsOutOfRange

  /** The outcome of a computation that either yields a value or panics. */
  datatype Result<T> = Ok(value: T) | Panic(kind: PanicKind)

  function Min(a: int, b: int): int
  {
    if a <= b then a else b
  }

  /**
   The visible bytes of `s` after `copy(s[lo:lo+|src|], src)`, when the
   backing array is large enough for the copy. Bytes that the copy writes
   beyond the visible end land in the backing array only and are dropped.
   */
  function CopyAt(s: seq<bv8>, lo: nat, src: seq<bv8>): (r: seq<bv8>)
    ensures |r| == |s|
    ensures forall i :: 0 <= i < |s| && !(lo <= i < lo + |src|) ==> r[i] == s[i]
    ensures forall i :: lo <= i < Min(|s|, lo + |src|) ==> r[i] == src[i - lo]
  {
    if |s| <= lo then s
    else if lo + |src| <= |s| then s[..lo] + src + s[lo + |src|..]
    else s[..lo] + src[..|s| - lo]
  }

  /** Copying the same bytes to the same place a second time changes nothing. */
  lemma CopyAtIdempotent(s: seq<bv8>, lo: nat, src: seq<bv8>)
    ensures CopyAt(CopyAt(s, lo, src), lo, src) == CopyAt(s, lo, src)
  {
    var once := CopyAt(s, lo, src);
    var twice := CopyAt(once, lo, src);
    assert forall i :: 0 <= i < |s| ==> twice[i] == once[i];
  }

  /** When the window lies inside the visible bytes, `copy` is a splice. */
  lemma CopyAtSplice(s: seq<bv8>, lo: nat, src: seq<bv8>)
    requires lo + |src| <= |s|
    ensures CopyAt(s, lo, src)[lo..lo + |src|] == src
    ensures CopyAt(s, lo, src)[..lo] == s[..lo]
    ensures CopyAt(s, lo, src)[lo + |src|..] == s[lo + |src|..]
  {
  }
}
