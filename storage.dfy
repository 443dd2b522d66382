/** Growable storage: what `realloc` does to a buffer that grows. */
module Storage {

  /**
   * A buffer of `newLength` cells whose first cells are those of `a`, in
   * order; the cells beyond hold `fill`.
   */
  method Realloc<T>(a: array<T>, newLength: nat, fill: T) returns (b: array<T>)
    requires a.Length <= newLength
    ensures fresh(b) && b.Length == newLength
    ensures b[..a.Length] == a[..]
  {
    b := new T[newLength](_ => fill);
    var i := 0;
    while i < a.Length
      invariant 0 <= i <= a.Length
      invariant b[..i] == a[..i]
    {
      b[i] := a[i];
      i := i + 1;
    }
  }

  /** Writes `x` at index `k`, which extends the prefix `a[..k]` by one element. */
  method Put<T>(a: array<T>, k: nat, x: T)
    requires k < a.Length
    modifies a
    ensures a[..k + 1] == old(a[..k]) + [x]
  {
    a[k] := x;
    assert a[..k + 1] == a[..k] + [x];
  }
}
