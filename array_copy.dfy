// Copying a run of an array onto the same array, as Java's
// `System.arraycopy(a, src, a, dst, n)` and Go's `copy(a[dst:], a[src:src+n])`
// do: overlapping runs behave as if the source were first copied aside.
module ArrayCopy {
  /** The array after copying `n` entries from `src` to `dst`. */
  function CopiedWithin<T>(s: seq<T>, src: nat, dst: nat, n: nat): (r: seq<T>)
    requires src + n <= |s| && dst + n <= |s|
    ensures |r| == |s|
    ensures forall k :: dst <= k < dst + n ==> r[k] == s[src + k - dst]
    ensures forall k :: 0 <= k < |s| && !(dst <= k < dst + n) ==> r[k] == s[k]
  {
    s[..dst] + s[src..src + n] + s[dst + n..]
  }

  method CopyWithin<T>(a: array<T>, src: nat, dst: nat, n: nat)
    requires src + n <= a.Length && dst + n <= a.Length
    modifies a
    ensures a[..] == CopiedWithin(old(a[..]), src, dst, n)
  {
    ghost var s := a[..];
    if dst <= src {
      // Forwards: every read position is at or after the written ones.
      for k := 0 to n
        invariant forall m :: dst <= m < dst + k ==> a[m] == s[src + m - dst]
        invariant forall m :: 0 <= m < a.Length && !(dst <= m < dst + k) ==> a[m] == s[m]
      {
        a[dst + k] := a[src + k];
      }
    } else {
      // Backwards: every read position is before the written ones.
      for k := n downto 0
        invariant forall m :: dst + k <= m < dst + n ==> a[m] == s[src + m - dst]
        invariant forall m :: 0 <= m < a.Length && !(dst + k <= m < dst + n) ==> a[m] == s[m]
      {
        a[dst + k] := a[src + k];
      }
    }
    assert a[..] == CopiedWithin(s, src, dst, n);
  }
}
