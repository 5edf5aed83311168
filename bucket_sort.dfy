// kanzi.util.sort.BucketSort (Java): a counting sort of a range of an
// `int[]` or `byte[]` array, with a reusable table of `1 << logMaxValue`
// counters that is all zero between calls.
module BucketSort {
  import opened Bytes
  import opened Wrappers
  import ArrayCopy

  // ---------------------------------------------------------------------
  // The range guard

  /** The guard of both `sort` methods as written: `blkptr + len` is an
      `int` sum and wraps past `Integer.MAX_VALUE`. */
  predicate RangeRejectedAsWritten(blkptr: int, len: int, length: nat)
    ensures IsInt(blkptr) && IsInt(len) ==>
      (RangeRejectedAsWritten(blkptr, len, length)
       <==> blkptr < 0 || len <= 0 || length < blkptr + len <= INT_MAX)
  {
    blkptr < 0 || len <= 0 || AddInt(blkptr, len) > length
  }

  /** The guard as evidently intended: the range `[blkptr, blkptr + len)`
      must be non-empty and lie inside the array. Comparing `len` with
      `length - blkptr` cannot wrap once `blkptr` is known not negative
      (`RangeRejectedStaysInInt`). */
  predicate RangeRejected(blkptr: int, len: int, length: nat)
    ensures RangeRejected(blkptr, len, length) <==> !(0 <= blkptr && 0 < len && blkptr + len <= length)
  {
    blkptr < 0 || len <= 0 || len > length - blkptr
  }

  /** A Java array length is an `int`: the intended guard only ever
      subtracts within `int` range, so it is a sound Java expression. */
  lemma RangeRejectedStaysInInt(blkptr: int, len: int, length: nat)
    requires IsInt(blkptr) && IsInt(len) && length <= INT_MAX && 0 <= blkptr
    ensures IsInt(length - blkptr)
  {
  }

  /** Without overflow the guard as written is the intended one. */
  lemma GuardsAgreeWithoutOverflow(blkptr: int, len: int, length: nat)
    requires IsInt(blkptr + len)
    ensures RangeRejectedAsWritten(blkptr, len, length) == RangeRejected(blkptr, len, length)
  {
  }

  /** The guard as written lets a range through that runs far past the end
      of a 10-element array: `1 + Integer.MAX_VALUE` wraps to
      `Integer.MIN_VALUE`, which is not greater than 10. */
  lemma OverflowSlipsPastGuard()
    ensures IsInt(1) && IsInt(INT_MAX)
    ensures !RangeRejectedAsWritten(1, INT_MAX, 10)
    ensures RangeRejected(1, INT_MAX, 10)
  {
    assert AddInt(1, INT_MAX) == INT_MIN;
  }

  // ---------------------------------------------------------------------
  // The sorted order a counting sort lays out

  /** `n` copies of `v`. */
  function Repeat<T>(v: T, n: nat): (r: seq<T>)
    ensures |r| == n && forall k :: 0 <= k < n ==> r[k] == v
  {
    if n == 0 then [] else Repeat(v, n - 1) + [v]
  }

  /** How often `x` occurs in `s`: what a counter holds once the counting
      loop has passed over `s`. */
  function Occurrences(s: seq<int>, x: int): nat {
    if s == [] then 0 else Occurrences(s[..|s| - 1], x) + if s[|s| - 1] == x then 1 else 0
  }

  lemma {:induction false} OccurrencesConcat(a: seq<int>, b: seq<int>, x: int)
    ensures Occurrences(a + b, x) == Occurrences(a, x) + Occurrences(b, x)
    decreases |b|
  {
    if b != [] {
      var b' := b[..|b| - 1];
      assert (a + b)[..|a + b| - 1] == a + b';
      OccurrencesConcat(a, b', x);
    } else {
      assert a + b == a;
    }
  }

  /** The counters are the multiplicities of the values in the range. */
  lemma {:induction false} OccurrencesMultiplicity(s: seq<int>, x: int)
    ensures Occurrences(s, x) == multiset(s)[x]
  {
    if s != [] {
      var s' := s[..|s| - 1];
      assert s == s' + [s[|s| - 1]];
      OccurrencesMultiplicity(s', x);
    }
  }

  lemma {:induction false} RepeatOccurrences(v: int, n: nat, x: int)
    ensures Occurrences(Repeat(v, n), x) == if x == v then n else 0
  {
    if n > 0 {
      assert Repeat(v, n)[..n - 1] == Repeat(v, n - 1);
      RepeatOccurrences(v, n - 1, x);
    }
  }

  /** The values `0..v-1` of `s`, each repeated as often as it occurs in
      `s`, in increasing order: what the writing loop of `sort` has laid
      out once it has emptied the counters below `v`. */
  function Spread(s: seq<int>, v: nat): seq<int> {
    if v == 0 then [] else Spread(s, v - 1) + Repeat(v - 1, Occurrences(s, v - 1))
  }

  ghost predicate Sorted(s: seq<int>) {
    forall i, j :: 0 <= i < j < |s| ==> s[i] <= s[j]
  }

  /** The layout is sorted and holds only values below `v`. */
  lemma {:induction false} SpreadSorted(s: seq<int>, v: nat)
    ensures Sorted(Spread(s, v))
    ensures forall k :: 0 <= k < |Spread(s, v)| ==> 0 <= Spread(s, v)[k] < v
  {
    if v > 0 {
      SpreadSorted(s, v - 1);
      var a, b := Spread(s, v - 1), Repeat(v - 1, Occurrences(s, v - 1));
      assert Spread(s, v) == a + b;
      forall i, j | 0 <= i < j < |a + b| ensures (a + b)[i] <= (a + b)[j] {
        if j < |a| {
        } else if i < |a| {
          assert a[i] < v - 1;
        }
      }
    }
  }

  /** The layout holds every value below `v` exactly as often as `s`, and
      nothing else. */
  lemma {:induction false} SpreadOccurrences(s: seq<int>, v: nat, x: int)
    ensures Occurrences(Spread(s, v), x) == if 0 <= x < v then Occurrences(s, x) else 0
  {
    if v > 0 {
      SpreadOccurrences(s, v - 1, x);
      RepeatOccurrences(v - 1, Occurrences(s, v - 1), x);
      OccurrencesConcat(Spread(s, v - 1), Repeat(v - 1, Occurrences(s, v - 1)), x);
    }
  }

  /** When every value of `s` is below `v`, the layout is `s` sorted: a
      sorted permutation of `s`. */
  lemma SpreadSorts(s: seq<int>, v: nat)
    requires forall k :: 0 <= k < |s| ==> 0 <= s[k] < v
    ensures Sorted(Spread(s, v)) && multiset(Spread(s, v)) == multiset(s)
    ensures |Spread(s, v)| == |s|
  {
    SpreadSorted(s, v);
    forall x ensures multiset(Spread(s, v))[x] == multiset(s)[x] {
      SpreadOccurrences(s, v, x);
      OccurrencesMultiplicity(s, x);
      OccurrencesMultiplicity(Spread(s, v), x);
      if x in s {
        var k :| 0 <= k < |s| && s[k] == x;
        assert 0 <= x < v;
      }
    }
    assert multiset(Spread(s, v)) == multiset(s);
    assert |multiset(Spread(s, v))| == |multiset(s)|;
  }

  /** The layout of values all below `v` has one entry per value. */
  lemma SpreadLength(s: seq<int>, v: nat)
    requires forall k :: 0 <= k < |s| ==> 0 <= s[k] < v
    ensures |Spread(s, v)| == |s|
  {
    SpreadSorts(s, v);
  }

  /** A partial layout is never longer than `s`. */
  lemma SpreadFits(s: seq<int>, v: nat)
    ensures |Spread(s, v)| <= |s|
  {
    var a, b := multiset(Spread(s, v)), multiset(s);
    forall x ensures a[x] <= b[x] {
      SpreadOccurrences(s, v, x);
      OccurrencesMultiplicity(s, x);
      OccurrencesMultiplicity(Spread(s, v), x);
    }
    assert b == a + (b - a);
  }

  lemma SortedHeadIsLeast(s: seq<int>, x: int)
    requires Sorted(s) && x in multiset(s)
    ensures s[0] <= x
  {
    assert x in s;
    var i :| 0 <= i < |s| && s[i] == x;
    assert i == 0 || s[0] <= s[i];
  }

  /** A sorted permutation is unique: any two sorted arrangements of the
      same values are equal, so `Spread` is the one sorted order. */
  lemma {:induction false} SortedPermutationUnique(s: seq<int>, t: seq<int>)
    requires Sorted(s) && Sorted(t) && multiset(s) == multiset(t)
    ensures s == t
    decreases |s|
  {
    assert |t| == |s| by {
      assert |multiset(t)| == |multiset(s)|;
    }
    if s != [] {
      assert s[0] in multiset(s) && t[0] in multiset(t);
      SortedHeadIsLeast(s, t[0]);
      SortedHeadIsLeast(t, s[0]);
      var s', t' := s[1..], t[1..];
      assert s == [s[0]] + s' && t == [t[0]] + t';
      assert s[0] == t[0];
      assert multiset(s) == multiset{s[0]} + multiset(s');
      assert multiset(t) == multiset{s[0]} + multiset(t');
      forall x ensures multiset(s')[x] == multiset(t')[x] {
        assert multiset(s)[x] == multiset{s[0]}[x] + multiset(s')[x];
        assert multiset(t)[x] == multiset{s[0]}[x] + multiset(t')[x];
      }
      assert multiset(s') == multiset(t');
      SortedPermutationUnique(s', t');
    }
  }

  /** Counting the occurrences of each value: the counters after the
      counting loop has passed over `s`. */
  ghost predicate Counted(c: seq<int>, s: seq<int>) {
    forall v :: 0 <= v < |c| ==> c[v] == Occurrences(s, v)
  }

  // ---------------------------------------------------------------------
  // The sorter

  /** Java `new BucketSort(logMaxValue)`: a log size outside [2, 16] is
      rejected. */
  method NewBucketSort(logMaxValue: int) returns (r: Result<BucketSort>)
    ensures r.Failure? <==> logMaxValue < 2 || logMaxValue > 16
    ensures r.Failure? ==> r.error == if logMaxValue < 2
      then "The log data size parameter must be at least 2"
      else "The log data size parameter must be at most 16"
    ensures r.Success? ==> fresh(r.value) && fresh(r.value.count) && r.value.Valid()
    ensures r.Success? ==> r.value.count.Length == Pow2(logMaxValue)
  {
    if logMaxValue < 2 {
      return Failure("The log data size parameter must be at least 2");
    }
    if logMaxValue > 16 {
      return Failure("The log data size parameter must be at most 16");
    }
    var b := new BucketSort.WithLogMaxValue(logMaxValue);
    return Success(b);
  }

  class BucketSort {
    const count: array<int>

    /** The counters are all zero between calls. */
    ghost predicate Valid()
      reads this, count
    {
      forall v :: 0 <= v < count.Length ==> count[v] == 0
    }

    /** Java `new BucketSort()`: 256 counters. */
    constructor ()
      ensures Valid() && fresh(count) && count.Length == 256
    {
      count := new int[256](_ => 0);
    }

    constructor WithLogMaxValue(logMaxValue: nat)
      requires 2 <= logMaxValue <= 16
      ensures Valid() && fresh(count) && count.Length == Pow2(logMaxValue)
    {
      count := new int[Pow2(logMaxValue)](_ => 0);
    }

    /** Java `sort(int[], int, int)`: counting sort of `input[blkptr..blkptr+len]`.
        A range that is empty or does not lie in the array is refused
        without touching anything; a single value is already sorted.
        Otherwise every value of the range must be a counter index, and the
        range ends sorted and holding the same values, laid out as `Spread`. */
    method SortInts(input: array<int>, blkptr: int, len: int) returns (ok: bool)
      requires Valid() && input != count
      requires !RangeRejected(blkptr, len, input.Length) && len != 1 ==>
        forall k :: blkptr <= k < blkptr + len ==> 0 <= input[k] < count.Length
      modifies input, count
      ensures Valid()
      ensures ok <==> !RangeRejected(blkptr, len, input.Length)
      ensures !ok || len == 1 ==> input[..] == old(input[..])
      ensures ok ==> input[..blkptr] == old(input[..blkptr]) && input[blkptr + len..] == old(input[blkptr + len..])
      ensures ok && len != 1 ==> input[blkptr..blkptr + len] == Spread(old(input[blkptr..blkptr + len]), count.Length)
      ensures ok ==> Sorted(input[blkptr..blkptr + len])
      ensures ok ==> multiset(input[blkptr..blkptr + len]) == multiset(old(input[blkptr..blkptr + len]))
    {
      if RangeRejected(blkptr, len, input.Length) {
        return false;
      }
      if len == 1 {
        return true;
      }
      ghost var s := input[blkptr..blkptr + len];
      CountInts(input, blkptr, len, count);
      LayOutInts(input, blkptr, len, count, s);
      return true;
    }

    /** Java `sort(byte[], int, int)`: the same counting sort by unsigned
        byte value; the table must have a counter for every byte value the
        range holds. */
    method SortBytes(input: array<byte>, blkptr: int, len: int) returns (ok: bool)
      requires Valid()
      requires !RangeRejected(blkptr, len, input.Length) && len != 1 ==>
        forall k :: blkptr <= k < blkptr + len ==> input[k] < count.Length
      modifies input, count
      ensures Valid()
      ensures ok <==> !RangeRejected(blkptr, len, input.Length)
      ensures !ok || len == 1 ==> input[..] == old(input[..])
      ensures ok ==> input[..blkptr] == old(input[..blkptr]) && input[blkptr + len..] == old(input[blkptr + len..])
      ensures ok && len != 1 ==> input[blkptr..blkptr + len] == Spread(old(input[blkptr..blkptr + len]), count.Length)
      ensures ok ==> Sorted(input[blkptr..blkptr + len])
      ensures ok ==> multiset(input[blkptr..blkptr + len]) == multiset(old(input[blkptr..blkptr + len]))
    {
      if RangeRejected(blkptr, len, input.Length) {
        return false;
      }
      if len == 1 {
        return true;
      }
      ghost var s: seq<int> := input[blkptr..blkptr + len];
      CountBytes(input, blkptr, len, count);
      LayOutBytes(input, blkptr, len, count, s);
      return true;
    }
  }

  /** The writing loop of Java `sort(int[], ...)`: for each counter in
      turn, its value is written as often as it was counted and the counter
      is cleared. */
  method LayOutInts(input: array<int>, blkptr: nat, len: nat, c: array<int>, ghost s: seq<int>)
    requires input != c && blkptr + len <= input.Length && s == input[blkptr..blkptr + len]
    requires Counted(c[..], s) && forall k :: 0 <= k < |s| ==> 0 <= s[k] < c.Length
    modifies input, c
    ensures forall v :: 0 <= v < c.Length ==> c[v] == 0
    ensures input[..blkptr] == old(input[..blkptr]) && input[blkptr + len..] == old(input[blkptr + len..])
    ensures input[blkptr..blkptr + len] == Spread(s, c.Length)
    ensures Sorted(input[blkptr..blkptr + len]) && multiset(input[blkptr..blkptr + len]) == multiset(s)
  {
    var j := blkptr;
    for i := 0 to c.Length
      invariant blkptr <= j <= blkptr + len && input[blkptr..j] == Spread(s, i)
      invariant input[..blkptr] == old(input[..blkptr]) && input[blkptr + len..] == old(input[blkptr + len..])
      invariant forall v :: 0 <= v < i ==> c[v] == 0
      invariant forall v :: i <= v < c.Length ==> c[v] == Occurrences(s, v)
    {
      j := EmitInts(input, blkptr, len, c, s, i, j);
    }
    SpreadSorts(s, c.Length);
  }

  /** The body of the writing loop of Java `sort(int[], ...)` for counter
      `i`: `c[i]` copies of `i` at `j0`, and the counter cleared. */
  method EmitInts(input: array<int>, blkptr: nat, len: nat, c: array<int>, ghost s: seq<int>, i: nat, j0: nat)
    returns (j: nat)
    requires input != c && blkptr + len <= input.Length && i < c.Length
    requires blkptr <= j0 <= blkptr + len && input[blkptr..j0] == Spread(s, i)
    requires c[i] == Occurrences(s, i) && |s| == len
    modifies input, c
    ensures blkptr <= j <= blkptr + len && input[blkptr..j] == Spread(s, i + 1)
    ensures input[..blkptr] == old(input[..blkptr]) && input[blkptr + len..] == old(input[blkptr + len..])
    ensures c[..] == old(c[..])[i := 0]
  {
    j := j0;
    var val := c[i];
    if val != 0 {
      c[i] := 0;
      SpreadFits(s, i + 1);
      Fill(input, j, i, val);
      assert input[blkptr..j + val] == input[blkptr..j] + input[j..j + val];
      j := j + val;
    } else {
      assert Spread(s, i + 1) == Spread(s, i) + [];
    }
  }

  /** The writing loop of Java `sort(byte[], ...)`: as for `int[]`, with
      the counter index written as a byte. */
  method LayOutBytes(input: array<byte>, blkptr: nat, len: nat, c: array<int>, ghost s: seq<int>)
    requires blkptr + len <= input.Length && s == input[blkptr..blkptr + len]
    requires Counted(c[..], s) && forall k :: 0 <= k < |s| ==> s[k] < c.Length
    modifies input, c
    ensures forall v :: 0 <= v < c.Length ==> c[v] == 0
    ensures input[..blkptr] == old(input[..blkptr]) && input[blkptr + len..] == old(input[blkptr + len..])
    ensures input[blkptr..blkptr + len] == Spread(s, c.Length)
    ensures Sorted(input[blkptr..blkptr + len]) && multiset(input[blkptr..blkptr + len]) == multiset(s)
  {
    assert forall k :: 0 <= k < |s| ==> 0 <= s[k] < 256 by {
      forall k | 0 <= k < |s| ensures 0 <= s[k] < 256 {
        assert s[k] == input[blkptr + k];
      }
    }
    WriteCounts(input, blkptr, len, c, s);
    SpreadSorts(s, c.Length);
  }

  /** The loop of `LayOutBytes` over the counters, given the facts about
      the counted bytes `s` that it needs. */
  method WriteCounts(input: array<byte>, blkptr: nat, len: nat, c: array<int>, ghost s: seq<int>)
    requires blkptr + len <= input.Length && |s| == len
    requires forall k :: 0 <= k < |s| ==> 0 <= s[k] < 256 && s[k] < c.Length
    requires forall v :: 0 <= v < c.Length ==> c[v] == Occurrences(s, v)
    modifies input, c
    ensures forall v :: 0 <= v < c.Length ==> c[v] == 0
    ensures input[..blkptr] == old(input[..blkptr]) && input[blkptr + len..] == old(input[blkptr + len..])
    ensures input[blkptr..blkptr + len] == Spread(s, c.Length)
  {
    SpreadLength(s, c.Length);
    var j := blkptr;
    for i := 0 to c.Length
      invariant blkptr <= j <= blkptr + len && input[blkptr..j] == Spread(s, i)
      invariant input[..blkptr] == old(input[..blkptr]) && input[blkptr + len..] == old(input[blkptr + len..])
      invariant forall v :: 0 <= v < i ==> c[v] == 0
      invariant forall v :: i <= v < c.Length ==> c[v] == Occurrences(s, v)
    {
      j := EmitBytes(input, blkptr, len, c, s, i, j);
    }
  }

  /** The body of the writing loop of Java `sort(byte[], ...)` for counter
      `i`: `c[i]` copies of `(byte) i` at `j0`, and the counter cleared. A
      counter holds a count only for a byte value, so the cast keeps `i`. */
  method EmitBytes(input: array<byte>, blkptr: nat, len: nat, c: array<int>, ghost s: seq<int>, i: nat, j0: nat)
    returns (j: nat)
    requires blkptr + len <= input.Length && i < c.Length && |s| == len
    requires forall k :: 0 <= k < |s| ==> 0 <= s[k] < 256
    requires blkptr <= j0 <= blkptr + len && input[blkptr..j0] == Spread(s, i)
    requires c[i] == Occurrences(s, i)
    modifies input, c
    ensures blkptr <= j <= blkptr + len && input[blkptr..j] == Spread(s, i + 1)
    ensures input[..blkptr] == old(input[..blkptr]) && input[blkptr + len..] == old(input[blkptr + len..])
    ensures c[..] == old(c[..])[i := 0]
  {
    j := j0;
    var val := c[i];
    if val != 0 {
      assert i < 256 by {
        OccurrencesMultiplicity(s, i);
        assert i in multiset(s);
      }
      c[i] := 0;
      SpreadFits(s, i + 1);
      Fill(input, j, (i % 256) as byte, val);
      assert input[blkptr..j + val] == input[blkptr..j] + input[j..j + val];
      j := j + val;
    } else {
      assert Spread(s, i + 1) == Spread(s, i) + [];
    }
  }

  /** The counting loops of Java `sort(int[], ...)`: one increment per
      value of the range. */
  method CountInts(input: array<int>, blkptr: nat, len: nat, c: array<int>)
    requires blkptr + len <= input.Length && input != c
    requires forall v :: 0 <= v < c.Length ==> c[v] == 0
    requires forall k :: blkptr <= k < blkptr + len ==> 0 <= input[k] < c.Length
    modifies c
    ensures Counted(c[..], input[blkptr..blkptr + len])
  {
    for i := blkptr to blkptr + len
      invariant Counted(c[..], input[blkptr..i])
    {
      assert input[blkptr..i + 1] == input[blkptr..i] + [input[i]];
      c[input[i]] := c[input[i]] + 1;
    }
  }

  /** The counting loops of Java `sort(byte[], ...)`, indexing by unsigned
      byte value. */
  method CountBytes(input: array<byte>, blkptr: nat, len: nat, c: array<int>)
    requires blkptr + len <= input.Length
    requires forall v :: 0 <= v < c.Length ==> c[v] == 0
    requires forall k :: blkptr <= k < blkptr + len ==> input[k] < c.Length
    modifies c
    ensures Counted(c[..], input[blkptr..blkptr + len])
  {
    for i := blkptr to blkptr + len
      invariant Counted(c[..], input[blkptr..i])
    {
      assert input[blkptr..i + 1] == input[blkptr..i] + [input[i]];
      c[input[i]] := c[input[i]] + 1;
    }
  }

  /** The writing of one counter's value in Java `sort`: `val % 16` single
      writes, then, if at least 16 remain, a run of 16 copied on with
      `System.arraycopy` until `val` values are written. */
  method Fill<T>(a: array<T>, j0: nat, v: T, val: nat)
    requires j0 + val <= a.Length
    modifies a
    ensures a[..j0] == old(a[..j0]) && a[j0 + val..] == old(a[j0 + val..])
    ensures a[j0..j0 + val] == Repeat(v, val)
  {
    var val16 := val - val % 16;
    var j := j0;
    var k := val;
    while k > val16
      invariant val16 <= k <= val && j == j0 + (val - k)
      invariant a[..j0] == old(a[..j0]) && a[j0 + val..] == old(a[j0 + val..])
      invariant forall m :: j0 <= m < j ==> a[m] == v
    {
      a[j] := v;
      j := j + 1;
      k := k - 1;
    }

    if val16 > 0 {
      ghost var singles := a[..j];
      FillRuns(a, j, v, val16);
      assert forall m :: j0 <= m < j ==> a[m] == a[..j][m] == singles[m] == v;
    }
    assert a[j0..j0 + val] == Repeat(v, val);
  }

  /** The unrolled part of the writing in Java `sort`: 16 writes at `j0`,
      then that run of 16 copied to each following run of 16. */
  method FillRuns<T>(a: array<T>, j0: nat, v: T, val16: nat)
    requires j0 + val16 <= a.Length && val16 % 16 == 0 && val16 >= 16
    modifies a
    ensures a[..j0] == old(a[..j0]) && a[j0 + val16..] == old(a[j0 + val16..])
    ensures forall m :: j0 <= m < j0 + val16 ==> a[m] == v
  {
    for d := 0 to 16
      invariant a[..j0] == old(a[..j0]) && a[j0 + val16..] == old(a[j0 + val16..])
      invariant forall m :: j0 <= m < j0 + d ==> a[m] == v
    {
      a[j0 + d] := v;
    }
    CopyRuns(a, j0, v, val16);
  }

  /** The copying loop of Java `sort`: the run of 16 at `j0` copied with
      `System.arraycopy` to each following run of 16. */
  method CopyRuns<T>(a: array<T>, j0: nat, v: T, val16: nat)
    requires j0 + val16 <= a.Length && val16 % 16 == 0 && val16 >= 16
    requires forall m :: j0 <= m < j0 + 16 ==> a[m] == v
    modifies a
    ensures a[..j0] == old(a[..j0]) && a[j0 + val16..] == old(a[j0 + val16..])
    ensures forall m :: j0 <= m < j0 + val16 ==> a[m] == v
  {
    var j := j0 + 16;
    var k := val16 - 16;
    ghost var runs := k / 16;
    while k > 0
      invariant 0 <= runs && k == 16 * runs && j + k == j0 + val16 && j0 + 16 <= j
      invariant forall m :: 0 <= m < a.Length && !(j0 <= m < j0 + val16) ==> a[m] == old(a[m])
      invariant forall m :: j0 <= m < j ==> a[m] == v
    {
      ArrayCopy.CopyWithin(a, j0, j, 16);
      k := k - 16;
      j := j + 16;
      runs := runs - 1;
    }
    assert a[..j0] == old(a[..j0]);
    assert a[j0 + val16..] == old(a[j0 + val16..]);
  }
}
