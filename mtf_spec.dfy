// Reference Move-To-Front over an explicit recency list of the 256 byte
// values. Both MTFT classes (Java and Go) are proved equal to `Encode` and
// `Decode` below; the properties a user of the transform relies on (the
// round trip, the rank-zero law, the recency list staying a permutation)
// are proved here, once, about this reference.
module MtfSpec {
  import opened Bytes
  import ArrayCopy

  /** The recency list of a freshly reset transform: 0, 1, ..., 255. */
  function Identity(): (r: seq<byte>)
    ensures |r| == 256
    ensures forall k :: 0 <= k < 256 ==> r[k] == k
    ensures IsPermutation(r)
  {
    var r := seq(256, (k: int) requires 0 <= k < 256 => k as byte);
    CountingIsPermutation(r);
    r
  }

  /** The list 0, 1, ..., 255 holds every byte value exactly once. */
  lemma CountingIsPermutation(r: seq<byte>)
    requires |r| == 256 && forall k :: 0 <= k < 256 ==> r[k] == k
    ensures IsPermutation(r)
  {
    forall v: byte ensures v in r {
      assert r[v] == v;
    }
    forall k | 0 <= k < 256 ensures IndexOf(r, r[k]) == k {
      IndexOfAt(r, k);
    }
  }

  /** A recency list: 256 entries holding every byte value. */
  ghost predicate Recency(list: seq<byte>) {
    |list| == 256 && forall v: byte :: v in list
  }

  /** No entry occurs twice. */
  ghost predicate Distinct<T>(list: seq<T>) {
    forall i, j :: 0 <= i < j < |list| ==> list[i] != list[j]
  }

  /** A recency list with no repeated entry: a permutation of 0..255. */
  ghost predicate IsPermutation(list: seq<byte>) {
    Recency(list) && Distinct(list)
  }

  /** The first position at or after `i` that holds `v` (`|list|` when
      there is none). */
  function IndexFrom<T(==)>(list: seq<T>, v: T, i: nat): (r: nat)
    requires i <= |list|
    ensures i <= r <= |list| && (r < |list| ==> list[r] == v)
    decreases |list| - i
  {
    if i == |list| then i
    else if list[i] == v then i
    else IndexFrom(list, v, i + 1)
  }

  /** The rank of `v`: its first position in `list` (`|list|` when absent). */
  function IndexOf<T(==)>(list: seq<T>, v: T): (r: nat)
    ensures r <= |list| && (r < |list| ==> list[r] == v)
  {
    IndexFrom(list, v, 0)
  }

  /** The walk from `i` stops at the latest at any later position holding `v`. */
  lemma {:induction false} IndexFromAtMost<T>(list: seq<T>, v: T, i: nat, j: nat)
    requires i <= j < |list| && list[j] == v
    ensures IndexFrom(list, v, i) <= j
    decreases j - i
  {
    if list[i] != v {
      IndexFromAtMost(list, v, i + 1, j);
    }
  }

  /** A symbol of the list has a rank inside it. */
  lemma IndexOfFound<T>(list: seq<T>, v: T)
    requires v in list
    ensures IndexOf(list, v) < |list|
  {
    var j :| 0 <= j < |list| && list[j] == v;
    IndexFromAtMost(list, v, 0, j);
  }

  /** No position before the rank holds the symbol. */
  lemma IndexOfIsFirst<T>(list: seq<T>, v: T, j: nat)
    requires j < IndexOf(list, v)
    ensures list[j] != v
  {
    if list[j] == v {
      IndexFromAtMost(list, v, 0, j);
    }
  }

  /** The walk from `i` reaches position `k` when no position in between
      repeats its entry. */
  lemma {:induction false} IndexFromAt<T>(list: seq<T>, k: nat, i: nat)
    requires i <= k < |list| && forall j :: i <= j < k ==> list[j] != list[k]
    ensures IndexFrom(list, list[k], i) == k
    decreases k - i
  {
    if i < k {
      IndexFromAt(list, k, i + 1);
    }
  }

  /** A position that no earlier position repeats is the rank of its entry. */
  lemma IndexOfAt<T>(list: seq<T>, k: nat)
    requires k < |list| && forall j :: 0 <= j < k ==> list[j] != list[k]
    ensures IndexOf(list, list[k]) == k
  {
    IndexFromAt(list, k, 0);
  }

  /** Moving one entry to the front keeps the entries distinct. */
  lemma MoveIndexToFrontKeepsDistinct<T>(list: seq<T>, i: nat)
    requires i < |list| && Distinct(list)
    ensures Distinct(MoveIndexToFront(list, i))
  {
    var r := MoveIndexToFront(list, i);
    forall j, k | 0 <= j < k < |r| ensures r[j] != r[k] {
      var j' := if j == 0 then i else if j <= i then j - 1 else j;
      var k' := if k <= i then k - 1 else k;
      assert r[j] == list[j'] && r[k] == list[k'] && j' != k';
    }
  }

  /** Take the entry at position `i` out and put it in front; the entries
      before `i` move one place back, those after it stay. */
  function MoveIndexToFront<T>(list: seq<T>, i: nat): (r: seq<T>)
    requires i < |list|
    ensures |r| == |list| && r[0] == list[i]
    ensures forall k :: 0 < k <= i ==> r[k] == list[k - 1]
    ensures forall k :: i < k < |list| ==> r[k] == list[k]
  {
    [list[i]] + list[..i] + list[i + 1..]
  }

  /** Moving entry `i` to the front in an array, as both decoders do:
      copy the entries before it up one place, then write the old entry in
      front. */
  lemma CopiedUpMovesToFront<T>(list: seq<T>, i: nat)
    requires 0 < i < |list|
    ensures ArrayCopy.CopiedWithin(list, 0, 1, i)[0 := list[i]] == MoveIndexToFront(list, i)
  {
  }

  /** Moving an entry to the front neither adds nor loses entries. */
  lemma MoveIndexToFrontKeepsElements<T>(list: seq<T>, i: nat)
    requires i < |list|
    ensures multiset(MoveIndexToFront(list, i)) == multiset(list)
  {
    assert list == list[..i] + [list[i]] + list[i + 1..];
  }

  /** Promote symbol `v` to rank 0. */
  function MoveToFront(list: seq<byte>, v: byte): (r: seq<byte>)
    requires v in list
    ensures |r| == |list| && r[0] == v
  {
    IndexOfFound(list, v);
    MoveIndexToFront(list, IndexOf(list, v))
  }

  lemma MoveToFrontKeepsRecency(list: seq<byte>, v: byte)
    requires Recency(list)
    ensures Recency(MoveToFront(list, v))
  {
    var r := MoveToFront(list, v);
    MoveIndexToFrontKeepsElements(list, IndexOf(list, v));
    forall w: byte ensures w in r {
      assert w in list && w in multiset(list) && w in multiset(r);
    }
  }

  /** The rank of a symbol of a recency list, as a byte. */
  function Rank(list: seq<byte>, v: byte): (r: byte)
    requires Recency(list)
    ensures r == IndexOf(list, v) && list[r] == v
  {
    IndexOfFound(list, v);
    IndexOf(list, v) as byte
  }

  /** The naive Move-To-Front transform: each byte is replaced by its rank
      in the current recency list and then promoted to the front. */
  function Encode(list: seq<byte>, s: seq<byte>): (r: seq<byte>)
    requires Recency(list)
    ensures |r| == |s|
    decreases |s|
  {
    if s == [] then []
    else
      MoveToFrontKeepsRecency(list, s[0]);
      [Rank(list, s[0])] + Encode(MoveToFront(list, s[0]), s[1..])
  }

  /** The recency list after encoding (or decoding) `s`. */
  function ListAfter(list: seq<byte>, s: seq<byte>): (r: seq<byte>)
    requires Recency(list)
    ensures Recency(r)
    decreases |s|
  {
    if s == [] then list
    else
      MoveToFrontKeepsRecency(list, s[0]);
      ListAfter(MoveToFront(list, s[0]), s[1..])
  }

  /** The inverse transform: rank `r` names the symbol at position `r`,
      which is emitted and moved to the front. */
  function Decode(list: seq<byte>, ranks: seq<byte>): (r: seq<byte>)
    requires |list| == 256
    ensures |r| == |ranks|
    decreases |ranks|
  {
    if ranks == [] then []
    else [list[ranks[0]]] + Decode(MoveIndexToFront(list, ranks[0]), ranks[1..])
  }

  lemma MoveIndexToFrontKeepsPermutation(list: seq<byte>, i: nat)
    requires IsPermutation(list) && i < |list|
    ensures IsPermutation(MoveIndexToFront(list, i))
  {
    var r := MoveIndexToFront(list, i);
    MoveIndexToFrontKeepsElements(list, i);
    forall w: byte ensures w in r {
      assert w in list && w in multiset(list) && w in multiset(r);
    }
    MoveIndexToFrontKeepsDistinct(list, i);
  }

  /** The rank table of the inverse after processing `ranks`. */
  function DecodeTable(list: seq<byte>, ranks: seq<byte>): (r: seq<byte>)
    requires |list| == 256
    ensures |r| == 256
    decreases |ranks|
  {
    if ranks == [] then list
    else DecodeTable(MoveIndexToFront(list, ranks[0]), ranks[1..])
  }

  /** The inverse's rank table stays a permutation of the byte values. */
  lemma {:induction false} DecodeTableKeepsPermutation(list: seq<byte>, ranks: seq<byte>)
    requires IsPermutation(list)
    ensures IsPermutation(DecodeTable(list, ranks))
    decreases |ranks|
  {
    if ranks != [] {
      MoveIndexToFrontKeepsPermutation(list, ranks[0]);
      DecodeTableKeepsPermutation(MoveIndexToFront(list, ranks[0]), ranks[1..]);
    }
  }

  /** Round trip: decoding the ranks of `s` from the same starting list
      gives `s` back. */
  lemma {:induction false} DecodeEncode(list: seq<byte>, s: seq<byte>)
    requires Recency(list)
    ensures Decode(list, Encode(list, s)) == s
    decreases |s|
  {
    if s != [] {
      var e := Encode(list, s);
      MoveToFrontKeepsRecency(list, s[0]);
      assert e[0] == IndexOf(list, s[0]);
      assert e[1..] == Encode(MoveToFront(list, s[0]), s[1..]);
      DecodeEncode(MoveToFront(list, s[0]), s[1..]);
    }
  }

  /** The other direction: when the starting list has no repeats, encoding
      the decoded symbols gives back the ranks. */
  lemma {:induction false} EncodeDecode(list: seq<byte>, ranks: seq<byte>)
    requires IsPermutation(list)
    ensures Encode(list, Decode(list, ranks)) == ranks
    decreases |ranks|
  {
    if ranks != [] {
      var d := Decode(list, ranks);
      var x := list[ranks[0]];
      assert d[0] == x && d[1..] == Decode(MoveIndexToFront(list, ranks[0]), ranks[1..]);
      IndexOfAt(list, ranks[0]);
      MoveIndexToFrontKeepsPermutation(list, ranks[0]);
      EncodeDecode(MoveIndexToFront(list, ranks[0]), ranks[1..]);
    }
  }

  /** Rank-zero law: an output rank is 0 exactly when the byte equals the
      byte before it (for the first byte: the head of the starting list). */
  lemma {:induction false} RankZeroIffRepeat(list: seq<byte>, s: seq<byte>, i: nat)
    requires Recency(list) && i < |s|
    ensures Encode(list, s)[i] == 0 <==> s[i] == (if i == 0 then list[0] else s[i - 1])
    decreases i
  {
    MoveToFrontKeepsRecency(list, s[0]);
    var next := MoveToFront(list, s[0]);
    if i == 0 {
      assert Encode(list, s)[0] == IndexOf(list, s[0]);
    } else {
      assert Encode(list, s)[i] == Encode(next, s[1..])[i - 1];
      RankZeroIffRepeat(next, s[1..], i - 1);
      assert s[1..][i - 1] == s[i];
      if i == 1 {
        assert next[0] == s[0];
      } else {
        assert s[1..][i - 2] == s[i - 1];
      }
    }
  }

  /** After a non-empty block the most recent symbol heads the list. */
  lemma {:induction false} LastSymbolHeadsList(list: seq<byte>, s: seq<byte>)
    requires Recency(list) && s != []
    ensures ListAfter(list, s)[0] == s[|s| - 1]
    decreases |s|
  {
    MoveToFrontKeepsRecency(list, s[0]);
    if |s| > 1 {
      LastSymbolHeadsList(MoveToFront(list, s[0]), s[1..]);
    }
  }

  /** Promotion keeps a permutation a permutation. */
  lemma MoveToFrontKeepsPermutation(list: seq<byte>, v: byte)
    requires IsPermutation(list)
    ensures IsPermutation(MoveToFront(list, v))
  {
    IndexOfFound(list, v);
    MoveIndexToFrontKeepsPermutation(list, IndexOf(list, v));
  }

  /** Promoting the symbol already in front changes nothing. */
  lemma HeadStaysInFront(list: seq<byte>)
    requires |list| > 0
    ensures IndexOf(list, list[0]) == 0 && MoveToFront(list, list[0]) == list
  {
    assert [list[0]] + list[..0] + list[1..] == list;
  }

  /** One more byte promotes one more symbol. */
  lemma {:induction false} ListAfterSnoc(list: seq<byte>, s: seq<byte>, x: byte)
    requires Recency(list)
    ensures ListAfter(list, s + [x]) == MoveToFront(ListAfter(list, s), x)
    decreases |s|
  {
    if s == [] {
      assert [x][1..] == [];
    } else {
      MoveToFrontKeepsRecency(list, s[0]);
      assert (s + [x])[0] == s[0] && (s + [x])[1..] == s[1..] + [x];
      ListAfterSnoc(MoveToFront(list, s[0]), s[1..], x);
    }
  }

  /** Encoding one more byte appends its rank in the list reached so far. */
  lemma {:induction false} EncodeSnoc(list: seq<byte>, s: seq<byte>, x: byte)
    requires Recency(list)
    ensures Encode(list, s + [x]) == Encode(list, s) + [Rank(ListAfter(list, s), x)]
    decreases |s|
  {
    if s == [] {
      assert [x][1..] == [];
    } else {
      MoveToFrontKeepsRecency(list, s[0]);
      var next := MoveToFront(list, s[0]);
      assert (s + [x])[0] == s[0] && (s + [x])[1..] == s[1..] + [x];
      EncodeSnoc(next, s[1..], x);
      assert ListAfter(list, s) == ListAfter(next, s[1..]);
      assert Encode(list, s) == [Rank(list, s[0])] + Encode(next, s[1..]);
    }
  }

  /** One more rank moves one more entry of the table to the front. */
  lemma {:induction false} DecodeTableSnoc(list: seq<byte>, ranks: seq<byte>, x: byte)
    requires |list| == 256
    ensures DecodeTable(list, ranks + [x]) == MoveIndexToFront(DecodeTable(list, ranks), x)
    decreases |ranks|
  {
    if ranks == [] {
      assert [x][1..] == [];
    } else {
      assert (ranks + [x])[0] == ranks[0] && (ranks + [x])[1..] == ranks[1..] + [x];
      DecodeTableSnoc(MoveIndexToFront(list, ranks[0]), ranks[1..], x);
    }
  }

  /** Decoding one more rank appends the symbol it names in the table
      reached so far. */
  lemma {:induction false} DecodeSnoc(list: seq<byte>, ranks: seq<byte>, x: byte)
    requires |list| == 256
    ensures Decode(list, ranks + [x]) == Decode(list, ranks) + [DecodeTable(list, ranks)[x]]
    decreases |ranks|
  {
    if ranks == [] {
      assert [x][1..] == [];
    } else {
      var next := MoveIndexToFront(list, ranks[0]);
      assert (ranks + [x])[0] == ranks[0] && (ranks + [x])[1..] == ranks[1..] + [x];
      DecodeSnoc(next, ranks[1..], x);
    }
  }

  /** Encoding proceeds byte by byte: the prefix of `s` one byte longer
      gets one more rank, that of the byte in the list reached so far, and
      promotes that byte. */
  lemma EncodePrefix(list: seq<byte>, s: seq<byte>, i: nat)
    requires Recency(list) && i < |s|
    ensures Encode(list, s[..i + 1]) == Encode(list, s[..i]) + [Rank(ListAfter(list, s[..i]), s[i])]
    ensures ListAfter(list, s[..i + 1]) == MoveToFront(ListAfter(list, s[..i]), s[i])
  {
    assert s[..i + 1] == s[..i] + [s[i]];
    EncodeSnoc(list, s[..i], s[i]);
    ListAfterSnoc(list, s[..i], s[i]);
  }

  /** Decoding proceeds rank by rank in the same way. */
  lemma DecodePrefix(list: seq<byte>, ranks: seq<byte>, i: nat)
    requires |list| == 256 && i < |ranks|
    ensures Decode(list, ranks[..i + 1]) == Decode(list, ranks[..i]) + [DecodeTable(list, ranks[..i])[ranks[i]]]
    ensures DecodeTable(list, ranks[..i + 1]) == MoveIndexToFront(DecodeTable(list, ranks[..i]), ranks[i])
  {
    assert ranks[..i + 1] == ranks[..i] + [ranks[i]];
    DecodeSnoc(list, ranks[..i], ranks[i]);
    DecodeTableSnoc(list, ranks[..i], ranks[i]);
  }
}
