// kanzi/transform MTFT (Go): the same partitioned Move-To-Front as the
// Java class, over 256 nodes only: the last node's `next` is nil, so the
// unlink guards both of its writes, and a block always starts at index 0.
//
// The object's tables (heads, lengths, buckets and the node arena) are one
// `Tables` value held in the object's field `t`; each operation computes the
// new tables step by step, as the Go code does, and stores them back.
module GoMtft {
  import opened Bytes
  import opened MtfSpec
  import opened MtfLists
  import ArrayCopy

  /** End of the processed block: the whole slice when `size` is 0,
      otherwise the first `size` bytes. */
  function BlockEnd(size: nat, length: nat): nat {
    if size == 0 then length else size
  }

  /** The walk order of a fresh arena: node `h` is the `h`-th node. */
  function Counting(): (r: seq<int>)
    ensures |r| == 256 && forall h :: 0 <= h < 256 ==> r[h] == h
  {
    seq(256, h => h)
  }

  /** Where the walk of `balanceLists` (and of `NewMTFT`) opens a new
      partition: at chain position `i` with `(i - 1) % 17 == 0`, the next
      partition, whose canonical start is `i`. */
  lemma NewPartitionAt(i: int)
    requires 1 <= i < 256 && (i - 1) % 17 == 0
    ensures CanonicalPartition(i) == CanonicalPartition(i - 1) + 1 < 16
    ensures CanonicalStart(CanonicalPartition(i - 1) + 1) == i
  {
    CanonicalPartitionStep(i);
    CanonicalPartitionBounds(i);
    var q := (i - 1) / 17;
    assert i - 1 == 17 * q;
    if i > 1 {
      assert (i - 2) / 17 == q - 1;
    }
  }

  /** The counter `n` of `balanceLists` is the position within the current
      partition: it wraps to 0 after 16. */
  lemma CounterStep(i: int, n: int)
    requires 1 <= i && n == (i - 1) % 17
    ensures (if n + 1 > 16 then 0 else n + 1) == i % 17
  {
    var q := (i - 1) / 17;
    assert i == 17 * q + n + 1;
    if n + 1 > 16 {
      assert i == 17 * (q + 1);
    }
  }

  /** The tables `NewMTFT` builds: node `i` holds symbol `i` and links to
      node `i + 1`, the last node to nil; partition 0 holds node 0 and
      partition `j > 0` the 17 nodes from `17 j - 16` on. */
  method InitialTables() returns (t: Tables)
    ensures Linked(t, Counting(), NIL) && |t.nodes| == 256
    ensures Values(t.nodes, Counting()) == Identity()
    ensures CanonicalLayout(t.heads, t.lengths, t.buckets, Counting(), Identity())
  {
    var heads := seq(16, _ => NIL);
    var lengths := seq(16, _ => 0);
    var buckets: seq<byte> := seq(256, _ => 0);
    var nodes := seq(256, _ => Payload(NIL, NIL, 0));

    var previous := 0;
    heads := heads[0 := previous];
    lengths := lengths[0 := 1];
    buckets := buckets[0 := 0];
    var listIdx := 0;

    for i := 1 to 256
      invariant |nodes| == 256 && |buckets| == 256
      invariant previous == i - 1 && listIdx == CanonicalPartition(i - 1)
      invariant forall h :: 0 <= h < i ==> nodes[h].value == h
      invariant forall h :: 0 <= h < i - 1 ==> nodes[h].next == h + 1
      invariant nodes[i - 1].next == NIL
      invariant forall h :: 1 <= h < i ==> nodes[h].previous == h - 1
      invariant RecutUpTo(heads, lengths, Counting(), listIdx + 1)
      invariant forall v :: 0 <= v < i ==> buckets[v] == CanonicalPartition(v)
    {
      CanonicalPartitionStep(i);
      CanonicalPartitionBounds(i);
      nodes := nodes[i := Payload(NIL, NIL, i as byte)];
      if (i - 1) % 17 == 0 {
        NewPartitionAt(i);
        listIdx := listIdx + 1;
        heads := heads[listIdx := i];
        lengths := lengths[listIdx := 17];
      }
      buckets := buckets[i := listIdx as byte];
      nodes := nodes[previous := nodes[previous].(next := i)];
      nodes := nodes[i := nodes[i].(previous := previous)];
      previous := i;
    }

    ChainOfCounting(nodes, Counting(), NIL);
    t := Tables(heads, lengths, buckets, nodes);
  }

  /** The body of Go `balanceLists` on the tables: walks the chain from the
      node after `heads[0]`, opening a new partition of 17 nodes every 17
      steps, renumbering the symbols 1, 2, ... when `resetValues`. */
  method Rebalance(t0: Tables, resetValues: bool, ghost chain: seq<int>) returns (t: Tables)
    requires Linked(t0, chain, NIL) && |t0.nodes| == 256
    requires !resetValues ==> t0.buckets[Values(t0.nodes, chain)[0]] == 0
    ensures Linked(t, chain, NIL) && |t.nodes| == 256
    ensures Values(t.nodes, chain) == if resetValues then Identity() else Values(t0.nodes, chain)
    ensures CanonicalLayout(t.heads, t.lengths, t.buckets, chain, Values(t.nodes, chain))
    ensures Partitioned(t.heads, t.lengths, t.buckets, CanonicalStarts(), chain, Values(t.nodes, chain))
  {
    ghost var target := if resetValues then Identity() else Values(t0.nodes, chain);
    assert RenumberTarget(target, resetValues, NIL, chain, t0.nodes);
    var nodes, heads, lengths := t0.nodes, t0.heads, t0.lengths;
    var buckets: seq<byte> := t0.buckets;
    lengths := lengths[0 := 1];
    var listIdx: byte := 0;
    var p := nodes[heads[0]].next;

    if resetValues {
      nodes := nodes[heads[0] := nodes[heads[0]].(value := 0)];
      buckets := buckets[0 := 0];
    }

    var n := 0;
    for i := 1 to 256
      invariant n == (i - 1) % 17 && listIdx as int == CanonicalPartition(i - 1)
      invariant Renumbered(target, resetValues, i, p, NIL, chain, t0.nodes, nodes, buckets)
      invariant RecutUpTo(heads, lengths, chain, listIdx as int + 1)
    {
      nodes, heads, lengths, buckets, p, listIdx, n :=
        BalanceStep(target, resetValues, i, chain, t0.nodes, nodes, heads, lengths, buckets, p, listIdx, n);
    }

    assert CanonicalPartition(255) == 15;
    Rebalanced(target, resetValues, p, NIL, chain, t0.nodes, nodes, heads, lengths, buckets);
    t := Tables(heads, lengths, buckets, nodes);
  }

  /** The body of the loop of Go `balanceLists` at chain position `i`:
      renumber node `p` to `i` (when resetting), open partition
      `listIdx + 1` at it when the counter `n` is 0, file its symbol under
      the current partition and move on. */
  method BalanceStep(ghost target: seq<byte>, resetValues: bool, i: int, ghost chain: seq<int>,
                     ghost old_nodes: seq<Payload>, nodes0: seq<Payload>, heads0: seq<int>,
                     lengths0: seq<int>, buckets0: seq<byte>, p0: int, listIdx0: byte, n0: int)
    returns (nodes: seq<Payload>, heads: seq<int>, lengths: seq<int>, buckets: seq<byte>,
             p: int, listIdx: byte, n: int)
    requires RenumberTarget(target, resetValues, NIL, chain, old_nodes)
    requires Renumbered(target, resetValues, i, p0, NIL, chain, old_nodes, nodes0, buckets0)
    requires 1 <= i < 256 && n0 == (i - 1) % 17 && listIdx0 as int == CanonicalPartition(i - 1)
    requires RecutUpTo(heads0, lengths0, chain, listIdx0 as int + 1)
    ensures n == i % 17 && listIdx as int == CanonicalPartition(i)
    ensures Renumbered(target, resetValues, i + 1, p, NIL, chain, old_nodes, nodes, buckets)
    ensures RecutUpTo(heads, lengths, chain, listIdx as int + 1)
  {
    CanonicalPartitionStep(i);
    CanonicalPartitionBounds(i);
    RenumberStep(target, resetValues, i, p0, NIL, chain, old_nodes, nodes0, buckets0,
                 CanonicalPartition(i) as byte);
    nodes, heads, lengths, listIdx := nodes0, heads0, lengths0, listIdx0;
    if resetValues {
      nodes := nodes[p0 := nodes[p0].(value := i as byte)];
    }

    if n0 == 0 {
      NewPartitionAt(i);
      RecutStep(heads, lengths, chain, listIdx as int + 1, p0);
      listIdx := listIdx + 1;
      heads := heads[listIdx := p0];
      lengths := lengths[listIdx := 17];
    }

    buckets := buckets0[nodes[p0].value := listIdx];
    p := nodes[p0].next;
    CounterStep(i, n0);
    n := n0 + 1;
    if n > 16 {
      n := 0;
    }
  }

  /** One step of the loop of Go `moveToFront` for a symbol that is not
      already in front: find it, emit its rank, unlink its node, pass the
      head of its partition on when it was that head, push it in front of
      partition 0, move its length and bucket to partition 0, and rebalance
      when partition 0 grew past the threshold or the source partition
      became empty. */
  method Promote(t0: Tables, ghost chain: seq<int>, ghost starts: seq<int>, current: byte)
    returns (t: Tables, rank: byte, ghost chain': seq<int>, ghost starts': seq<int>)
    requires Linked(t0, chain, NIL) && |t0.nodes| == 256
    requires Partitioned(t0.heads, t0.lengths, t0.buckets, starts, chain, Values(t0.nodes, chain))
    requires current != Values(t0.nodes, chain)[0]
    ensures rank == IndexOf(Values(t0.nodes, chain), current)
    ensures chain' == MoveIndexToFront(chain, rank)
    ensures Linked(t, chain', NIL) && |t.nodes| == 256
    ensures Values(t.nodes, chain') == MoveToFront(Values(t0.nodes, chain), current)
    ensures Partitioned(t.heads, t.lengths, t.buckets, starts', chain', Values(t.nodes, chain'))
  {
    ghost var list := Values(t0.nodes, chain);
    var listIdx, p, idx := Locate(t0, chain, starts, NIL, current);
    rank := idx as byte;
    assert 1 <= idx by {
      assert list[0] != current;
    }

    // The unlink leaves `p.next` alone: it is still the old successor when
    // the head of the partition passes on.
    var successor := t0.nodes[p].next;
    var nodes := Relink(t0.nodes, p, t0.heads[0], chain, idx);
    var heads, lengths, buckets :=
      Reassign(t0.heads, t0.lengths, t0.buckets, starts, chain, list, idx, listIdx, p, current, successor);
    chain' := MoveIndexToFront(chain, idx);
    t := Tables(heads, lengths, buckets, nodes);
    PromotedLinked(t0, chain, starts, idx, t);
    PromoteKeepsPartitions(t0.heads, t0.lengths, t0.buckets, starts, chain, list, idx, NIL,
                           heads, lengths, buckets);

    if listIdx != 0 && (lengths[0] > RESET_THRESHOLD || lengths[listIdx] == 0) {
      t := Rebalance(t, false, chain');
      starts' := CanonicalStarts();
    } else {
      starts' := ShiftStarts(starts, listIdx);
    }
  }

  /** The bookkeeping writes of Go `moveToFront` for the node `p` at chain
      position `idx` of partition `listIdx`: the partition's head passes to
      `successor` if `p` was its head, `p` becomes the head of partition 0
      and, when it came from another partition, its length and its symbol's
      bucket move to partition 0. */
  method Reassign(heads0: seq<int>, lengths0: seq<int>, buckets0: seq<byte>,
                  ghost starts: seq<int>, ghost chain: seq<int>, ghost list: seq<byte>, ghost idx: nat,
                  listIdx: int, p: int, current: byte, successor: int)
    returns (heads: seq<int>, lengths: seq<int>, buckets: seq<byte>)
    requires Partitioned(heads0, lengths0, buckets0, starts, chain, list) && Distinct(chain)
    requires 1 <= idx < 256 && list[idx] == current && p == chain[idx]
    requires listIdx == buckets0[current] && successor == Succ(chain, idx, NIL)
    ensures Promoted(heads0, lengths0, buckets0, starts, chain, list, idx, NIL, heads, lengths, buckets)
  {
    assert InPartition(starts, buckets0[list[idx]], idx);
    assert p == heads0[listIdx] <==> idx == starts[listIdx] by {
      assert heads0[listIdx] == chain[starts[listIdx]];
    }
    heads, lengths, buckets := heads0, lengths0, buckets0;
    // Update head if needed
    if p == heads[listIdx] {
      heads := heads[listIdx := successor];
    }
    heads := heads[0 := p];
    if listIdx != 0 {
      lengths := lengths[listIdx := lengths[listIdx] - 1][0 := lengths[0] + 1];
      buckets := buckets[current := 0];
    }
  }

  /** After the link writes and the bookkeeping writes of one promotion
      the tables hold the chain with the node at position `idx` moved to
      the front, which spells the recency list with that symbol promoted. */
  lemma PromotedLinked(t0: Tables, chain: seq<int>, starts: seq<int>, idx: nat, t: Tables)
    requires Linked(t0, chain, NIL) && |t0.nodes| == 256 && 1 <= idx < 256
    requires Partitioned(t0.heads, t0.lengths, t0.buckets, starts, chain, Values(t0.nodes, chain))
    requires RelinkedToFront(t0.nodes, chain, NIL, idx, t.nodes)
    requires Promoted(t0.heads, t0.lengths, t0.buckets, starts, chain, Values(t0.nodes, chain), idx, NIL,
                      t.heads, t.lengths, t.buckets)
    ensures var chain', list := MoveIndexToFront(chain, idx), Values(t0.nodes, chain);
      && Linked(t, chain', NIL) && |t.nodes| == 256
      && Values(t.nodes, chain') == MoveIndexToFront(list, idx)
  {
    var list := Values(t0.nodes, chain);
    RelinkToFront(t0.nodes, chain, NIL, idx, t.nodes);
    MoveIndexToFrontKeepsPermutation(list, idx);
  }

  /** One step of the loop of Go `moveToFront`: a symbol equal to the
      previous one (the head of the list) has rank 0 and changes nothing;
      any other is promoted. */
  method EncodeSymbol(t0: Tables, ghost chain0: seq<int>, ghost starts0: seq<int>,
                      previous: byte, current: byte)
    returns (t: Tables, rank: byte, ghost chain: seq<int>, ghost starts: seq<int>)
    requires Linked(t0, chain0, NIL) && |t0.nodes| == 256
    requires Partitioned(t0.heads, t0.lengths, t0.buckets, starts0, chain0, Values(t0.nodes, chain0))
    requires previous == Values(t0.nodes, chain0)[0]
    ensures Linked(t, chain, NIL) && |t.nodes| == 256
    ensures Partitioned(t.heads, t.lengths, t.buckets, starts, chain, Values(t.nodes, chain))
    ensures rank == IndexOf(Values(t0.nodes, chain0), current)
    ensures Values(t.nodes, chain) == MoveToFront(Values(t0.nodes, chain0), current)
  {
    if current == previous {
      HeadStaysInFront(Values(t0.nodes, chain0));
      return t0, 0, chain0, starts0;
    }
    t, rank, chain, starts := Promote(t0, chain0, starts0, current);
  }

  /** The link writes of Go `moveToFront`: unlink node `p`, at chain
      position `idx` (each side only when it is not nil), and push it in
      front of the first node `head`. */
  method Relink(nodes0: seq<Payload>, p: int, head: int, ghost chain: seq<int>, ghost idx: nat)
    returns (nodes: seq<Payload>)
    requires IsChain(nodes0, chain, NIL) && |nodes0| == 256 && 1 <= idx < 256
    requires p == chain[idx] && head == chain[0]
    ensures RelinkedToFront(nodes0, chain, NIL, idx, nodes)
  {
    nodes := nodes0;
    var previous, next := nodes[p].previous, nodes[p].next;
    assert previous == chain[idx - 1] && next == Succ(chain, idx, NIL);
    assert head != next && head != p && previous != p by {
      assert Distinct(chain);
      assert idx + 1 < 256 ==> chain[0] != chain[idx + 1];
    }
    // Unlink
    if previous != NIL {
      nodes := nodes[previous := nodes[previous].(next := next)];
    }
    if next != NIL {
      nodes := nodes[next := nodes[next].(previous := previous)];
    }

    // Add to head of first list
    nodes := nodes[head := nodes[head].(previous := p)];
    nodes := nodes[p := nodes[p].(next := head)];
    RelinkedByWrites(nodes0, chain, NIL, idx, nodes);
  }

  class MTFT {
    var size: nat
    var t: Tables
    ghost var chain: seq<int>     // node handles in walk order from heads[0]
    ghost var starts: seq<int>    // chain position of each partition's first node

    /** The chain invariant, which every operation keeps. */
    ghost predicate Valid()
      reads this
    {
      Linked(t, chain, NIL) && |t.nodes| == 256
    }

    /** The recency list the chain represents. */
    ghost function List(): (r: seq<byte>)
      requires Valid()
      reads this
      ensures IsPermutation(r)
    {
      Values(t.nodes, chain)
    }

    /** The partition bookkeeping (heads, lengths, buckets) agrees with the
        chain. It holds after construction and after `Forward`; `Inverse`
        reuses `buckets` as its rank table and so breaks it. */
    ghost predicate PartitionsValid()
      requires Valid()
      reads this
    {
      Partitioned(t.heads, t.lengths, t.buckets, starts, chain, List())
    }

    /** Go `NewMTFT`: every size is accepted (the error is always nil). */
    constructor (sz: nat)
      ensures Valid() && PartitionsValid()
      ensures size == sz && List() == Identity()
    {
      var t := InitialTables();
      size := sz;
      this.t := t;
      chain := Counting();
      starts := CanonicalStarts();
      new;
      CanonicalIsPartitioned(t.heads, t.lengths, t.buckets, Counting(), Identity());
    }

    /** Go `SetSize`: every size is accepted. */
    method SetSize(sz: nat) returns (ok: bool)
      modifies this`size
      ensures ok && size == sz
    {
      size := sz;
      return true;
    }

    /** Go `balanceLists`: re-cut the chain into the canonical layout (one
        node in partition 0, 17 in each other) without reordering it. With
        `resetValues` the symbols along the chain are also renumbered
        0, 1, ..., 255, which resets the recency list to the identity. */
    method BalanceLists(resetValues: bool)
      requires Valid()
      requires !resetValues ==> t.buckets[List()[0]] == 0
      modifies this`t, this`starts
      ensures Valid() && PartitionsValid()
      ensures List() == if resetValues then Identity() else old(List())
      ensures starts == CanonicalStarts()
    {
      ghost var before := List();
      var nt := Rebalance(t, resetValues, chain);
      assert Values(nt.nodes, chain) == if resetValues then Identity() else before;
      t := nt;
      starts := CanonicalStarts();
    }

    /** Go `moveToFront`: replaces each byte of `values[..end]` by its rank
        in the recency list and promotes it, exactly as the naive transform
        `Encode` does; the recency list ends as `ListAfter`. */
    method MoveToFront(values: array<byte>, end: nat) returns (r: array<byte>)
      requires Valid() && PartitionsValid()
      requires end <= values.Length
      modifies this`t, this`chain, this`starts, values
      ensures r == values && Valid() && PartitionsValid()
      ensures values[end..] == old(values[end..])
      ensures values[..end] == Encode(old(List()), old(values[..end]))
      ensures List() == ListAfter(old(List()), old(values[..end]))
    {
      var tt: Tables, ranks: seq<byte>;
      ghost var ch, st;
      tt, ranks, ch, st := EncodeBlock(t, chain, starts, values[..end]);
      WriteBlock(values, ranks);
      t := tt;
      chain, starts := ch, st;
      return values;
    }

    /** Go `Forward`: resets the recency list to the identity and encodes
        the first `end` bytes in place. */
    method Forward(input: array<byte>) returns (output: array<byte>)
      requires Valid()
      requires BlockEnd(size, input.Length) <= input.Length
      modifies this`t, this`chain, this`starts, input
      ensures output == input && Valid() && PartitionsValid()
      ensures var end := BlockEnd(size, input.Length);
        && input[end..] == old(input[end..])
        && input[..end] == Encode(Identity(), old(input[..end]))
        && List() == ListAfter(Identity(), old(input[..end]))
    {
      BalanceLists(true);
      var end := input.Length;
      if size != 0 {
        end := size;
      }
      output := MoveToFront(input, end);
    }

    /** Go `Inverse`: decodes the first `end` bytes in place, using the
        `buckets` table as the recency list of symbols, which starts as the
        identity and ends as `DecodeTable`. Nothing else of the tables is
        touched. */
    method Inverse(input: array<byte>) returns (output: array<byte>)
      requires Valid()
      requires BlockEnd(size, input.Length) <= input.Length
      modifies this`t, input
      ensures output == input && Valid() && List() == old(List())
      ensures var end := BlockEnd(size, input.Length);
        && input[end..] == old(input[end..])
        && input[..end] == Decode(Identity(), old(input[..end]))
        && t == old(t).(buckets := DecodeTable(Identity(), old(input[..end])))
    {
      var indexes := ResetIndexes(t.buckets);
      var end := input.Length;
      if size != 0 {
        end := size;
      }
      indexes := DecodeBlock(input, end, indexes);
      t := t.(buckets := indexes);
      return input;
    }
  }

  /** The loop of Go `moveToFront` on the tables of the object, over a copy
      of the block: each byte is replaced by its rank and promoted, unless
      it repeats the previous byte, whose rank is 0. */
  method EncodeBlock(t0: Tables, ghost chain0: seq<int>, ghost starts0: seq<int>, block: seq<byte>)
    returns (t: Tables, values: seq<byte>, ghost chain: seq<int>, ghost starts: seq<int>)
    requires Linked(t0, chain0, NIL) && |t0.nodes| == 256
    requires Partitioned(t0.heads, t0.lengths, t0.buckets, starts0, chain0, Values(t0.nodes, chain0))
    ensures Linked(t, chain, NIL) && |t.nodes| == 256
    ensures Partitioned(t.heads, t.lengths, t.buckets, starts, chain, Values(t.nodes, chain))
    ensures values == Encode(Values(t0.nodes, chain0), block)
    ensures Values(t.nodes, chain) == ListAfter(Values(t0.nodes, chain0), block)
  {
    ghost var list0 := Values(t0.nodes, chain0);
    t, chain, starts := t0, chain0, starts0;
    values := [];
    var previous := t.nodes[t.heads[0]].value;

    for ii := 0 to |block|
      invariant Linked(t, chain, NIL) && |t.nodes| == 256
      invariant Partitioned(t.heads, t.lengths, t.buckets, starts, chain, Values(t.nodes, chain))
      invariant previous == Values(t.nodes, chain)[0]
      invariant Values(t.nodes, chain) == ListAfter(list0, block[..ii])
      invariant values == Encode(list0, block[..ii])
    {
      var current := block[ii];
      EncodePrefix(list0, block, ii);
      var rank;
      t, rank, chain, starts := EncodeSymbol(t, chain, starts, previous, current);
      values := values + [rank];
      previous := current;
    }
    assert block[..|block|] == block;
  }

  /** Stores the encoded block back into the front of the slice. */
  method WriteBlock(values: array<byte>, block: seq<byte>)
    requires |block| <= values.Length
    modifies values
    ensures values[|block|..] == old(values[|block|..])
    ensures values[..|block|] == block
  {
    forall k | 0 <= k < |block| {
      values[k] := block[k];
    }
  }

  /** The loop of Go `Inverse`: each rank of `input[..end]` is replaced by
      the symbol at that rank in the table, which then moves to the front
      of the table. */
  method DecodeBlock(input: array<byte>, end: nat, indexes0: seq<byte>) returns (indexes: seq<byte>)
    requires end <= input.Length && |indexes0| == 256
    modifies input
    ensures input[end..] == old(input[end..])
    ensures input[..end] == Decode(indexes0, old(input[..end]))
    ensures indexes == DecodeTable(indexes0, old(input[..end]))
  {
    indexes := indexes0;
    ghost var ranks := input[..end];

    for i := 0 to end
      invariant |indexes| == 256 && indexes == DecodeTable(indexes0, ranks[..i])
      invariant input[i..] == old(input[i..])
      invariant input[..i] == Decode(indexes0, ranks[..i])
    {
      indexes := DecodeAt(input, i, indexes0, ranks, indexes);
    }
    assert ranks[..end] == ranks;
  }

  /** The body of the loop of Go `Inverse`: decode the rank at `i` in
      place, given that the bytes before it are decoded and the ones from it
      on are still the ranks. */
  method DecodeAt(input: array<byte>, i: nat, ghost indexes0: seq<byte>, ghost ranks: seq<byte>,
                  indexes1: seq<byte>)
    returns (indexes: seq<byte>)
    requires i < |ranks| <= input.Length && |indexes0| == 256
    requires input[i..] == ranks[i..] + input[|ranks|..]
    requires indexes1 == DecodeTable(indexes0, ranks[..i])
    requires input[..i] == Decode(indexes0, ranks[..i])
    modifies input
    ensures |indexes| == 256 && indexes == DecodeTable(indexes0, ranks[..i + 1])
    ensures input[..i] == old(input[..i]) && input[i + 1..] == old(input[i + 1..])
    ensures input[..i + 1] == Decode(indexes0, ranks[..i + 1])
  {
    var idx := input[i];
    assert idx == ranks[i];
    DecodePrefix(indexes0, ranks, i);
    var value := indexes1[idx];
    input[i] := value;
    indexes := indexes1;
    if idx != 0 {
      indexes := ArrayCopy.CopiedWithin(indexes, 0, 1, idx as nat);
      indexes := indexes[0 := value];
      CopiedUpMovesToFront(indexes1, idx as nat);
    } else {
      assert MoveIndexToFront(indexes1, 0) == indexes1;
    }
    assert input[..i + 1] == input[..i] + [input[i]];
  }

  /** The first loop of Go `Inverse`: the rank table becomes 0, 1, ..., 255. */
  method ResetIndexes(indexes0: seq<byte>) returns (indexes: seq<byte>)
    requires |indexes0| == 256
    ensures indexes == Identity()
  {
    indexes := indexes0;
    for i := 0 to 256
      invariant |indexes| == 256 && forall k :: 0 <= k < i ==> indexes[k] == k
    {
      indexes := indexes[i := i as byte];
    }
  }
}
