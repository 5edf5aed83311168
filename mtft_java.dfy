// kanzi.transform.MTFT (Java): Move-To-Front over a partitioned, doubly
// linked recency chain, with an end anchor so that every node has a
// successor.
//
// The object's tables (heads, lengths, buckets and the node arena) are one
// `Tables` value held in the object's field `t`; each operation computes the
// new tables step by step, as the Java code does, and stores them back.
module JavaMtft {
  import opened Bytes
  import opened Wrappers
  import opened MtfSpec
  import opened MtfLists
  import ArrayCopy

  /** Arena handle of the anchor node that follows the last node. */
  const ANCHOR := 256

  /** End of the processed block, as Java computes it in `int`: the whole
      array when `size` is 0, otherwise `blkptr + size`, which wraps to a
      negative end past `Integer.MAX_VALUE`. An end below `blkptr` leaves
      nothing to process. */
  function BlockEnd(size: nat, blkptr: nat, length: nat): int {
    if size == 0 then length else AddInt(blkptr, size)
  }

  /** The walk order of a fresh arena: node `h` is the `h`-th node. */
  function Counting(): (r: seq<int>)
    ensures |r| == 256 && forall h :: 0 <= h < 256 ==> r[h] == h
  {
    seq(256, h => h)
  }

  /** Java `new MTFT(size)`: a negative size is rejected. */
  method NewMTFT(size: int) returns (r: Result<MTFT>)
    ensures r.Failure? <==> size < 0
    ensures r.Success? ==> fresh(r.value) && r.value.Valid() && r.value.PartitionsValid()
    ensures r.Success? ==> r.value.size == size && r.value.List() == Identity()
  {
    if size < 0 {
      return Failure("Invalid size parameter (must be at least 0)");
    }
    var m := new MTFT(size);
    return Success(m);
  }

  /** The tables the constructor builds: node `i` holds symbol `i` and links
      to node `i + 1`, the last node to the anchor; partition 0 holds node 0
      and partition `j > 0` the 17 nodes from `17 j - 16` on. */
  method InitialTables() returns (t: Tables)
    ensures Linked(t, Counting(), ANCHOR) && |t.nodes| == 257
    ensures Values(t.nodes, Counting()) == Identity()
    ensures CanonicalLayout(t.heads, t.lengths, t.buckets, Counting(), Identity())
  {
    var heads := seq(16, _ => NIL);
    var lengths := seq(16, _ => 0);
    var buckets: seq<byte> := seq(256, _ => 0);
    var nodes := seq(257, _ => Payload(NIL, NIL, 0));

    var previous := 0;
    heads := heads[0 := previous];
    lengths := lengths[0 := 1];
    buckets := buckets[0 := 0];
    var listIdx := 0;

    for i := 1 to 256
      invariant |nodes| == 257 && |buckets| == 256
      invariant previous == i - 1 && listIdx == CanonicalPartition(i - 1)
      invariant forall h :: 0 <= h < i ==> nodes[h].value == h
      invariant forall h :: 0 <= h < i - 1 ==> nodes[h].next == h + 1
      invariant forall h :: 1 <= h < i ==> nodes[h].previous == h - 1
      invariant RecutUpTo(heads, lengths, Counting(), listIdx + 1)
      invariant forall v :: 0 <= v < i ==> buckets[v] == CanonicalPartition(v)
    {
      CanonicalPartitionStep(i);
      CanonicalPartitionBounds(i);
      nodes := nodes[i := Payload(NIL, NIL, i as byte)];
      if (i - 1) % 17 == 0 {
        listIdx := listIdx + 1;
        heads := heads[listIdx := i];
        lengths := lengths[listIdx := 17];
      }
      buckets := buckets[i := listIdx as byte];
      nodes := nodes[previous := nodes[previous].(next := i)];
      nodes := nodes[i := nodes[i].(previous := previous)];
      previous := i;
    }

    // The anchor gives every node of every list a successor.
    nodes := nodes[ANCHOR := Payload(NIL, NIL, 0)];
    nodes := nodes[previous := nodes[previous].(next := ANCHOR)];
    ChainOfCounting(nodes, Counting(), ANCHOR);
    t := Tables(heads, lengths, buckets, nodes);
  }

  /** The body of Java `balanceLists` on the tables: walks the chain from
      the node after `heads[0]`, cutting it into partitions 1..15 of 17
      nodes each, renumbering the symbols 1, 2, ... when `resetValues`. */
  method Rebalance(t0: Tables, resetValues: bool, ghost chain: seq<int>) returns (t: Tables)
    requires Linked(t0, chain, ANCHOR) && |t0.nodes| == 257
    requires !resetValues ==> t0.buckets[Values(t0.nodes, chain)[0]] == 0
    ensures Linked(t, chain, ANCHOR) && |t.nodes| == 257
    ensures Values(t.nodes, chain) == if resetValues then Identity() else Values(t0.nodes, chain)
    ensures CanonicalLayout(t.heads, t.lengths, t.buckets, chain, Values(t.nodes, chain))
    ensures Partitioned(t.heads, t.lengths, t.buckets, CanonicalStarts(), chain, Values(t.nodes, chain))
  {
    ghost var target := if resetValues then Identity() else Values(t0.nodes, chain);
    assert RenumberTarget(target, resetValues, ANCHOR, chain, t0.nodes);
    var nodes, heads, lengths := t0.nodes, t0.heads, t0.lengths;
    var buckets: seq<byte> := t0.buckets;
    lengths := lengths[0 := 1];
    var p := nodes[heads[0]].next;
    var val := 0;

    if resetValues {
      nodes := nodes[heads[0] := nodes[heads[0]].(value := 0)];
      buckets := buckets[0 := 0];
    }

    ghost var k := 1;
    for listIdx := 1 to 16
      invariant k == 17 * (listIdx - 1) + 1 && (resetValues ==> val == k - 1)
      invariant Renumbered(target, resetValues, k, p, ANCHOR, chain, t0.nodes, nodes, buckets)
      invariant RecutUpTo(heads, lengths, chain, listIdx)
    {
      assert CanonicalStart(listIdx) == k < 256;
      RecutStep(heads, lengths, chain, listIdx, p);
      heads := heads[listIdx := p];
      lengths := lengths[listIdx := 17];
      nodes, buckets, p, val := RenumberList(target, resetValues, k, p, chain, t0.nodes, nodes, buckets,
                                             val, listIdx as byte);
      k := k + 17;
    }

    Rebalanced(target, resetValues, p, ANCHOR, chain, t0.nodes, nodes, heads, lengths, buckets);
    t := Tables(heads, lengths, buckets, nodes);
  }

  /** The inner loop of Java `balanceLists`: the 17 nodes of partition
      `listIdx`, renumbered (when resetting) and filed under it. */
  method RenumberList(ghost target: seq<byte>, resetValues: bool, ghost k0: int, p0: int, ghost chain: seq<int>,
                      ghost old_nodes: seq<Payload>, nodes0: seq<Payload>, buckets0: seq<byte>,
                      val0: int, listIdx: byte)
    returns (nodes: seq<Payload>, buckets: seq<byte>, p: int, val: int)
    requires RenumberTarget(target, resetValues, ANCHOR, chain, old_nodes)
    requires Renumbered(target, resetValues, k0, p0, ANCHOR, chain, old_nodes, nodes0, buckets0)
    requires 1 <= listIdx < 16 && k0 == CanonicalStart(listIdx as int) && (resetValues ==> val0 == k0 - 1)
    ensures Renumbered(target, resetValues, k0 + 17, p, ANCHOR, chain, old_nodes, nodes, buckets)
    ensures resetValues ==> val == k0 + 16
  {
    nodes, buckets, p, val := nodes0, buckets0, p0, val0;
    for n := 0 to 17
      invariant (resetValues ==> val == k0 + n - 1)
      invariant Renumbered(target, resetValues, k0 + n, p, ANCHOR, chain, old_nodes, nodes, buckets)
    {
      CanonicalPartitionAt(listIdx as int, n);
      nodes, buckets, p, val := RenumberNode(target, resetValues, k0 + n, p, chain, old_nodes, nodes, buckets,
                                             val, listIdx);
    }
  }

  /** The body of the inner loop of Java `balanceLists`: renumber node `p`
      (when resetting), file its symbol under partition `listIdx` and move
      to the next node. */
  method RenumberNode(ghost target: seq<byte>, resetValues: bool, ghost k: int, p0: int, ghost chain: seq<int>,
                      ghost old_nodes: seq<Payload>, nodes0: seq<Payload>, buckets0: seq<byte>,
                      val0: int, listIdx: byte)
    returns (nodes: seq<Payload>, buckets: seq<byte>, p: int, val: int)
    requires RenumberTarget(target, resetValues, ANCHOR, chain, old_nodes)
    requires Renumbered(target, resetValues, k, p0, ANCHOR, chain, old_nodes, nodes0, buckets0)
    requires k < 256 && listIdx as int == CanonicalPartition(k) && (resetValues ==> val0 == k - 1)
    ensures Renumbered(target, resetValues, k + 1, p, ANCHOR, chain, old_nodes, nodes, buckets)
    ensures resetValues ==> val == k
  {
    RenumberStep(target, resetValues, k, p0, ANCHOR, chain, old_nodes, nodes0, buckets0, listIdx);
    nodes, val := nodes0, val0;
    if resetValues {
      val := val + 1;
      nodes := nodes[p0 := nodes[p0].(value := val)];
    }
    buckets := buckets0[nodes[p0].value := listIdx];
    p := nodes[p0].next;
  }

  /** One step of Java `moveToFront` for a symbol that is not already in
      front: find it, emit its rank, unlink its node and push it in front
      of partition 0, move its length and bucket to partition 0, and
      rebalance when partition 0 grew past the threshold or the source
      partition became empty. */
  method Promote(t0: Tables, ghost chain: seq<int>, ghost starts: seq<int>, current: byte)
    returns (t: Tables, rank: byte, ghost chain': seq<int>, ghost starts': seq<int>)
    requires Linked(t0, chain, ANCHOR) && |t0.nodes| == 257
    requires Partitioned(t0.heads, t0.lengths, t0.buckets, starts, chain, Values(t0.nodes, chain))
    requires current != Values(t0.nodes, chain)[0]
    ensures rank == IndexOf(Values(t0.nodes, chain), current)
    ensures chain' == MoveIndexToFront(chain, rank)
    ensures Linked(t, chain', ANCHOR) && |t.nodes| == 257
    ensures Values(t.nodes, chain') == MoveToFront(Values(t0.nodes, chain), current)
    ensures Partitioned(t.heads, t.lengths, t.buckets, starts', chain', Values(t.nodes, chain'))
  {
    ghost var list := Values(t0.nodes, chain);
    var listIdx, p, idx := Locate(t0, chain, starts, ANCHOR, current);
    rank := idx as byte;
    assert 1 <= idx by {
      assert list[0] != current;
    }

    var nodes := Relink(t0.nodes, p, t0.heads[0], chain, idx);
    // `p.previous` still names the old predecessor, whose `next` is now
    // the old successor of `p`.
    var heads, lengths, buckets :=
      Reassign(t0.heads, t0.lengths, t0.buckets, starts, chain, list, idx, listIdx, p, current,
               nodes[nodes[p].previous].next);
    chain' := MoveIndexToFront(chain, idx);
    t := Tables(heads, lengths, buckets, nodes);
    PromotedLinked(t0, chain, starts, idx, t);
    PromoteKeepsPartitions(t0.heads, t0.lengths, t0.buckets, starts, chain, list, idx, ANCHOR,
                           heads, lengths, buckets);

    if listIdx != 0 && (lengths[0] > RESET_THRESHOLD || lengths[listIdx] == 0) {
      t := Rebalance(t, false, chain');
      starts' := CanonicalStarts();
    } else {
      starts' := ShiftStarts(starts, listIdx);
    }
  }

  /** The bookkeeping writes of Java `moveToFront` for the node `p` at chain
      position `idx` of partition `listIdx`: it becomes the head of
      partition 0 and, when it came from another partition, its length and
      its symbol's bucket move to partition 0 and that partition's head
      passes to `successor` if `p` was its head. */
  method Reassign(heads0: seq<int>, lengths0: seq<int>, buckets0: seq<byte>,
                  ghost starts: seq<int>, ghost chain: seq<int>, ghost list: seq<byte>, ghost idx: nat,
                  listIdx: int, p: int, current: byte, successor: int)
    returns (heads: seq<int>, lengths: seq<int>, buckets: seq<byte>)
    requires Partitioned(heads0, lengths0, buckets0, starts, chain, list) && Distinct(chain)
    requires 1 <= idx < 256 && list[idx] == current && p == chain[idx]
    requires listIdx == buckets0[current] && successor == Succ(chain, idx, ANCHOR)
    ensures Promoted(heads0, lengths0, buckets0, starts, chain, list, idx, ANCHOR, heads, lengths, buckets)
  {
    assert InPartition(starts, buckets0[list[idx]], idx);
    heads, lengths, buckets := heads0[0 := p], lengths0, buckets0;
    if listIdx != 0 {
      if p == heads[listIdx] {
        heads := heads[listIdx := successor];
      }
      lengths := lengths[listIdx := lengths[listIdx] - 1][0 := lengths[0] + 1];
      buckets := buckets[current := 0];
    }
    assert listIdx != 0 ==> (p == heads0[listIdx] <==> idx == starts[listIdx]) by {
      assert heads0[listIdx] == chain[starts[listIdx]];
    }
  }

  /** After the link writes and the bookkeeping writes of one promotion
      the tables hold the chain with the node at position `idx` moved to
      the front, which spells the recency list with that symbol promoted,
      and the promoted symbol's bucket is 0. */
  lemma PromotedLinked(t0: Tables, chain: seq<int>, starts: seq<int>, idx: nat, t: Tables)
    requires Linked(t0, chain, ANCHOR) && |t0.nodes| == 257 && 1 <= idx < 256
    requires Partitioned(t0.heads, t0.lengths, t0.buckets, starts, chain, Values(t0.nodes, chain))
    requires RelinkedToFront(t0.nodes, chain, ANCHOR, idx, t.nodes)
    requires Promoted(t0.heads, t0.lengths, t0.buckets, starts, chain, Values(t0.nodes, chain), idx, ANCHOR,
                      t.heads, t.lengths, t.buckets)
    ensures var chain', list := MoveIndexToFront(chain, idx), Values(t0.nodes, chain);
      && Linked(t, chain', ANCHOR) && |t.nodes| == 257
      && Values(t.nodes, chain') == MoveIndexToFront(list, idx)
      && t.buckets[list[idx]] == 0
  {
    var list := Values(t0.nodes, chain);
    RelinkToFront(t0.nodes, chain, ANCHOR, idx, t.nodes);
    MoveIndexToFrontKeepsPermutation(list, idx);
    assert InPartition(starts, t0.buckets[list[idx]], idx);
  }

  /** One step of the loop of Java `moveToFront`: a symbol equal to the
      previous one (the head of the list) has rank 0 and changes nothing;
      any other is promoted. */
  method EncodeSymbol(t0: Tables, ghost chain0: seq<int>, ghost starts0: seq<int>,
                      previous: byte, current: byte)
    returns (t: Tables, rank: byte, ghost chain: seq<int>, ghost starts: seq<int>)
    requires Linked(t0, chain0, ANCHOR) && |t0.nodes| == 257
    requires Partitioned(t0.heads, t0.lengths, t0.buckets, starts0, chain0, Values(t0.nodes, chain0))
    requires previous == Values(t0.nodes, chain0)[0]
    ensures Linked(t, chain, ANCHOR) && |t.nodes| == 257
    ensures Partitioned(t.heads, t.lengths, t.buckets, starts, chain, Values(t.nodes, chain))
    ensures rank == IndexOf(Values(t0.nodes, chain0), current)
    ensures Values(t.nodes, chain) == MoveToFront(Values(t0.nodes, chain0), current)
  {
    if current == previous {
      HeadStaysInFront(Values(t0.nodes, chain0));
      return t0, 0, chain0, starts0;
    }
    t, rank, chain, starts := Promote(t0, chain0, starts0, current);
  }

  /** The link writes of Java `moveToFront`: unlink node `p`, at chain
      position `idx`, and push it in front of the first node `head`. */
  method Relink(nodes0: seq<Payload>, p: int, head: int, ghost chain: seq<int>, ghost idx: nat)
    returns (nodes: seq<Payload>)
    requires IsChain(nodes0, chain, ANCHOR) && |nodes0| == 257 && 1 <= idx < 256
    requires p == chain[idx] && head == chain[0]
    ensures RelinkedToFront(nodes0, chain, ANCHOR, idx, nodes)
    ensures nodes[p].previous == chain[idx - 1]
  {
    // Unlink (the end anchor ensures p.next != null)
    nodes := nodes0;
    var previous, next := nodes[p].previous, nodes[p].next;
    assert previous == chain[idx - 1] && next == Succ(chain, idx, ANCHOR);
    assert head != next && head != p && previous != p by {
      assert Distinct(chain);
      assert idx + 1 < 256 ==> chain[0] != chain[idx + 1];
    }
    nodes := nodes[previous := nodes[previous].(next := next)];
    nodes := nodes[next := nodes[next].(previous := previous)];

    // Add to head of first list
    nodes := nodes[p := nodes[p].(next := head)];
    nodes := nodes[head := nodes[head].(previous := p)];
    RelinkedByWrites(nodes0, chain, ANCHOR, idx, nodes);
  }

  class MTFT {
    var size: nat
    var t: Tables
    ghost var chain: seq<int>     // node handles in walk order from heads[0]
    ghost var starts: seq<int>    // chain position of each partition's first node

    /** The chain invariant, which every operation keeps. */
    ghost predicate Valid()
      reads this
    {
      Linked(t, chain, ANCHOR) && |t.nodes| == 257
    }

    /** The recency list the chain represents. */
    ghost function List(): (r: seq<byte>)
      requires Valid()
      reads this
      ensures IsPermutation(r)
    {
      Values(t.nodes, chain)
    }

    /** The partition bookkeeping (heads, lengths, buckets) agrees with the
        chain. It holds after construction and after `Forward`; `Inverse`
        reuses `buckets` as its rank table and so breaks it. */
    ghost predicate PartitionsValid()
      requires Valid()
      reads this
    {
      Partitioned(t.heads, t.lengths, t.buckets, starts, chain, List())
    }

    constructor (size: int)
      requires size >= 0
      ensures Valid() && PartitionsValid()
      ensures this.size == size && List() == Identity()
    {
      var t := InitialTables();
      this.size := size;
      this.t := t;
      chain := Counting();
      starts := CanonicalStarts();
      new;
      CanonicalIsPartitioned(t.heads, t.lengths, t.buckets, Counting(), Identity());
    }

    /** Java `setSize`: a negative size is refused and changes nothing. */
    method SetSize(size: int) returns (ok: bool)
      modifies this`size
      ensures ok <==> size >= 0
      ensures this.size == if ok then size else old(this.size)
    {
      if size < 0 {
        return false;
      }
      this.size := size;
      return true;
    }

    /** Java `balanceLists`: re-cut the chain into the canonical layout (one
        node in partition 0, 17 in each other) without reordering it. With
        `resetValues` the symbols along the chain are also renumbered
        0, 1, ..., 255, which resets the recency list to the identity. */
    method BalanceLists(resetValues: bool)
      requires Valid()
      requires !resetValues ==> t.buckets[List()[0]] == 0
      modifies this`t, this`starts
      ensures Valid() && PartitionsValid()
      ensures List() == if resetValues then Identity() else old(List())
      ensures starts == CanonicalStarts()
    {
      t := Rebalance(t, resetValues, chain);
      starts := CanonicalStarts();
    }

    /** Java `moveToFront`: replaces each byte of `values[start..end]` by its
        rank in the recency list and promotes it, exactly as the naive
        transform `Encode` does; the recency list ends as `ListAfter`. An
        end below `start` is an empty loop. */
    method MoveToFront(values: array<byte>, start: nat, end: int) returns (r: array<byte>)
      requires Valid() && PartitionsValid()
      requires end < start || end <= values.Length
      modifies this`t, this`chain, this`starts, values
      ensures r == values && Valid() && PartitionsValid()
      ensures end < start ==> values[..] == old(values[..]) && List() == old(List())
      ensures start <= end ==>
        && values[..start] == old(values[..start]) && values[end..] == old(values[end..])
        && values[start..end] == Encode(old(List()), old(values[start..end]))
        && List() == ListAfter(old(List()), old(values[start..end]))
    {
      if end < start {
        return values;
      }
      EncodeRange(values, start, end);
      return values;
    }

    /** The loop of `moveToFront` over a non-empty range `[start, end)`. */
    method EncodeRange(values: array<byte>, start: nat, end: nat)
      requires Valid() && PartitionsValid()
      requires start <= end <= values.Length
      modifies this`t, this`chain, this`starts, values
      ensures Valid() && PartitionsValid()
      ensures values[..start] == old(values[..start]) && values[end..] == old(values[end..])
      ensures values[start..end] == Encode(old(List()), old(values[start..end]))
      ensures List() == ListAfter(old(List()), old(values[start..end]))
    {
      var tt: Tables, ranks: seq<byte>;
      ghost var ch, st;
      tt, ranks, ch, st := EncodeBlock(t, chain, starts, values[start..end]);
      WriteBlock(values, start, ranks);
      t := tt;
      chain, starts := ch, st;
    }

    /** Java `forward`: resets the recency list to the identity and encodes
        the block `[blkptr, end)` in place. An end below `blkptr` (an empty
        array tail, or a wrapped `blkptr + size`) encodes nothing. */
    method Forward(input: array<byte>, blkptr: nat) returns (output: array<byte>)
      requires Valid()
      requires BlockEnd(size, blkptr, input.Length) < blkptr || BlockEnd(size, blkptr, input.Length) <= input.Length
      modifies this`t, this`chain, this`starts, input
      ensures output == input && Valid() && PartitionsValid()
      ensures var end := BlockEnd(size, blkptr, input.Length);
        end < blkptr ==> input[..] == old(input[..]) && List() == Identity()
      ensures var end := BlockEnd(size, blkptr, input.Length);
        blkptr <= end ==>
        && input[..blkptr] == old(input[..blkptr]) && input[end..] == old(input[end..])
        && input[blkptr..end] == Encode(Identity(), old(input[blkptr..end]))
        && List() == ListAfter(Identity(), old(input[blkptr..end]))
    {
      BalanceLists(true);
      var end := if size == 0 then input.Length else AddInt(blkptr, size);
      output := MoveToFront(input, blkptr, end);
    }

    /** Java `inverse`: decodes the block `[blkptr, end)` in place, using
        the `buckets` table as the recency list of symbols, which starts as
        the identity and ends as `DecodeTable`. Nothing else of the tables
        is touched. An end below `blkptr` only resets the table. */
    method Inverse(input: array<byte>, blkptr: nat) returns (output: array<byte>)
      requires Valid()
      requires BlockEnd(size, blkptr, input.Length) < blkptr || BlockEnd(size, blkptr, input.Length) <= input.Length
      modifies this`t, input
      ensures output == input && Valid() && List() == old(List())
      ensures var end := BlockEnd(size, blkptr, input.Length);
        end < blkptr ==> input[..] == old(input[..]) && t == old(t).(buckets := Identity())
      ensures var end := BlockEnd(size, blkptr, input.Length);
        blkptr <= end ==>
        && input[..blkptr] == old(input[..blkptr]) && input[end..] == old(input[end..])
        && input[blkptr..end] == Decode(Identity(), old(input[blkptr..end]))
        && t == old(t).(buckets := DecodeTable(Identity(), old(input[blkptr..end])))
    {
      var end := if size == 0 then input.Length else AddInt(blkptr, size);
      var indexes := ResetIndexes(t.buckets);
      if blkptr <= end {
        indexes := DecodeBlock(input, blkptr, end, indexes);
      }
      t := t.(buckets := indexes);
      return input;
    }
  }

  /** The loop of Java `moveToFront` on the tables of the object, over a
      copy of the block: each byte is replaced by its rank and promoted,
      unless it repeats the previous byte, whose rank is 0. */
  method EncodeBlock(t0: Tables, ghost chain0: seq<int>, ghost starts0: seq<int>, block: seq<byte>)
    returns (t: Tables, values: seq<byte>, ghost chain: seq<int>, ghost starts: seq<int>)
    requires Linked(t0, chain0, ANCHOR) && |t0.nodes| == 257
    requires Partitioned(t0.heads, t0.lengths, t0.buckets, starts0, chain0, Values(t0.nodes, chain0))
    ensures Linked(t, chain, ANCHOR) && |t.nodes| == 257
    ensures Partitioned(t.heads, t.lengths, t.buckets, starts, chain, Values(t.nodes, chain))
    ensures values == Encode(Values(t0.nodes, chain0), block)
    ensures Values(t.nodes, chain) == ListAfter(Values(t0.nodes, chain0), block)
  {
    ghost var list0 := Values(t0.nodes, chain0);
    t, chain, starts := t0, chain0, starts0;
    values := [];
    var previous := t.nodes[t.heads[0]].value;

    for ii := 0 to |block|
      invariant Linked(t, chain, ANCHOR) && |t.nodes| == 257
      invariant Partitioned(t.heads, t.lengths, t.buckets, starts, chain, Values(t.nodes, chain))
      invariant previous == Values(t.nodes, chain)[0]
      invariant Values(t.nodes, chain) == ListAfter(list0, block[..ii])
      invariant values == Encode(list0, block[..ii])
    {
      var current := block[ii];
      EncodePrefix(list0, block, ii);
      var rank;
      t, rank, chain, starts := EncodeSymbol(t, chain, starts, previous, current);
      values := values + [rank];
      previous := current;
    }
    assert block[..|block|] == block;
  }

  /** Stores the encoded block back into the array at `start`. */
  method WriteBlock(values: array<byte>, start: nat, block: seq<byte>)
    requires start + |block| <= values.Length
    modifies values
    ensures values[..start] == old(values[..start]) && values[start + |block|..] == old(values[start + |block|..])
    ensures values[start..start + |block|] == block
  {
    forall k | start <= k < start + |block| {
      values[k] := block[k - start];
    }
  }

  /** The loop of Java `inverse`: each rank of `input[blkptr..end]` is
      replaced by the symbol at that rank in the table, which then moves
      to the front of the table. */
  method DecodeBlock(input: array<byte>, blkptr: nat, end: nat, indexes0: seq<byte>)
    returns (indexes: seq<byte>)
    requires blkptr <= end <= input.Length && |indexes0| == 256
    modifies input
    ensures input[..blkptr] == old(input[..blkptr]) && input[end..] == old(input[end..])
    ensures input[blkptr..end] == Decode(indexes0, old(input[blkptr..end]))
    ensures indexes == DecodeTable(indexes0, old(input[blkptr..end]))
  {
    indexes := indexes0;
    ghost var ranks := input[blkptr..end];

    for i := blkptr to end
      invariant |indexes| == 256 && indexes == DecodeTable(indexes0, ranks[..i - blkptr])
      invariant input[..blkptr] == old(input[..blkptr]) && input[i..] == old(input[i..])
      invariant input[blkptr..i] == Decode(indexes0, ranks[..i - blkptr])
    {
      indexes := DecodeAt(input, blkptr, i, indexes0, ranks, indexes);
    }
    assert ranks[..end - blkptr] == ranks;
  }

  /** The body of the loop of Java `inverse`: decode the rank at `i` in
      place, given that the bytes before it are decoded and the ones from it
      on are still the ranks. */
  method DecodeAt(input: array<byte>, blkptr: nat, i: nat, ghost indexes0: seq<byte>, ghost ranks: seq<byte>,
                  indexes1: seq<byte>)
    returns (indexes: seq<byte>)
    requires blkptr <= i < blkptr + |ranks| <= input.Length && |indexes0| == 256
    requires input[i..] == ranks[i - blkptr..] + input[blkptr + |ranks|..]
    requires indexes1 == DecodeTable(indexes0, ranks[..i - blkptr])
    requires input[blkptr..i] == Decode(indexes0, ranks[..i - blkptr])
    modifies input
    ensures |indexes| == 256 && indexes == DecodeTable(indexes0, ranks[..i + 1 - blkptr])
    ensures input[..i] == old(input[..i]) && input[i + 1..] == old(input[i + 1..])
    ensures input[blkptr..i + 1] == Decode(indexes0, ranks[..i + 1 - blkptr])
  {
    var idx := input[i];
    assert idx == ranks[i - blkptr];
    DecodePrefix(indexes0, ranks, i - blkptr);
    var value;
    value, indexes := DecodeRank(indexes1, idx);
    input[i] := value;
    assert input[blkptr..i + 1] == input[blkptr..i] + [input[i]];
  }

  /** One step of the loop of Java `inverse`: the symbol at rank `idx`,
      and the table with that symbol moved to the front (rank 0 is a
      shortcut that changes nothing). */
  method DecodeRank(indexes0: seq<byte>, idx: byte) returns (value: byte, indexes: seq<byte>)
    requires |indexes0| == 256
    ensures value == indexes0[idx] && indexes == MoveIndexToFront(indexes0, idx)
  {
    if idx == 0 {
      // Shortcut
      assert MoveIndexToFront(indexes0, 0) == indexes0;
      return indexes0[0], indexes0;
    }
    value := indexes0[idx];
    CopiedUpMovesToFront(indexes0, idx);
    indexes := ShiftUp(indexes0, idx);
    indexes := indexes[0 := value];
  }

  /** The first loop of Java `inverse`: the rank table becomes 0, 1, ..., 255. */
  method ResetIndexes(indexes0: seq<byte>) returns (indexes: seq<byte>)
    requires |indexes0| == 256
    ensures indexes == Identity()
  {
    indexes := indexes0;
    for i := 0 to 256
      invariant |indexes| == 256 && forall k :: 0 <= k < i ==> indexes[k] == k
    {
      indexes := indexes[i := i as byte];
    }
  }

  /** Entries `0..idx-1` of the rank table move up one place: element by
      element for small ranks, with `System.arraycopy` otherwise. */
  method ShiftUp(indexes0: seq<byte>, idx: nat) returns (indexes: seq<byte>)
    requires 0 < idx < |indexes0|
    ensures indexes == ArrayCopy.CopiedWithin(indexes0, 0, 1, idx)
  {
    indexes := indexes0;
    if idx < 16 {
      for j := idx downto 0
        invariant |indexes| == |indexes0|
        invariant forall k :: 0 <= k <= j ==> indexes[k] == indexes0[k]
        invariant forall k :: j < k <= idx ==> indexes[k] == indexes0[k - 1]
        invariant forall k :: idx < k < |indexes| ==> indexes[k] == indexes0[k]
      {
        indexes := indexes[j + 1 := indexes[j]];
      }
    } else {
      indexes := ArrayCopy.CopiedWithin(indexes, 0, 1, idx);
    }
  }
}
