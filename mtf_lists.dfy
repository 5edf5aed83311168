// The partitioned recency chain shared by the Java and the Go MTFT.
//
// The 256 `Payload` nodes live in an arena and refer to each other by
// integer handles. `chain` (ghost) lists the handles in walk order from
// `heads[0]`; the last node's successor is `term` (the Java anchor handle,
// or NIL in Go). Sixteen partitions cut the chain: partition `i` starts at
// position `starts[i]` and holds `lengths[i]` nodes, `heads[i]` is its first
// node and `buckets[v]` is the partition that holds symbol `v`.
module MtfLists {
  import opened Bytes
  import opened MtfSpec

  const PARTITIONS := 16
  const RESET_THRESHOLD := 64
  /** The null link (Java `null`, Go `nil`). */
  const NIL := -1

  datatype Payload = Payload(previous: int, next: int, value: byte)

  /** The successor of chain position `k`. */
  function Succ(chain: seq<int>, k: int, term: int): int
    requires 0 <= k < |chain|
  {
    if k + 1 < |chain| then chain[k + 1] else term
  }

  /** `chain` is a walk through 256 distinct nodes linked forwards to the
      end marker `term` and backwards from the second node on. */
  ghost predicate IsChain(nodes: seq<Payload>, chain: seq<int>, term: int) {
    && |nodes| >= 256 && |chain| == 256 && !(0 <= term < 256)
    && (forall k :: 0 <= k < 256 ==> 0 <= chain[k] < 256)
    && Distinct(chain)
    && (forall k {:trigger nodes[chain[k]].next} :: 0 <= k < 256 ==> nodes[chain[k]].next == Succ(chain, k, term))
    && (forall k {:trigger nodes[chain[k]].previous} :: 1 <= k < 256 ==> nodes[chain[k]].previous == chain[k - 1])
  }

  /** The fields of an MTFT object other than its block size: partition
      heads, partition lengths, the partition of each symbol, and the node
      arena (the 256 nodes, then the end anchor where there is one). */
  datatype Tables = Tables(heads: seq<int>, lengths: seq<int>, buckets: seq<byte>, nodes: seq<Payload>)

  /** The chain invariant every MTFT operation keeps: the walk from
      `heads[0]` visits 256 distinct nodes, ends at `term`, and spells a
      permutation of the byte values. */
  ghost predicate Linked(t: Tables, chain: seq<int>, term: int) {
    && |t.heads| == 16 && |t.lengths| == 16 && |t.buckets| == 256
    && |t.nodes| >= 256 && (0 <= term ==> term < |t.nodes|)
    && IsChain(t.nodes, chain, term) && t.heads[0] == chain[0]
    && IsPermutation(Values(t.nodes, chain))
  }

  /** The symbols met along the chain: the recency list. */
  ghost function Values(nodes: seq<Payload>, chain: seq<int>): (r: seq<byte>)
    requires forall k :: 0 <= k < |chain| ==> 0 <= chain[k] < |nodes|
    ensures |r| == |chain|
    ensures forall k {:trigger r[k]} :: 0 <= k < |chain| ==> r[k] == nodes[chain[k]].value
  {
    if chain == [] then [] else [nodes[chain[0]].value] + Values(nodes, chain[1..])
  }

  ghost predicate InPartition(starts: seq<int>, b: int, k: int)
    requires |starts| == 17
  {
    0 <= b < 16 && starts[b] <= k < starts[b + 1]
  }

  /** The partition bookkeeping agrees with the chain and its symbols:
      the lengths are positive and sum to 256, partition 0 holds at most
      RESET_THRESHOLD nodes, each head is its partition's first node and each
      symbol's bucket is the partition holding its chain position. */
  ghost predicate Partitioned(heads: seq<int>, lengths: seq<int>, buckets: seq<byte>,
                              starts: seq<int>, chain: seq<int>, list: seq<byte>)
  {
    && |heads| == 16 && |lengths| == 16 && |buckets| == 256 && |starts| == 17
    && |chain| == 256 && |list| == 256
    && starts[0] == 0 && starts[16] == 256
    && (forall i :: 0 <= i < 16 ==> starts[i + 1] == starts[i] + lengths[i])
    && (forall i :: 0 <= i < 16 ==> 1 <= lengths[i])
    && lengths[0] <= RESET_THRESHOLD
    && (forall i :: 0 <= i < 16 ==> 0 <= starts[i] < 256 && heads[i] == chain[starts[i]])
    && (forall k :: 0 <= k < 256 ==> InPartition(starts, buckets[list[k]], k))
  }

  /** Partition starts grow by at least one per partition. */
  lemma {:induction false} StartsIncrease(starts: seq<int>, lengths: seq<int>, i: int, j: int)
    requires |starts| == 17 && |lengths| == 16 && 0 <= i <= j <= 16
    requires forall i :: 0 <= i < 16 ==> starts[i + 1] == starts[i] + lengths[i]
    requires forall i :: 0 <= i < 16 ==> 1 <= lengths[i]
    ensures starts[i] + (j - i) <= starts[j]
    decreases j - i
  {
    if i < j {
      StartsIncrease(starts, lengths, i, j - 1);
    }
  }

  /** The layout that `balanceLists` re-creates: one node in partition 0
      and 17 in each of the 15 others. */
  function CanonicalStart(i: int): int {
    if i == 0 then 0 else 17 * i - 16
  }

  function CanonicalPartition(k: int): int {
    if k == 0 then 0 else (k - 1) / 17 + 1
  }

  function CanonicalStarts(): (r: seq<int>)
    ensures |r| == 17
    ensures forall i :: 0 <= i < 17 ==> r[i] == CanonicalStart(i)
  {
    seq(17, i => CanonicalStart(i))
  }

  ghost predicate CanonicalLayout(heads: seq<int>, lengths: seq<int>, buckets: seq<byte>,
                                  chain: seq<int>, list: seq<byte>)
  {
    && |heads| == 16 && |lengths| == 16 && |buckets| == 256
    && |chain| == 256 && |list| == 256
    && (forall i :: 0 <= i < 16 ==> lengths[i] == if i == 0 then 1 else 17)
    && (forall i {:trigger heads[i]} :: 0 <= i < 16 ==> heads[i] == chain[CanonicalStart(i)])
    && (forall k :: 0 <= k < 256 ==> buckets[list[k]] == CanonicalPartition(k))
  }

  lemma CanonicalPartitionBounds(k: int)
    requires 0 <= k < 256
    ensures 0 <= CanonicalPartition(k) < 16
    ensures CanonicalStart(CanonicalPartition(k)) <= k < CanonicalStart(CanonicalPartition(k) + 1)
  {
    if k > 0 {
      var q := (k - 1) / 17;
      assert k - 1 == 17 * q + (k - 1) % 17;
    }
  }

  /** Walking the canonical layout position by position, the partition
      index grows by one exactly after every 17th position past the first. */
  lemma CanonicalPartitionStep(i: int)
    requires 1 <= i < 256
    ensures CanonicalPartition(i) == CanonicalPartition(i - 1) + (if (i - 1) % 17 == 0 then 1 else 0)
  {
    if i > 1 {
      var q := (i - 2) / 17;
      assert i - 2 == 17 * q + (i - 2) % 17;
    }
  }

  /** Position `n` of canonical partition `j` is chain position 17(j-1)+n+1. */
  lemma CanonicalPartitionAt(j: int, n: int)
    requires 1 <= j < 16 && 0 <= n < 17
    ensures CanonicalPartition(17 * (j - 1) + n + 1) == j
  {
    assert (17 * (j - 1) + n) / 17 == j - 1;
  }

  /** The canonical layout is a valid partitioning of any chain. */
  lemma CanonicalIsPartitioned(heads: seq<int>, lengths: seq<int>, buckets: seq<byte>,
                               chain: seq<int>, list: seq<byte>)
    requires CanonicalLayout(heads, lengths, buckets, chain, list)
    ensures Partitioned(heads, lengths, buckets, CanonicalStarts(), chain, list)
  {
    var starts := CanonicalStarts();
    forall k | 0 <= k < 256 ensures InPartition(starts, buckets[list[k]], k) {
      CanonicalPartitionBounds(k);
    }
  }

  /** The arena as built from scratch: node `h` holds symbol `h` and links
      to `h + 1`, the last one to the end marker. */
  lemma ChainOfCounting(nodes: seq<Payload>, chain: seq<int>, term: int)
    requires |nodes| >= 256 && |chain| == 256 && !(0 <= term < 256)
    requires forall h :: 0 <= h < 256 ==> chain[h] == h
    requires forall h :: 0 <= h < 256 ==> nodes[h].value == h
    requires forall h :: 0 <= h < 255 ==> nodes[h].next == h + 1
    requires nodes[255].next == term
    requires forall h :: 1 <= h < 256 ==> nodes[h].previous == h - 1
    ensures IsChain(nodes, chain, term) && Values(nodes, chain) == Identity()
  {
    forall k | 0 <= k < 256 ensures IndexOf(chain, chain[k]) == k {
      IndexOfAt(chain, k);
    }
    assert Values(nodes, chain) == Identity();
  }

  /** Only the links matter for the chain: rewriting symbols keeps it. */
  lemma SameLinksKeepChain(nodes: seq<Payload>, nodes': seq<Payload>, chain: seq<int>, term: int)
    requires IsChain(nodes, chain, term) && |nodes'| == |nodes|
    requires forall h :: 0 <= h < |nodes| ==>
      nodes'[h].next == nodes[h].next && nodes'[h].previous == nodes[h].previous
    ensures IsChain(nodes', chain, term)
  {
    assert forall k :: 0 <= k < 256 ==> nodes'[chain[k]].next == nodes[chain[k]].next;
  }

  /** What `balanceLists` starts from and aims at: the chain as found and
      the recency list it will spell, the identity when renumbering and the
      current symbols otherwise. */
  ghost predicate RenumberTarget(target: seq<byte>, resetValues: bool, term: int,
                                 chain: seq<int>, old_nodes: seq<Payload>)
  {
    && IsChain(old_nodes, chain, term) && |target| == 256 && Distinct(target)
    && (resetValues ==> target == Identity())
    && (!resetValues ==> forall m {:trigger target[m]} :: 0 <= m < 256 ==> old_nodes[chain[m]].value == target[m])
  }

  /** Progress of `balanceLists` after chain positions `0..k-1`: links
      untouched, `p` the node at position `k` (the end marker once the
      whole chain is done), the symbols before `k` renumbered when
      `resetValues` or no node touched at all otherwise, and the buckets of
      the symbols before `k` canonical. */
  ghost predicate Renumbered(target: seq<byte>, resetValues: bool, k: int, p: int, term: int,
                             chain: seq<int>, old_nodes: seq<Payload>,
                             nodes: seq<Payload>, buckets: seq<byte>)
  {
    && |chain| == 256 && (forall m :: 0 <= m < 256 ==> 0 <= chain[m] < |old_nodes|)
    && |nodes| == |old_nodes| && |buckets| == 256 && |target| == 256
    && 1 <= k <= 256 && p == (if k < 256 then chain[k] else term)
    && (forall h :: 0 <= h < |nodes| ==>
          nodes[h].next == old_nodes[h].next && nodes[h].previous == old_nodes[h].previous)
    && (resetValues ==> forall m {:trigger nodes[chain[m]]} :: 0 <= m < k ==> nodes[chain[m]].value == m)
    && (!resetValues ==> nodes == old_nodes)
    && (forall m :: 0 <= m < k ==> buckets[target[m]] == CanonicalPartition(m))
  }

  /** One step of `balanceLists`: renumber the node at position `k` (when
      resetting), file its symbol under partition `listIdx` and move on. */
  lemma RenumberStep(target: seq<byte>, resetValues: bool, k: int, p: int, term: int,
                     chain: seq<int>, old_nodes: seq<Payload>,
                     nodes: seq<Payload>, buckets: seq<byte>, listIdx: byte)
    requires RenumberTarget(target, resetValues, term, chain, old_nodes)
    requires Renumbered(target, resetValues, k, p, term, chain, old_nodes, nodes, buckets)
    requires k < 256 && listIdx == CanonicalPartition(k)
    ensures 0 <= p < |nodes|
    ensures var nodes' := if resetValues then nodes[p := nodes[p].(value := k)] else nodes;
      Renumbered(target, resetValues, k + 1, nodes'[p].next, term, chain, old_nodes,
                 nodes', buckets[nodes'[p].value := listIdx])
  {
    var nodes' := if resetValues then nodes[p := nodes[p].(value := k)] else nodes;
    var buckets' := buckets[nodes'[p].value := listIdx];
    assert nodes'[p].value == target[k];
    forall m | 0 <= m < k + 1 ensures buckets'[target[m]] == CanonicalPartition(m) {
      if m < k {
        assert target[m] != target[k];
      }
    }
    if resetValues {
      forall m | 0 <= m < k + 1 ensures nodes'[chain[m]].value == m {
        if m < k {
          assert chain[m] != chain[k];
        }
      }
    }
  }

  /** At the end of `balanceLists` the chain is intact and spells the
      target list. */
  lemma RenumberedValues(target: seq<byte>, resetValues: bool, p: int, term: int,
                         chain: seq<int>, old_nodes: seq<Payload>,
                         nodes: seq<Payload>, buckets: seq<byte>)
    requires RenumberTarget(target, resetValues, term, chain, old_nodes)
    requires Renumbered(target, resetValues, 256, p, term, chain, old_nodes, nodes, buckets)
    ensures IsChain(nodes, chain, term) && Values(nodes, chain) == target
  {
    SameLinksKeepChain(old_nodes, nodes, chain, term);
    var v := Values(nodes, chain);
    assert forall m :: 0 <= m < 256 ==> v[m] == target[m];
  }

  /** The first `n` partitions have the canonical heads and lengths. */
  ghost predicate RecutUpTo(heads: seq<int>, lengths: seq<int>, chain: seq<int>, n: int) {
    && |heads| == 16 && |lengths| == 16 && |chain| == 256
    && (forall j {:trigger heads[j]} :: 0 <= j < n && j < 16 ==> heads[j] == chain[CanonicalStart(j)])
    && (forall j :: 0 <= j < n && j < 16 ==> lengths[j] == if j == 0 then 1 else 17)
  }

  /** Cutting partition `n` at chain position `CanonicalStart(n)`. */
  lemma RecutStep(heads: seq<int>, lengths: seq<int>, chain: seq<int>, n: int, p: int)
    requires RecutUpTo(heads, lengths, chain, n) && 1 <= n < 16 && p == chain[CanonicalStart(n)]
    ensures RecutUpTo(heads[n := p], lengths[n := 17], chain, n + 1)
  {
  }

  /** When `balanceLists` has walked the whole chain, the arena still holds
      the chain, which spells the target, and the bookkeeping is the
      canonical layout. */
  lemma Rebalanced(target: seq<byte>, resetValues: bool, p: int, term: int,
                   chain: seq<int>, old_nodes: seq<Payload>, nodes: seq<Payload>,
                   heads: seq<int>, lengths: seq<int>, buckets: seq<byte>)
    requires RenumberTarget(target, resetValues, term, chain, old_nodes)
    requires Renumbered(target, resetValues, 256, p, term, chain, old_nodes, nodes, buckets)
    requires RecutUpTo(heads, lengths, chain, 16)
    ensures IsChain(nodes, chain, term) && Values(nodes, chain) == target
    ensures CanonicalLayout(heads, lengths, buckets, chain, target)
    ensures Partitioned(heads, lengths, buckets, CanonicalStarts(), chain, target)
  {
    RenumberedValues(target, resetValues, p, term, chain, old_nodes, nodes, buckets);
    CanonicalIsPartitioned(heads, lengths, buckets, chain, target);
  }

  /** The link updates that unlink the node at chain position `idx` and
      push it in front of the first node. */
  ghost predicate RelinkedToFront(nodes: seq<Payload>, chain: seq<int>, term: int, idx: nat,
                                  nodes': seq<Payload>)
    requires IsChain(nodes, chain, term) && 1 <= idx < 256
  {
    && |nodes'| == |nodes|
    && nodes'[chain[idx - 1]].next == Succ(chain, idx, term)
    && (idx + 1 < 256 ==> nodes'[chain[idx + 1]].previous == chain[idx - 1])
    && nodes'[chain[idx]].next == chain[0]
    && nodes'[chain[0]].previous == chain[idx]
    && (forall k {:trigger nodes'[chain[k]]} :: 0 <= k < 256 && k != idx - 1 && k != idx ==>
          nodes'[chain[k]].next == nodes[chain[k]].next)
    && (forall k {:trigger nodes'[chain[k]]} :: 0 < k < 256 && k != idx && k != idx + 1 ==>
          nodes'[chain[k]].previous == nodes[chain[k]].previous)
    && (forall k {:trigger nodes'[chain[k]]} :: 0 <= k < 256 ==> nodes'[chain[k]].value == nodes[chain[k]].value)
  }

  lemma RelinkNext(nodes: seq<Payload>, chain: seq<int>, term: int, idx: nat, nodes': seq<Payload>)
    requires IsChain(nodes, chain, term) && 1 <= idx < 256
    requires RelinkedToFront(nodes, chain, term, idx, nodes')
    ensures var c := MoveIndexToFront(chain, idx);
      forall k :: 0 <= k < 256 ==> nodes'[c[k]].next == Succ(c, k, term)
  {
    var c := MoveIndexToFront(chain, idx);
    forall k | 0 <= k < 256 ensures nodes'[c[k]].next == Succ(c, k, term) {
      if k == 0 {
      } else if k < idx {
        assert c[k] == chain[k - 1] && c[k + 1] == chain[k];
      } else if k == idx {
        assert c[k] == chain[idx - 1];
      } else {
        assert c[k] == chain[k];
      }
    }
  }

  lemma RelinkPrevious(nodes: seq<Payload>, chain: seq<int>, term: int, idx: nat, nodes': seq<Payload>)
    requires IsChain(nodes, chain, term) && 1 <= idx < 256
    requires RelinkedToFront(nodes, chain, term, idx, nodes')
    ensures var c := MoveIndexToFront(chain, idx);
      forall k :: 1 <= k < 256 ==> nodes'[c[k]].previous == c[k - 1]
  {
    var c := MoveIndexToFront(chain, idx);
    forall k | 1 <= k < 256 ensures nodes'[c[k]].previous == c[k - 1] {
      if k == 1 {
        assert c[1] == chain[0];
      } else if k <= idx {
        assert c[k] == chain[k - 1] && c[k - 1] == chain[k - 2];
      } else if k == idx + 1 {
        assert c[k] == chain[idx + 1] && c[k - 1] == chain[idx - 1];
      } else {
        assert c[k] == chain[k] && c[k - 1] == chain[k - 1];
      }
    }
  }

  lemma RelinkValues(nodes: seq<Payload>, chain: seq<int>, term: int, idx: nat, nodes': seq<Payload>)
    requires IsChain(nodes, chain, term) && 1 <= idx < 256
    requires RelinkedToFront(nodes, chain, term, idx, nodes')
    ensures Values(nodes', MoveIndexToFront(chain, idx)) == MoveIndexToFront(Values(nodes, chain), idx)
  {
    var c := MoveIndexToFront(chain, idx);
    var v := Values(nodes, chain);
    var v' := Values(nodes', c);
    var m := MoveIndexToFront(v, idx);
    forall k | 0 <= k < 256 ensures v'[k] == m[k] {
      var k' := if k == 0 then idx else if k <= idx then k - 1 else k;
      assert c[k] == chain[k'] && m[k] == v[k'];
    }
  }

  /** Unlinking the node at chain position `idx` and pushing it in front of
      the first node yields the chain with that node moved to the front;
      the symbols move the same way. */
  lemma RelinkToFront(nodes: seq<Payload>, chain: seq<int>, term: int, idx: nat,
                      nodes': seq<Payload>)
    requires IsChain(nodes, chain, term) && 1 <= idx < 256
    requires RelinkedToFront(nodes, chain, term, idx, nodes')
    ensures IsChain(nodes', MoveIndexToFront(chain, idx), term)
    ensures Values(nodes', MoveIndexToFront(chain, idx)) == MoveIndexToFront(Values(nodes, chain), idx)
  {
    MoveIndexToFrontKeepsDistinct(chain, idx);
    RelinkNext(nodes, chain, term, idx, nodes');
    RelinkPrevious(nodes, chain, term, idx, nodes');
    RelinkValues(nodes, chain, term, idx, nodes');
  }

  /** The link writes that move the node at chain position `idx` to the
      front, stated node by node: the predecessor skips it, the successor
      (if it is a node) points back to the predecessor, the node links to
      the first node and the first node back to it. They relink the chain
      with that node in front; the moved node keeps its stale `previous`,
      which still names its old predecessor. */
  lemma RelinkedByWrites(nodes0: seq<Payload>, chain: seq<int>, term: int, idx: nat, nodes: seq<Payload>)
    requires IsChain(nodes0, chain, term) && 1 <= idx < 256 && |nodes| == |nodes0|
    requires var prev, p, next, head := chain[idx - 1], chain[idx], Succ(chain, idx, term), chain[0];
      forall h :: 0 <= h < |nodes| ==>
        && nodes[h].value == nodes0[h].value
        && nodes[h].next == (if h == p then head else if h == prev then next else nodes0[h].next)
        && nodes[h].previous == (if h == head then p else if h == next then prev else nodes0[h].previous)
    ensures RelinkedToFront(nodes0, chain, term, idx, nodes)
    ensures nodes[chain[idx]].previous == chain[idx - 1]
  {
    assert chain[idx - 1] != chain[idx] && chain[0] != chain[idx];
  }

  /** Partition starts after a node of partition `listIdx` moved to
      partition 0: partitions 1..listIdx start one position later. */
  function ShiftStarts(starts: seq<int>, listIdx: int): (r: seq<int>)
    requires |starts| == 17
    ensures |r| == 17
    ensures forall i :: 0 <= i < 17 ==> r[i] == if 1 <= i <= listIdx then starts[i] + 1 else starts[i]
  {
    seq(17, (i: int) requires 0 <= i < 17 => if 1 <= i <= listIdx then starts[i] + 1 else starts[i])
  }

  /** The bookkeeping updates of one promotion: the node at chain position
      `idx`, in partition `b`, becomes the head of partition 0; if `b` is
      not 0 its length moves from partition `b` to partition 0, the symbol's
      bucket becomes 0, and `heads[b]` passes to the successor when the node
      was that partition's head. */
  ghost predicate Promoted(heads: seq<int>, lengths: seq<int>, buckets: seq<byte>,
                           starts: seq<int>, chain: seq<int>, list: seq<byte>,
                           idx: nat, term: int,
                           heads': seq<int>, lengths': seq<int>, buckets': seq<byte>)
    requires Partitioned(heads, lengths, buckets, starts, chain, list)
    requires 1 <= idx < 256
  {
    var b := buckets[list[idx]];
    && |heads'| == 16 && heads'[0] == chain[idx]
    && (forall i :: 1 <= i < 16 && i != b ==> heads'[i] == heads[i])
    && (b != 0 ==> heads'[b] == if idx == starts[b] then Succ(chain, idx, term) else heads[b])
    && lengths' == (if b == 0 then lengths else lengths[b := lengths[b] - 1][0 := lengths[0] + 1])
    && buckets' == (if b == 0 then buckets else buckets[list[idx] := 0])
  }

  /** A promotion that leaves every partition non-empty and partition 0
      within the threshold needs no rebalance. */
  ghost predicate NoRebalance(lengths': seq<int>, b: int)
    requires |lengths'| == 16 && 0 <= b < 16
  {
    b == 0 || (lengths'[0] <= RESET_THRESHOLD && lengths'[b] != 0)
  }

  lemma PromoteStarts(lengths: seq<int>, starts: seq<int>, b: int, lengths': seq<int>)
    requires |lengths| == 16 && |starts| == 17 && 0 <= b < 16
    requires starts[0] == 0 && starts[16] == 256
    requires forall i :: 0 <= i < 16 ==> starts[i + 1] == starts[i] + lengths[i]
    requires forall i :: 0 <= i < 16 ==> 1 <= lengths[i]
    requires lengths' == (if b == 0 then lengths else lengths[b := lengths[b] - 1][0 := lengths[0] + 1])
    requires NoRebalance(lengths', b)
    ensures var starts' := ShiftStarts(starts, b);
      && starts'[0] == 0 && starts'[16] == 256
      && (forall i :: 0 <= i < 16 ==> starts'[i + 1] == starts'[i] + lengths'[i])
      && (forall i :: 0 <= i < 16 ==> 1 <= lengths'[i])
  {
    var starts' := ShiftStarts(starts, b);
    assert b != 0 ==> starts[b] + 1 < starts[b + 1];
  }

  lemma PromoteHeads(heads: seq<int>, lengths: seq<int>, buckets: seq<byte>,
                     starts: seq<int>, chain: seq<int>, list: seq<byte>,
                     idx: nat, term: int,
                     heads': seq<int>, lengths': seq<int>, buckets': seq<byte>)
    requires Partitioned(heads, lengths, buckets, starts, chain, list)
    requires 1 <= idx < 256
    requires Promoted(heads, lengths, buckets, starts, chain, list, idx, term, heads', lengths', buckets')
    requires NoRebalance(lengths', buckets[list[idx]])
    ensures var starts' := ShiftStarts(starts, buckets[list[idx]]);
      var chain' := MoveIndexToFront(chain, idx);
      forall i :: 0 <= i < 16 ==> 0 <= starts'[i] < 256 && heads'[i] == chain'[starts'[i]]
  {
    var b := buckets[list[idx]] as int;
    assert InPartition(starts, b, idx);
    var starts' := ShiftStarts(starts, b);
    var chain' := MoveIndexToFront(chain, idx);
    assert b != 0 ==> starts[b] + 1 < starts[b + 1];
    forall i | 0 <= i < 16 ensures 0 <= starts'[i] < 256 && heads'[i] == chain'[starts'[i]] {
      StartsIncrease(starts, lengths, i + 1, 16);
      if i == 0 {
      } else if i < b {
        StartsIncrease(starts, lengths, i, b);
        assert chain'[starts[i] + 1] == chain[starts[i]];
      } else if i == b {
        if idx == starts[b] {
          assert chain'[idx + 1] == chain[idx + 1];
        } else {
          assert chain'[starts[i] + 1] == chain[starts[i]];
        }
      } else {
        StartsIncrease(starts, lengths, b + 1, i);
        assert chain'[starts[i]] == chain[starts[i]];
      }
    }
  }

  lemma PromoteBuckets(heads: seq<int>, lengths: seq<int>, buckets: seq<byte>,
                       starts: seq<int>, chain: seq<int>, list: seq<byte>,
                       idx: nat, term: int,
                       heads': seq<int>, lengths': seq<int>, buckets': seq<byte>)
    requires Partitioned(heads, lengths, buckets, starts, chain, list)
    requires Distinct(list)
    requires 1 <= idx < 256
    requires Promoted(heads, lengths, buckets, starts, chain, list, idx, term, heads', lengths', buckets')
    ensures var starts' := ShiftStarts(starts, buckets[list[idx]]);
      var list' := MoveIndexToFront(list, idx);
      forall k :: 0 <= k < 256 ==> InPartition(starts', buckets'[list'[k]], k)
  {
    var b := buckets[list[idx]] as int;
    assert InPartition(starts, b, idx);
    var starts' := ShiftStarts(starts, b);
    var list' := MoveIndexToFront(list, idx);
    forall k | 0 <= k < 256 ensures InPartition(starts', buckets'[list'[k]], k) {
      if k == 0 {
        assert list'[0] == list[idx];
        assert starts[0] < starts[1];
      } else if k <= idx {
        assert list'[k] == list[k - 1] && list[k - 1] != list[idx];
        var c := buckets[list[k - 1]] as int;
        assert InPartition(starts, c, k - 1);
        if c > b {
          StartsIncrease(starts, lengths, b + 1, c);
        }
      } else {
        assert list'[k] == list[k] && list[k] != list[idx];
        var c := buckets[list[k]] as int;
        assert InPartition(starts, c, k);
        if c < b {
          StartsIncrease(starts, lengths, c + 1, b);
        }
      }
    }
  }

  /** Moving the symbol at chain position `idx` to the front of partition 0
      keeps the bookkeeping consistent, unless partition 0 grew past the
      threshold or the source partition became empty, in which case the
      caller rebalances. Either way the symbol's bucket is 0. */
  lemma PromoteKeepsPartitions(heads: seq<int>, lengths: seq<int>, buckets: seq<byte>,
                               starts: seq<int>, chain: seq<int>, list: seq<byte>,
                               idx: nat, term: int,
                               heads': seq<int>, lengths': seq<int>, buckets': seq<byte>)
    requires Partitioned(heads, lengths, buckets, starts, chain, list)
    requires Distinct(list)
    requires 1 <= idx < 256
    requires Promoted(heads, lengths, buckets, starts, chain, list, idx, term, heads', lengths', buckets')
    ensures NoRebalance(lengths', buckets[list[idx]]) ==>
      Partitioned(heads', lengths', buckets', ShiftStarts(starts, buckets[list[idx]]),
                  MoveIndexToFront(chain, idx), MoveIndexToFront(list, idx))
    ensures buckets'[MoveIndexToFront(list, idx)[0]] == 0
  {
    var b := buckets[list[idx]] as int;
    assert InPartition(starts, b, idx);
    PromoteBuckets(heads, lengths, buckets, starts, chain, list, idx, term, heads', lengths', buckets');
    if NoRebalance(lengths', b) {
      PromoteStarts(lengths, starts, b, lengths');
      PromoteHeads(heads, lengths, buckets, starts, chain, list, idx, term, heads', lengths', buckets');
    }
  }

  /** The lookup at the start of a promotion: the bucket names the
      partition, the lengths of the partitions before it give its first
      chain position, and a walk from its head finds the node holding
      `current`. The result is the symbol's rank in the recency list. */
  method Locate(t: Tables, ghost chain: seq<int>, ghost starts: seq<int>, term: int, current: byte)
    returns (listIdx: int, p: int, idx: int)
    requires Linked(t, chain, term)
    requires Partitioned(t.heads, t.lengths, t.buckets, starts, chain, Values(t.nodes, chain))
    ensures 0 <= idx < 256 && idx == IndexOf(Values(t.nodes, chain), current) && p == chain[idx]
    ensures listIdx == t.buckets[current] && InPartition(starts, listIdx, idx)
  {
    ghost var list := Values(t.nodes, chain);
    IndexOfFound(list, current);
    ghost var pos := IndexOf(list, current);
    listIdx := t.buckets[current];
    assert InPartition(starts, t.buckets[list[pos]], pos);
    p := t.heads[listIdx];
    idx := 0;
    for i := 0 to listIdx
      invariant idx == starts[i]
    {
      idx := idx + t.lengths[i];
    }
    p, idx := Walk(t.nodes, chain, term, list, p, idx, pos, current);
    assert IndexOf(list, list[idx]) == idx;
  }

  /** The walk of Java `moveToFront` along the chain from position `idx0`
      to the first node holding `current`, which is at or before `pos`. */
  method Walk(nodes: seq<Payload>, ghost chain: seq<int>, term: int, ghost list: seq<byte>,
              p0: int, idx0: int, ghost pos: int, current: byte)
    returns (p: int, idx: int)
    requires |chain| == 256 && forall k :: 0 <= k < 256 ==> 0 <= chain[k] < |nodes|
    requires forall k {:trigger nodes[chain[k]]} :: 0 <= k < 256 ==> nodes[chain[k]].next == Succ(chain, k, term)
    requires |list| == 256 && forall k {:trigger list[k]} :: 0 <= k < 256 ==> list[k] == nodes[chain[k]].value
    requires 0 <= idx0 <= pos < 256 && list[pos] == current && p0 == chain[idx0]
    ensures idx0 <= idx <= pos && p == chain[idx] && list[idx] == current
  {
    p, idx := p0, idx0;
    while nodes[p].value != current
      invariant idx0 <= idx <= pos && p == chain[idx]
      decreases pos - idx
    {
      assert list[idx] != current;
      p := nodes[p].next;
      idx := idx + 1;
    }
  }
}
