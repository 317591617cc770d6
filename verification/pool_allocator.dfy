/** The pool allocator (src/common/util/pool_allocator.h), one instance of it.  A block is a byte array of its own. */
module PoolAllocators {
  import opened Words

  type Block = array<Byte>

  /** The list holds each of the blocks once and nothing else. */
  ghost predicate Lists(list: seq<Block>, blocks: set<Block>) {
    if list == [] then blocks == {}
    else list[|list| - 1] in blocks && Lists(list[..|list| - 1], blocks - {list[|list| - 1]})
  }

  lemma {:induction false} ListsOnce(list: seq<Block>, blocks: set<Block>)
    requires Lists(list, blocks)
    ensures |list| == |blocks| && (forall b :: b in list <==> b in blocks)
    ensures forall i, j :: 0 <= i < j < |list| ==> list[i] != list[j]
  {
    if list != [] {
      var n := |list| - 1;
      ListsOnce(list[..n], blocks - {list[n]});
      assert list == list[..n] + [list[n]];
    }
  }

  lemma ListsPush(list: seq<Block>, blocks: set<Block>, b: Block)
    requires Lists(list, blocks) && b !in blocks
    ensures Lists(list + [b], blocks + {b})
  {
    assert (list + [b])[..|list|] == list && blocks + {b} - {b} == blocks;
  }

  lemma {:induction false} ListsRemove(list: seq<Block>, blocks: set<Block>, k: nat)
    requires Lists(list, blocks) && k < |list|
    ensures list[k] in blocks && Lists(list[..k] + list[k + 1..], blocks - {list[k]})
  {
    var n := |list| - 1;
    if k == n {
      assert list[..k] + list[k + 1..] == list[..n];
    } else {
      ListsOnce(list, blocks);
      ListsRemove(list[..n], blocks - {list[n]}, k);
      var rest := list[..n][..k] + list[..n][k + 1..];
      ListsPush(rest, blocks - {list[n]} - {list[k]}, list[n]);
      assert rest + [list[n]] == list[..k] + list[k + 1..];
      assert blocks - {list[n]} - {list[k]} + {list[n]} == blocks - {list[k]};
    }
  }

  class PoolAllocator {
    const elemSize: nat
    const chunkSize: nat
    var chunks: nat                     // how many there are; their blocks are recorded in blocks
    var freeList: seq<Block>
    ghost var blocks: set<Block>
    ghost var live: set<Block>

    /** Every block is either free, once, or live. */
    ghost predicate Valid()
      reads this
    {
      && chunkSize > 0 && live <= blocks && Lists(freeList, blocks - live)
      && |blocks| == Capacity()
      && forall b :: b in blocks ==> b.Length == elemSize
    }

    constructor (elemSize: nat, chunkSize: nat)
      requires chunkSize > 0
      ensures Valid() && live == {} && chunks == 0
      ensures this.elemSize == elemSize && this.chunkSize == chunkSize
    {
      this.elemSize, this.chunkSize := elemSize, chunkSize;
      chunks, freeList, blocks, live := 0, [], {}, {};
    }

    function Capacity(): nat
      reads this
    {
      chunks * chunkSize
    }

    function FreeEntriesCount(): nat
      reads this
    {
      |freeList|
    }

    /** Free and live blocks add up to the capacity. */
    lemma CountersAddUp()
      requires Valid()
      ensures FreeEntriesCount() + |live| == Capacity()
    {
      ListsOnce(freeList, blocks - live);
      assert blocks == (blocks - live) + live;
    }

    /** Add a chunk of new blocks to the free list. */
    method Resize()
      requires Valid()
      modifies this
      ensures Valid() && live == old(live) && chunks == old(chunks) + 1
      ensures old(blocks) <= blocks && fresh(blocks - old(blocks)) && freeList != []
    {
      ghost var before := |blocks|;
      chunks := chunks + 1;
      assert chunks * chunkSize == (chunks - 1) * chunkSize + chunkSize;
      for i := 0 to chunkSize
        invariant chunks == old(chunks) + 1 && live == old(live) && live <= blocks && Lists(freeList, blocks - live)
        invariant |blocks| == before + i && (i > 0 ==> freeList != [])
        invariant old(blocks) <= blocks && fresh(blocks - old(blocks))
        invariant forall b :: b in blocks ==> b.Length == elemSize
      {
        var p := new Byte[elemSize](_ => 0);
        ListsPush(freeList, blocks - live, p);
        assert blocks + {p} - live == blocks - live + {p};
        blocks := blocks + {p};
        freeList := freeList + [p];
      }
    }

    /** Hand out a block, filled with zeroes: one that is not live, new if none is free. */
    method Allocate() returns (ret: Block)
      requires Valid()
      modifies this, blocks - live
      ensures Valid() && ret !in old(live) && live == old(live) + {ret} && ret.Length == elemSize
      ensures old(blocks) <= blocks && fresh(blocks - old(blocks))
      ensures forall k :: 0 <= k < elemSize ==> ret[k] == 0
      ensures old(freeList) != [] ==> chunks == old(chunks)
    {
      if |freeList| == 0 {
        Resize();
      }
      ret := freeList[|freeList| - 1];
      assert blocks - (live + {ret}) == blocks - live - {ret};
      freeList := freeList[..|freeList| - 1];
      live := live + {ret};
      forall k | 0 <= k < ret.Length {
        ret[k] := 0;
      }
    }

    /** Take a live block back; the null pointer is let through. */
    method Free(p: array?<Byte>)
      requires Valid() && (p != null ==> p in live)
      modifies this
      ensures Valid() && chunks == old(chunks) && blocks == old(blocks)
      ensures live == if p == null then old(live) else old(live) - {p}
    {
      if p != null {
        ListsPush(freeList, blocks - live, p);
        assert blocks - (live - {p}) == blocks - live + {p};
        freeList := freeList + [p];
        live := live - {p};
      }
    }
  }

  /** Any run of allocations, and frees of blocks that the run has got and still holds, in any order: no block is held
    twice, and the two counters add up. */
  method Run(pool: PoolAllocator, script: seq<int>) returns (held: seq<Block>)
    requires pool.Valid() && pool.live == {}
    modifies pool, pool.blocks
    ensures pool.Valid() && forall i, j :: 0 <= i < j < |held| ==> held[i] != held[j]
    ensures pool.FreeEntriesCount() + |held| == pool.Capacity()
  {
    held := [];
    for n := 0 to |script|
      invariant pool.Valid() && Lists(held, pool.live) && fresh(pool.blocks - old(pool.blocks))
    {
      var k := script[n];
      if k < 0 {
        var p := pool.Allocate();
        ListsPush(held, pool.live - {p}, p);
        assert pool.live - {p} + {p} == pool.live;
        held := held + [p];
      } else if k < |held| {
        ListsRemove(held, pool.live, k);
        pool.Free(held[k]);
        held := held[..k] + held[k + 1..];
      }
    }
    ListsOnce(held, pool.live);
    pool.CountersAddUp();
  }
}
