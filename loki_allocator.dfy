/**
 * The Loki-style small-object allocator of zephyr: a `chunk` is an arena
 * of up to 255 equal blocks whose free blocks form an intrusive list (the
 * first byte of a free block holds the index of the next free one), and a
 * `fixed_allocator` owns a vector of chunks plus two cached positions in
 * it, one for allocation and one for deallocation.
 *
 * Addresses are natural numbers.  A chunk's buffer is the range
 * [base, base + blockSize * numBlocks); the first bytes of its blocks are
 * the array `links`, one entry per block, so block i's link byte is
 * links[i] and its address is base + blockSize * i.  The address 0 is the
 * null pointer.  The system `::operator new` is a parameter: the caller
 * passes the base of a fresh range.
 */
module LokiAllocator {
  import opened Options

  /** An `unsigned char`. */
  type Byte = x: int | 0 <= x < 256

  /**
   * The free list of a chunk: starting at block `head`, follow the link
   * bytes for `count` blocks.  The walk stops early at an index outside the
   * buffer, which a valid chunk never reaches.
   */
  function FreeChain(links: seq<Byte>, head: nat, count: nat): (chain: seq<nat>)
    ensures |chain| <= count
    ensures forall i :: 0 <= i < |chain| ==> chain[i] < |links|
    decreases count
  {
    if count == 0 || head >= |links| then []
    else [head] + FreeChain(links, links[head], count - 1)
  }

  /** The indices lo, lo + 1, ..., hi - 1. */
  function Range(lo: nat, hi: nat): (r: seq<nat>)
    requires lo <= hi
    ensures |r| == hi - lo
    ensures forall i :: 0 <= i < |r| ==> r[i] == lo + i
    decreases hi - lo
  {
    if lo == hi then [] else [lo] + Range(lo + 1, hi)
  }

  /** No index occurs twice. */
  predicate Distinct(s: seq<nat>) {
    forall i, j :: 0 <= i < j < |s| ==> s[i] != s[j]
  }

  /** After reset every block links to its successor, so the free list is 0, 1, ..., n - 1. */
  lemma {:induction false} ResetChain(links: seq<Byte>, k: nat, n: nat)
    requires k <= n == |links|
    requires forall i :: 0 <= i < n ==> links[i] == i + 1
    ensures FreeChain(links, k, n - k) == Range(k, n)
    decreases n - k
  {
    if k < n {
      ResetChain(links, k + 1, n);
    }
  }

  /** Writing the link byte of a block that is not on the free list leaves the list as it was. */
  lemma {:induction false} ChainFrame(links: seq<Byte>, head: nat, count: nat, b: nat, v: Byte)
    requires b < |links|
    requires b !in FreeChain(links, head, count)
    ensures FreeChain(links[b := v], head, count) == FreeChain(links, head, count)
    decreases count
  {
    if count > 0 && head < |links| {
      assert head != b;
      ChainFrame(links, links[head], count - 1, b, v);
    }
  }

  /** A list of distinct block indices below n has at most n entries. */
  lemma {:induction false} DistinctBound(s: seq<nat>, n: nat)
    requires Distinct(s)
    requires forall i :: 0 <= i < |s| ==> s[i] < n
    ensures |s| <= n
    decreases n
  {
    if |s| > 0 {
      assert s[0] < n;
      if n - 1 in s {
        var k :| 0 <= k < |s| && s[k] == n - 1;
        var t := s[..k] + s[k + 1..];
        assert forall i :: 0 <= i < |t| ==> t[i] == (if i < k then s[i] else s[i + 1]);
        DistinctBound(t, n - 1);
      } else if n > 1 {
        DistinctBound(s, n - 1);
      }
    }
  }

  /** A free list of distinct blocks below n that misses block b is shorter than n. */
  lemma MissingBlock(s: seq<nat>, n: nat, b: nat)
    requires Distinct(s) && b < n && b !in s
    requires forall i :: 0 <= i < |s| ==> s[i] < n
    ensures |s| < n
  {
    DistinctBound(s + [b], n);
  }

  /** What a chunk holds, as values: its buffer address and its free list in list order. */
  datatype ChunkView = ChunkView(base: nat, free: seq<nat>)

  class Chunk {
    /** p_data_: the buffer address, 0 once released. */
    var base: nat
    /** The first byte of each block of the buffer. */
    var links: array<Byte>
    /** block_available_ */
    var avail: nat
    /** first_available_block_ */
    var first: Byte

    /**
     * The free list walks `avail` blocks without leaving the buffer and
     * visits no block twice.
     */
    ghost predicate Valid()
      reads this, links
    {
      links.Length <= 255 &&
      |FreeChain(links[..], first, avail)| == avail &&
      Distinct(FreeChain(links[..], first, avail))
    }

    ghost function Free(): seq<nat>
      reads this, links
    {
      FreeChain(links[..], first, avail)
    }

    ghost function View(): ChunkView
      reads this, links
    {
      ChunkView(base, Free())
    }

    /**
     * reset: every block is free, block i links to i + 1, and the free
     * list is 0, 1, ..., blocks - 1.  The model indexes blocks directly,
     * so the block size, which only scales addresses, is not needed here.
     */
    method Reset(blocks: nat)
      requires blocks == links.Length <= 255
      modifies this, links
      ensures base == old(base) && links == old(links)
      ensures Valid()
      ensures avail == blocks && first == 0
      ensures forall i :: 0 <= i < blocks ==> links[i] == i + 1
      ensures Free() == Range(0, blocks)
    {
      avail := blocks;
      first := 0;
      var buffer := links;
      var i := 0;
      while i != blocks
        invariant 0 <= i <= blocks
        invariant links == buffer && base == old(base) && avail == blocks && first == 0
        invariant forall j :: 0 <= j < i ==> buffer[j] == j + 1
        decreases blocks - i
      {
        buffer[i] := i + 1;
        i := i + 1;
      }
      ResetChain(buffer[..], 0, blocks);
    }

    /**
     * chunk(block_size, blocks) and init: take a buffer of
     * block_size * blocks bytes at `sysBase` from the system and reset it.
     */
    constructor (blockSize: nat, blocks: nat, sysBase: nat)
      requires blocks <= 255
      ensures Valid() && fresh(links)
      ensures base == sysBase && links.Length == blocks
      ensures avail == blocks && first == 0
      ensures Free() == Range(0, blocks)
    {
      base := sysBase;
      links := new Byte[blocks];
      avail := 0;
      first := 0;
      new;
      Reset(blocks);
    }

    /** release: give a live buffer back; the chunk is then empty and null. */
    method Release()
      requires Valid()
      modifies this
      ensures Valid() && links == old(links)
      ensures old(base) != 0 ==> base == 0 && avail == 0 && first == 0 && Free() == []
      ensures old(base) == 0 ==> base == 0 && avail == old(avail) && first == old(first)
    {
      if base != 0 {
        base := 0;
        avail := 0;
        first := 0;
      }
    }

    /**
     * The move constructor: this chunk takes over the other's buffer and
     * state, and the other is left null and empty, owning no buffer.
     */
    constructor Moved(other: Chunk)
      requires other.Valid()
      modifies other
      ensures Valid() && View() == old(other.View())
      ensures links == old(other.links) && avail == old(other.avail) && first == old(other.first)
      ensures other.base == 0 && other.avail == 0 && other.first == 0
      ensures fresh(other.links) && other.Valid() && other.Free() == []
    {
      base := other.base;
      links := other.links;
      avail := other.avail;
      first := other.first;
      new;
      other.base := 0;
      other.avail := 0;
      other.first := 0;
      other.links := new Byte[0];
    }

    /**
     * The move assignment: take over rhs's buffer and state and leave rhs
     * null.  Moving a chunk onto itself leaves it null as well, since rhs
     * is cleared after the copy.
     */
    method MoveAssign(rhs: Chunk)
      requires rhs.Valid()
      modifies this, rhs
      ensures rhs != this ==> links == old(rhs.links) && base == old(rhs.base) &&
                              avail == old(rhs.avail) && first == old(rhs.first)
      ensures rhs != this ==> Valid() && View() == old(rhs.View())
      ensures rhs.base == 0 && rhs.avail == 0 && rhs.first == 0
      ensures fresh(rhs.links) && rhs.Valid() && rhs.Free() == []
    {
      base := rhs.base;
      avail := rhs.avail;
      first := rhs.first;
      links := rhs.links;
      rhs.base := 0;
      rhs.avail := 0;
      rhs.first := 0;
      rhs.links := new Byte[0];
    }

    /**
     * allocate: null when no block is free; otherwise the address of the
     * head block of the free list, which is unlinked.
     */
    method Allocate(blockSize: nat) returns (r: Option<nat>)
      requires Valid()
      modifies this
      ensures Valid() && links == old(links) && base == old(base)
      ensures old(avail) == 0 ==> r == None && avail == 0 && first == old(first)
      ensures old(avail) > 0 ==> r == Some(base + blockSize * old(Free())[0])
      ensures old(avail) > 0 ==> avail == old(avail) - 1 && Free() == old(Free())[1..]
      ensures old(avail) > 0 ==> old(Free())[0] !in Free()
    {
      if avail == 0 {
        return None;
      }
      r := Some(base + blockSize * first);
      assert Free()[1..] == FreeChain(links[..], links[first], avail - 1);
      first := links[first];
      avail := avail - 1;
      assert Free() == old(Free())[1..];
    }

    /**
     * deallocate: write the old head into the freed block's link byte and
     * make that block the head.  `p` must be a block of this chunk that is
     * handed out.
     */
    method Deallocate(p: nat, blockSize: nat)
      requires Valid() && blockSize > 0
      requires base <= p && (p - base) % blockSize == 0 && (p - base) / blockSize < links.Length
      requires (p - base) / blockSize !in Free()
      modifies this, links
      ensures Valid() && links == old(links) && base == old(base)
      ensures avail == old(avail) + 1
      ensures first == (p - base) / blockSize
      ensures Free() == [(p - base) / blockSize] + old(Free())
      ensures links[..] == old(links[..])[(p - base) / blockSize := old(first)]
    {
      var b := (p - base) / blockSize;
      MissingBlock(Free(), links.Length, b);
      ChainFrame(links[..], first, avail, b, first);
      links[b] := first;
      first := b;
      avail := avail + 1;
    }
  }

  // ---------------------------------------------------------------------
  // The vector of chunks, as values

  /** A cache pointer is null or points at an element of the vector. */
  predicate CacheOk(c: Option<nat>, n: nat) {
    c.None? || c.value < n
  }

  /** The buffer of `v` contains the address p. */
  predicate Contains(v: ChunkView, p: nat, chunkLen: nat) {
    v.base <= p < v.base + chunkLen
  }

  /** Two buffers do not overlap. */
  predicate Apart(v: ChunkView, w: ChunkView, chunkLen: nat) {
    v.base + chunkLen <= w.base || w.base + chunkLen <= v.base
  }

  /** What every chunk of a fixed_allocator satisfies, and the buffers are pairwise apart. */
  ghost predicate ViewsOk(vs: seq<ChunkView>, blockSize: nat, numBlocks: nat) {
    (forall i :: 0 <= i < |vs| ==> vs[i].base > 0 && Distinct(vs[i].free) && |vs[i].free| <= numBlocks) &&
    (forall i, k :: 0 <= i < |vs| && 0 <= k < |vs[i].free| ==> vs[i].free[k] < numBlocks) &&
    (forall i, j :: 0 <= i < j < |vs| ==> Apart(vs[i], vs[j], blockSize * numBlocks))
  }

  /** The first chunk whose buffer contains p, if any. */
  function Owner(vs: seq<ChunkView>, p: nat, chunkLen: nat): (r: Option<nat>)
    ensures r.Some? ==> r.value < |vs| && Contains(vs[r.value], p, chunkLen)
    ensures r.Some? ==> forall i :: 0 <= i < r.value ==> !Contains(vs[i], p, chunkLen)
    ensures r.None? <==> forall i :: 0 <= i < |vs| ==> !Contains(vs[i], p, chunkLen)
    decreases |vs|
  {
    if |vs| == 0 then None
    else if Contains(vs[0], p, chunkLen) then Some(0)
    else match Owner(vs[1..], p, chunkLen)
      case None => None
      case Some(k) => Some(k + 1)
  }

  /** With buffers apart, a chunk containing p is the owner of p. */
  lemma OwnerUnique(vs: seq<ChunkView>, p: nat, blockSize: nat, numBlocks: nat, i: nat)
    requires ViewsOk(vs, blockSize, numBlocks)
    requires i < |vs| && Contains(vs[i], p, blockSize * numBlocks)
    ensures Owner(vs, p, blockSize * numBlocks) == Some(i)
  {
    var r := Owner(vs, p, blockSize * numBlocks);
  }

  /** The first chunk in vector order with a free block, if any. */
  function FirstFit(vs: seq<ChunkView>): (r: Option<nat>)
    ensures r.Some? ==> r.value < |vs| && |vs[r.value].free| > 0
    ensures r.Some? ==> forall i :: 0 <= i < r.value ==> |vs[i].free| == 0
    ensures r.None? <==> forall i :: 0 <= i < |vs| ==> |vs[i].free| == 0
    decreases |vs|
  {
    if |vs| == 0 then None
    else if |vs[0].free| > 0 then Some(0)
    else match FirstFit(vs[1..])
      case None => None
      case Some(k) => Some(k + 1)
  }

  /**
   * The chunk fixed_allocator::allocate takes a block from: the cached one
   * while it has a free block, else the first one with a free block; None
   * when no chunk has one and a chunk must be appended.
   */
  function AllocTarget(vs: seq<ChunkView>, cache: Option<nat>): (r: Option<nat>)
    requires CacheOk(cache, |vs|)
    ensures r.Some? ==> r.value < |vs| && |vs[r.value].free| > 0
    ensures cache.Some? && |vs[cache.value].free| > 0 ==> r == cache
    ensures (cache.None? || |vs[cache.value].free| == 0) && r.Some? ==>
              forall i :: 0 <= i < r.value ==> |vs[i].free| == 0
    ensures r.None? <==> forall i :: 0 <= i < |vs| ==> |vs[i].free| == 0
  {
    if cache.Some? && |vs[cache.value].free| > 0 then cache else FirstFit(vs)
  }

  /** The abstract state of a fixed_allocator: its chunks and its two caches. */
  datatype AllocState = AllocState(views: seq<ChunkView>, alloc: Option<nat>, dealloc: Option<nat>)

  ghost predicate StateOk(s: AllocState, blockSize: nat, numBlocks: nat) {
    ViewsOk(s.views, blockSize, numBlocks) &&
    CacheOk(s.alloc, |s.views|) && CacheOk(s.dealloc, |s.views|)
  }

  /** Unlink the head of a chunk's free list. */
  function TakeHead(v: ChunkView): ChunkView
    requires |v.free| > 0
  {
    ChunkView(v.base, v.free[1..])
  }

  /** Push block b onto a chunk's free list. */
  function GiveBack(v: ChunkView, b: nat): ChunkView {
    ChunkView(v.base, [b] + v.free)
  }

  /** LIFO reuse: after block b is given back, the next take hands out b and restores the chunk. */
  lemma GiveThenTake(v: ChunkView, b: nat)
    ensures |GiveBack(v, b).free| > 0 && GiveBack(v, b).free[0] == b
    ensures TakeHead(GiveBack(v, b)) == v
  {
    assert ([b] + v.free)[1..] == v.free;
  }

  /**
   * The first half of fixed_allocator::allocate on the abstract state:
   * point the allocation cache at the target chunk, or append the chunk
   * the system provides at `sysBase` and reset both caches.
   */
  function SelectSpec(s: AllocState, numBlocks: nat, sysBase: nat): (r: AllocState)
    requires CacheOk(s.alloc, |s.views|)
    ensures r.alloc.Some? && r.alloc.value < |r.views|
  {
    var t := AllocTarget(s.views, s.alloc);
    if t.Some? then AllocState(s.views, t, s.dealloc)
    else AllocState(s.views + [ChunkView(sysBase, Range(0, numBlocks))], Some(|s.views|), Some(0))
  }

  /**
   * The second half: chunk::allocate on the chunk the allocation cache
   * points at; the address handed out, or None for a null pointer.
   */
  function TakeSpec(s: AllocState, blockSize: nat): (AllocState, Option<nat>)
    requires s.alloc.Some? && s.alloc.value < |s.views|
  {
    var t := s.alloc.value;
    var v := s.views[t];
    if |v.free| == 0 then (s, None)
    else
      var address: nat := v.base + blockSize * v.free[0];
      (AllocState(s.views[t := TakeHead(v)], s.alloc, s.dealloc), Some(address))
  }

  /** fixed_allocator::allocate on the abstract state: the new state and the address handed out. */
  function AllocSpec(s: AllocState, blockSize: nat, numBlocks: nat, sysBase: nat): (AllocState, Option<nat>)
    requires CacheOk(s.alloc, |s.views|)
  {
    TakeSpec(SelectSpec(s, numBlocks, sysBase), blockSize)
  }

  /** Exchange two elements of the vector, as std::swap on two chunks does. */
  function Swap(vs: seq<ChunkView>, i: nat, j: nat): (r: seq<ChunkView>)
    requires i < |vs| && j < |vs|
    ensures |r| == |vs| && r[i] == vs[j] && r[j] == vs[i]
    ensures forall k :: 0 <= k < |vs| && k != i && k != j ==> r[k] == vs[k]
  {
    vs[i := vs[j]][j := vs[i]]
  }

  /**
   * The compaction rule of do_deallocate after block release in chunk d.
   * It acts only when chunk d has become wholly free.  If d is the last
   * chunk, the last chunk is dropped when its predecessor is wholly free
   * too (both caches then point at the front).  Otherwise a wholly free last
   * chunk is dropped (the allocation cache moves to d), or else d and the
   * last chunk are exchanged and the allocation cache points at the now
   * empty last chunk.
   */
  function Compact(vs: seq<ChunkView>, d: nat, alloc: Option<nat>, numBlocks: nat): (r: AllocState)
    requires d < |vs| && CacheOk(alloc, |vs|)
    ensures |r.views| == |vs| || (|r.views| == |vs| - 1 && r.views == vs[..|vs| - 1])
    ensures |r.views| >= 1
    ensures |vs[d].free| != numBlocks ==> r == AllocState(vs, alloc, Some(d))
    ensures |r.views| < |vs| ==> |vs[|vs| - 1].free| == numBlocks && |vs[d].free| == numBlocks
    ensures |r.views| == |vs| && r.views != vs ==>
              r.views == Swap(vs, d, |vs| - 1) && |vs[d].free| == numBlocks && r.alloc == Some(|vs| - 1)
    ensures CacheOk(r.alloc, |r.views|) && CacheOk(r.dealloc, |r.views|) && r.dealloc.Some?
  {
    var last := |vs| - 1;
    if |vs[d].free| != numBlocks then AllocState(vs, alloc, Some(d))
    else if d == last then
      if |vs| > 1 && |vs[d - 1].free| == numBlocks then AllocState(vs[..last], Some(0), Some(0))
      else AllocState(vs, alloc, Some(d))
    else if |vs[last].free| == numBlocks then AllocState(vs[..last], Some(d), Some(d))
    else AllocState(Swap(vs, d, last), Some(last), Some(d))
  }

  /** deallocate_chunk_find: null at once when the cache is null, else the owner of p. */
  function FindSpec(vs: seq<ChunkView>, dealloc: Option<nat>, p: nat, chunkLen: nat): Option<nat> {
    if dealloc.None? then None else Owner(vs, p, chunkLen)
  }

  /** The block of chunk v that address p lies in. */
  function BlockOf(v: ChunkView, p: nat, blockSize: nat): nat
    requires blockSize > 0 && v.base <= p
  {
    (p - v.base) / blockSize
  }

  /**
   * do_deallocate on the abstract state: nothing when the deallocation
   * cache is null; otherwise give p's block back to the cached chunk and
   * run the compaction rule.
   */
  function DoDeallocSpec(s: AllocState, p: nat, blockSize: nat, numBlocks: nat): AllocState
    requires CacheOk(s.alloc, |s.views|) && CacheOk(s.dealloc, |s.views|) && blockSize > 0
    requires s.dealloc.Some? ==> s.views[s.dealloc.value].base <= p
  {
    if s.dealloc.None? then s
    else
      var d := s.dealloc.value;
      var v := s.views[d];
      Compact(s.views[d := GiveBack(v, BlockOf(v, p, blockSize))], d, s.alloc, numBlocks)
  }

  /**
   * fixed_allocator::deallocate on the abstract state: the deallocation
   * cache becomes the result of the owner search, then do_deallocate.
   */
  function DeallocSpec(s: AllocState, p: nat, blockSize: nat, numBlocks: nat): AllocState
    requires CacheOk(s.alloc, |s.views|) && blockSize > 0
  {
    var f := FindSpec(s.views, s.dealloc, p, blockSize * numBlocks);
    DoDeallocSpec(AllocState(s.views, s.alloc, f), p, blockSize, numBlocks)
  }

  /**
   * The caller's side of deallocate: an address inside some chunk's
   * buffer is the start of a block of that chunk that is handed out.
   * Addresses outside every buffer are allowed.
   */
  ghost predicate HandedOut(vs: seq<ChunkView>, p: nat, blockSize: nat, numBlocks: nat)
    requires blockSize > 0
  {
    forall i :: 0 <= i < |vs| && Contains(vs[i], p, blockSize * numBlocks) ==>
      (p - vs[i].base) % blockSize == 0 && BlockOf(vs[i], p, blockSize) !in vs[i].free
  }

  lemma DivBound(x: nat, blockSize: nat, numBlocks: nat)
    requires blockSize > 0 && x < blockSize * numBlocks
    ensures x / blockSize < numBlocks
  {
  }

  lemma MulBound(blockSize: nat, b: nat, numBlocks: nat)
    requires b < numBlocks
    ensures blockSize * b + blockSize <= blockSize * numBlocks
  {
    assert blockSize * b + blockSize == blockSize * (b + 1);
    assert blockSize * (b + 1) <= blockSize * numBlocks;
  }

  /** allocate keeps the allocator's invariant. */
  lemma AllocSpecOk(s: AllocState, blockSize: nat, numBlocks: nat, sysBase: nat)
    requires StateOk(s, blockSize, numBlocks)
    requires sysBase > 0
    requires forall i :: 0 <= i < |s.views| ==> Apart(s.views[i], ChunkView(sysBase, []), blockSize * numBlocks)
    ensures StateOk(AllocSpec(s, blockSize, numBlocks, sysBase).0, blockSize, numBlocks)
  {
    var s1 := SelectSpec(s, numBlocks, sysBase);
    SelectOk(s, blockSize, numBlocks, sysBase);
    var t := s1.alloc.value;
    if |s1.views[t].free| > 0 {
      TakeOk(s1, t, blockSize, numBlocks);
    }
  }

  /** The first half of allocate keeps the allocator's invariant. */
  lemma SelectOk(s: AllocState, blockSize: nat, numBlocks: nat, sysBase: nat)
    requires StateOk(s, blockSize, numBlocks)
    requires sysBase > 0
    requires forall i :: 0 <= i < |s.views| ==> Apart(s.views[i], ChunkView(sysBase, []), blockSize * numBlocks)
    ensures StateOk(SelectSpec(s, numBlocks, sysBase), blockSize, numBlocks)
  {
    if AllocTarget(s.views, s.alloc).None? {
      PushOk(s, blockSize, numBlocks, sysBase);
    }
  }

  /** Appending a fresh chunk keeps the allocator's invariant. */
  lemma PushOk(s: AllocState, blockSize: nat, numBlocks: nat, sysBase: nat)
    requires StateOk(s, blockSize, numBlocks)
    requires sysBase > 0
    requires forall i :: 0 <= i < |s.views| ==> Apart(s.views[i], ChunkView(sysBase, []), blockSize * numBlocks)
    ensures StateOk(AllocState(s.views + [ChunkView(sysBase, Range(0, numBlocks))], Some(|s.views|), Some(0)),
                    blockSize, numBlocks)
  {
  }

  /** Taking the head block of one chunk keeps the allocator's invariant. */
  lemma TakeOk(s: AllocState, t: nat, blockSize: nat, numBlocks: nat)
    requires StateOk(s, blockSize, numBlocks)
    requires t < |s.views| && |s.views[t].free| > 0
    ensures StateOk(AllocState(s.views[t := TakeHead(s.views[t])], s.alloc, s.dealloc), blockSize, numBlocks)
  {
  }

  /** The block at address p of chunk v is handed out. */
  predicate HandedOutIn(v: ChunkView, p: nat, blockSize: nat, numBlocks: nat) {
    blockSize > 0 && Contains(v, p, blockSize * numBlocks) &&
    (p - v.base) % blockSize == 0 && BlockOf(v, p, blockSize) !in v.free
  }

  /** Returning a handed-out block keeps the allocator's invariant. */
  lemma GiveOk(s: AllocState, d: nat, p: nat, blockSize: nat, numBlocks: nat)
    requires StateOk(s, blockSize, numBlocks)
    requires d < |s.views| && HandedOutIn(s.views[d], p, blockSize, numBlocks)
    ensures var v := s.views[d];
      StateOk(AllocState(s.views[d := GiveBack(v, BlockOf(v, p, blockSize))], s.alloc, s.dealloc), blockSize, numBlocks)
  {
    var v := s.views[d];
    var b := BlockOf(v, p, blockSize);
    DivBound(p - v.base, blockSize, numBlocks);
    MissingBlock(v.free, numBlocks, b);
  }

  /** Exchanging two chunks keeps the buffers apart and the free lists in range. */
  lemma SwapOk(vs: seq<ChunkView>, i: nat, j: nat, blockSize: nat, numBlocks: nat)
    requires ViewsOk(vs, blockSize, numBlocks) && i < |vs| && j < |vs|
    ensures ViewsOk(Swap(vs, i, j), blockSize, numBlocks)
  {
    var r := Swap(vs, i, j);
    forall a, b | 0 <= a < b < |r|
      ensures Apart(r[a], r[b], blockSize * numBlocks)
    {
      var a' := if a == i then j else if a == j then i else a;
      var b' := if b == i then j else if b == j then i else b;
      assert r[a] == vs[a'] && r[b] == vs[b'] && a' != b';
    }
  }

  /** The compaction rule keeps the allocator's invariant. */
  lemma CompactOk(vs: seq<ChunkView>, d: nat, alloc: Option<nat>, blockSize: nat, numBlocks: nat)
    requires ViewsOk(vs, blockSize, numBlocks) && d < |vs| && CacheOk(alloc, |vs|)
    ensures StateOk(Compact(vs, d, alloc, numBlocks), blockSize, numBlocks)
  {
    if d != |vs| - 1 {
      SwapOk(vs, d, |vs| - 1, blockSize, numBlocks);
    }
  }

  // ---------------------------------------------------------------------
  // Properties of allocate and deallocate on the abstract state

  /**
   * allocate from an existing chunk: when some chunk has a free block,
   * nothing is appended, the cached chunk is kept while it has one
   * (otherwise the first chunk with one is used, as AllocTarget states),
   * the deallocation cache stays, and only that chunk changes: its head
   * block is unlinked and its address returned.
   */
  lemma AllocExisting(s: AllocState, blockSize: nat, numBlocks: nat, sysBase: nat)
    requires CacheOk(s.alloc, |s.views|)
    requires exists j :: 0 <= j < |s.views| && |s.views[j].free| > 0
    ensures var (s', r) := AllocSpec(s, blockSize, numBlocks, sysBase);
      var t := AllocTarget(s.views, s.alloc);
      t.Some? && s'.alloc == t && s'.dealloc == s.dealloc &&
      (s.alloc.Some? && |s.views[s.alloc.value].free| > 0 ==> t == s.alloc) &&
      s'.views == s.views[t.value := ChunkView(s.views[t.value].base, s.views[t.value].free[1..])] &&
      r == Some(s.views[t.value].base + blockSize * s.views[t.value].free[0])
  {
  }

  /**
   * allocate when no chunk has a free block: a chunk at sysBase is
   * appended with its first block handed out, the allocation cache points
   * at it and the deallocation cache at the front; with no blocks per
   * chunk the result is null.
   */
  lemma AllocAppend(s: AllocState, blockSize: nat, numBlocks: nat, sysBase: nat)
    requires CacheOk(s.alloc, |s.views|)
    requires forall j :: 0 <= j < |s.views| ==> |s.views[j].free| == 0
    ensures var (s', r) := AllocSpec(s, blockSize, numBlocks, sysBase);
      |s'.views| == |s.views| + 1 && s'.views[..|s.views|] == s.views &&
      s'.views[|s.views|] == ChunkView(sysBase, if numBlocks == 0 then [] else Range(1, numBlocks)) &&
      s'.alloc == Some(|s.views|) && s'.dealloc == Some(0) &&
      r == (if numBlocks == 0 then None else Some(sysBase))
  {
    var added := ChunkView(sysBase, Range(0, numBlocks));
    if numBlocks > 0 {
      assert added.free[1..] == Range(1, numBlocks);
    }
  }

  /**
   * The address allocate returns is a block deallocate accepts: it is the
   * start of a block of exactly one chunk, and that block is not free.
   */
  lemma AllocHandsOut(s: AllocState, blockSize: nat, numBlocks: nat, sysBase: nat)
    requires StateOk(s, blockSize, numBlocks) && blockSize > 0
    requires sysBase > 0
    requires forall i :: 0 <= i < |s.views| ==> Apart(s.views[i], ChunkView(sysBase, []), blockSize * numBlocks)
    ensures var (s', r) := AllocSpec(s, blockSize, numBlocks, sysBase);
      r.Some? ==> HandedOutIn(s'.views[s'.alloc.value], r.value, blockSize, numBlocks) &&
                  HandedOut(s'.views, r.value, blockSize, numBlocks)
  {
    var (s', r) := AllocSpec(s, blockSize, numBlocks, sysBase);
    var i := s'.alloc.value;
    AllocSpecOk(s, blockSize, numBlocks, sysBase);
    if r.Some? {
      var v := SelectSpec(s, numBlocks, sysBase).views[i];
      if exists j :: 0 <= j < |s.views| && |s.views[j].free| > 0 {
        AllocExisting(s, blockSize, numBlocks, sysBase);
      } else {
        AllocAppend(s, blockSize, numBlocks, sysBase);
      }
      assert v.free[0] !in v.free[1..];
      BlockAddress(s'.views[i], v.free[0], blockSize, numBlocks);
      ContainerUnique(s'.views, r.value, blockSize, numBlocks, i);
    }
  }

  /** Block b of a chunk, not on its free list, is handed out at its address. */
  lemma BlockAddress(v: ChunkView, b: nat, blockSize: nat, numBlocks: nat)
    requires blockSize > 0 && b < numBlocks && b !in v.free
    ensures HandedOutIn(v, v.base + blockSize * b, blockSize, numBlocks)
  {
    MulBound(blockSize, b, numBlocks);
    DivExact(blockSize, b);
  }

  lemma DivExact(blockSize: nat, b: nat)
    requires blockSize > 0
    ensures (blockSize * b) / blockSize == b && (blockSize * b) % blockSize == 0
  {
    var q, r := (blockSize * b) / blockSize, (blockSize * b) % blockSize;
    assert blockSize * b == q * blockSize + r;
    if b > q {
      MulLower(b - q, blockSize);
    } else if b < q {
      MulLower(q - b, blockSize);
    }
  }

  lemma MulLower(d: int, m: int)
    requires m > 0 && d >= 1
    ensures d * m >= m
  {
  }

  /** With buffers apart, a block handed out in one chunk is handed out in the vector. */
  lemma ContainerUnique(vs: seq<ChunkView>, p: nat, blockSize: nat, numBlocks: nat, i: nat)
    requires ViewsOk(vs, blockSize, numBlocks)
    requires i < |vs| && HandedOutIn(vs[i], p, blockSize, numBlocks)
    ensures HandedOut(vs, p, blockSize, numBlocks)
  {
    forall j | 0 <= j < |vs| && Contains(vs[j], p, blockSize * numBlocks)
      ensures j == i
    {
      OwnerUnique(vs, p, blockSize, numBlocks, i);
      OwnerUnique(vs, p, blockSize, numBlocks, j);
    }
  }

  /** deallocate keeps the allocator's invariant. */
  lemma DeallocSpecOk(s: AllocState, p: nat, blockSize: nat, numBlocks: nat)
    requires StateOk(s, blockSize, numBlocks) && blockSize > 0
    requires HandedOut(s.views, p, blockSize, numBlocks)
    ensures StateOk(DeallocSpec(s, p, blockSize, numBlocks), blockSize, numBlocks)
  {
    var f := FindSpec(s.views, s.dealloc, p, blockSize * numBlocks);
    if f.Some? {
      var d := f.value;
      var v := s.views[d];
      GiveOk(AllocState(s.views, s.alloc, f), d, p, blockSize, numBlocks);
      CompactOk(s.views[d := GiveBack(v, BlockOf(v, p, blockSize))], d, s.alloc, blockSize, numBlocks);
    }
  }

  /**
   * The block allocate just handed out from an existing chunk t lies in
   * chunk t, and giving it back there restores every free list, with both
   * caches on chunk t, unless chunk t then becomes wholly free.
   */
  lemma GiveBackHead(s: AllocState, blockSize: nat, numBlocks: nat, sysBase: nat)
    requires StateOk(s, blockSize, numBlocks) && blockSize > 0
    requires sysBase > 0
    requires forall i :: 0 <= i < |s.views| ==> Apart(s.views[i], ChunkView(sysBase, []), blockSize * numBlocks)
    requires var t := AllocTarget(s.views, s.alloc); t.Some? && |s.views[t.value].free| < numBlocks
    ensures var (s', r) := AllocSpec(s, blockSize, numBlocks, sysBase);
      var t := AllocTarget(s.views, s.alloc).value;
      r.Some? && s'.alloc == Some(t) && s'.dealloc == s.dealloc &&
      Owner(s'.views, r.value, blockSize * numBlocks) == Some(t) &&
      DoDeallocSpec(AllocState(s'.views, s'.alloc, Some(t)), r.value, blockSize, numBlocks) == AllocState(s.views, Some(t), Some(t))
  {
    var (s', r) := AllocSpec(s, blockSize, numBlocks, sysBase);
    var t := AllocTarget(s.views, s.alloc).value;
    AllocExisting(s, blockSize, numBlocks, sysBase);
    AllocHandsOut(s, blockSize, numBlocks, sysBase);
    AllocSpecOk(s, blockSize, numBlocks, sysBase);
    OwnerUnique(s'.views, r.value, blockSize, numBlocks, t);
    ReturnHead(s.views, t, r.value, blockSize, numBlocks);
  }

  /** Pushing the head block of chunk t back onto its free list undoes taking it. */
  lemma ReturnHead(vs: seq<ChunkView>, t: nat, p: nat, blockSize: nat, numBlocks: nat)
    requires t < |vs| && 0 < |vs[t].free| < numBlocks && blockSize > 0
    requires p == vs[t].base + blockSize * vs[t].free[0]
    ensures var vs' := vs[t := TakeHead(vs[t])];
      DoDeallocSpec(AllocState(vs', Some(t), Some(t)), p, blockSize, numBlocks) == AllocState(vs, Some(t), Some(t))
  {
    var w := vs[t];
    var v := TakeHead(w);
    DivExact(blockSize, w.free[0]);
    assert BlockOf(v, p, blockSize) == w.free[0];
    assert GiveBack(v, w.free[0]) == w;
    assert vs[t := v][t := w] == vs;
  }

  /**
   * Giving back the block allocate just handed out from an existing chunk
   * restores every free list, with both caches on that chunk, unless the
   * chunk then becomes wholly free and compaction runs.  As written this
   * needs the deallocation cache to be non-null.
   */
  lemma AllocDeallocRoundTrip(s: AllocState, blockSize: nat, numBlocks: nat, sysBase: nat)
    requires StateOk(s, blockSize, numBlocks) && blockSize > 0
    requires sysBase > 0
    requires forall i :: 0 <= i < |s.views| ==> Apart(s.views[i], ChunkView(sysBase, []), blockSize * numBlocks)
    requires s.dealloc.Some?
    requires var t := AllocTarget(s.views, s.alloc); t.Some? && |s.views[t.value].free| < numBlocks
    ensures var (s', r) := AllocSpec(s, blockSize, numBlocks, sysBase);
      var t := AllocTarget(s.views, s.alloc).value;
      r.Some? && DeallocSpec(s', r.value, blockSize, numBlocks) == AllocState(s.views, Some(t), Some(t))
  {
    GiveBackHead(s, blockSize, numBlocks, sysBase);
  }

  /**
   * As written, a null deallocation cache is never reset by deallocate:
   * every later deallocation does nothing until allocate appends a chunk.
   */
  lemma DeallocNullSticks(s: AllocState, p: nat, blockSize: nat, numBlocks: nat)
    requires CacheOk(s.alloc, |s.views|) && blockSize > 0 && s.dealloc.None?
    ensures DeallocSpec(s, p, blockSize, numBlocks) == s
  {
  }

  /**
   * As written, deallocating the null pointer (or any address outside
   * every chunk) nulls the deallocation cache, after which a handed-out
   * block given back is lost: the round trip of AllocDeallocRoundTrip fails.
   */
  lemma NullFreeLosesBlocks(s: AllocState, p: nat, blockSize: nat, numBlocks: nat)
    requires StateOk(s, blockSize, numBlocks) && blockSize > 0
    requires forall i :: 0 <= i < |s.views| ==> !Contains(s.views[i], p, blockSize * numBlocks)
    ensures var s1 := DeallocSpec(s, p, blockSize, numBlocks);
      s1 == AllocState(s.views, s.alloc, None) &&
      forall q :: DeallocSpec(s1, q, blockSize, numBlocks) == s1
  {
  }

  /** The null pointer lies in no chunk, since buffers have non-null bases. */
  lemma NullInNoChunk(s: AllocState, blockSize: nat, numBlocks: nat)
    requires StateOk(s, blockSize, numBlocks)
    ensures forall i :: 0 <= i < |s.views| ==> !Contains(s.views[i], 0, blockSize * numBlocks)
  {
  }

  /**
   * deallocate as evidently intended: the owner of p is searched for
   * whatever the cache holds, and an address in no chunk leaves the state
   * as it is.
   */
  function DeallocFixed(s: AllocState, p: nat, blockSize: nat, numBlocks: nat): AllocState
    requires CacheOk(s.alloc, |s.views|) && blockSize > 0
  {
    var f := Owner(s.views, p, blockSize * numBlocks);
    if f.None? then s
    else DoDeallocSpec(AllocState(s.views, s.alloc, f), p, blockSize, numBlocks)
  }

  /**
   * The written and the corrected deallocate differ only on the inputs of
   * the finding: with a non-null cache and an address inside some chunk
   * they agree.
   */
  lemma DeallocMatchesFixed(s: AllocState, p: nat, blockSize: nat, numBlocks: nat)
    requires StateOk(s, blockSize, numBlocks) && blockSize > 0
    requires s.dealloc.Some? && exists i :: 0 <= i < |s.views| && Contains(s.views[i], p, blockSize * numBlocks)
    ensures DeallocSpec(s, p, blockSize, numBlocks) == DeallocFixed(s, p, blockSize, numBlocks)
  {
  }

  /**
   * With the corrected deallocate, an address in no chunk changes nothing
   * and the allocate/deallocate round trip of AllocDeallocRoundTrip holds
   * whatever the deallocation cache is.
   */
  lemma DeallocFixedRoundTrip(s: AllocState, q: nat, blockSize: nat, numBlocks: nat, sysBase: nat)
    requires StateOk(s, blockSize, numBlocks) && blockSize > 0
    requires sysBase > 0
    requires forall i :: 0 <= i < |s.views| ==> Apart(s.views[i], ChunkView(sysBase, []), blockSize * numBlocks)
    requires var t := AllocTarget(s.views, s.alloc); t.Some? && |s.views[t.value].free| < numBlocks
    requires forall i :: 0 <= i < |s.views| ==> !Contains(s.views[i], q, blockSize * numBlocks)
    ensures DeallocFixed(s, q, blockSize, numBlocks) == s
    ensures var (s', r) := AllocSpec(s, blockSize, numBlocks, sysBase);
      var t := AllocTarget(s.views, s.alloc).value;
      r.Some? && DeallocFixed(s', r.value, blockSize, numBlocks) == AllocState(s.views, Some(t), Some(t))
  {
    GiveBackHead(s, blockSize, numBlocks, sysBase);
  }

  /**
   * std::swap on two chunks, through the move constructor and two move
   * assignments: the objects exchange their buffers and free lists, and
   * the temporary is left null.
   */
  method ExchangeChunks(a: Chunk, b: Chunk)
    requires a != b && a.Valid() && b.Valid()
    modifies a, b
    ensures a.links == old(b.links) && b.links == old(a.links)
    ensures a.Valid() && b.Valid() && a.View() == old(b.View()) && b.View() == old(a.View())
  {
    var tmp := new Chunk.Moved(a);
    a.MoveAssign(b);
    b.MoveAssign(tmp);
  }

  /**
   * The loop of deallocate_chunk_find over chunks cs with the views vs:
   * from position d, lo steps down to the front and hi up to the back, one
   * step each per round; the first chunk met whose buffer contains p is
   * returned, None once both are past the ends.
   */
  method SearchOutward(cs: seq<Chunk>, ghost vs: seq<ChunkView>, d: nat, p: nat, chunkLength: nat)
    returns (r: Option<nat>, ghost rounds: nat)
    requires |cs| == |vs| && d < |vs|
    requires forall j :: 0 <= j < |cs| ==> cs[j].base == vs[j].base
    ensures r.Some? ==> r.value < |vs| && Contains(vs[r.value], p, chunkLength)
    ensures r.None? ==> forall j :: 0 <= j < |vs| ==> !Contains(vs[j], p, chunkLength)
    ensures rounds <= |vs|
  {
    rounds := 0;
    var lo: Option<nat> := Some(d);
    var hi: Option<nat> := Some(d);
    while true
      invariant lo.Some? ==> lo.value + rounds == d
      invariant hi.Some? ==> hi.value == d + rounds && hi.value < |vs|
      invariant rounds <= |vs|
      invariant forall j :: 0 <= j <= d && (lo.None? || lo.value < j) ==> !Contains(vs[j], p, chunkLength)
      invariant forall j :: d <= j < |vs| && (hi.None? || j < hi.value) ==> !Contains(vs[j], p, chunkLength)
      decreases (if lo.Some? then lo.value + 1 else 0) + (if hi.Some? then |vs| - hi.value else 0)
    {
      if lo.None? && hi.None? {
        break;
      }
      if lo.Some? {
        var c := cs[lo.value];
        if c.base <= p < c.base + chunkLength {
          return lo, rounds;
        }
        lo := if lo.value == 0 then None else Some(lo.value - 1);
      }
      if hi.Some? {
        var c := cs[hi.value];
        if c.base <= p < c.base + chunkLength {
          return hi, rounds;
        }
        hi := if hi.value + 1 == |cs| then None else Some(hi.value + 1);
      }
      rounds := rounds + 1;
    }
    return None, rounds;
  }

  /**
   * Every chunk object and its buffer are in `repr`, no two positions
   * share them, and each chunk is valid, has numBlocks blocks and is
   * described by its view.
   */
  ghost predicate ChunksOk(cs: seq<Chunk>, vs: seq<ChunkView>, numBlocks: nat, repr: set<object>)
    reads repr
  {
    (forall i :: 0 <= i < |cs| ==> cs[i] in repr && cs[i].links in repr) &&
    (forall i, j :: 0 <= i < j < |cs| ==> cs[i] != cs[j] && cs[i].links != cs[j].links) &&
    |vs| == |cs| &&
    (forall i :: 0 <= i < |cs| ==>
       cs[i].Valid() && cs[i].links.Length == numBlocks && vs[i] == cs[i].View())
  }

  class FixedAllocator {
    /** chunks_ */
    var chunks: seq<Chunk>
    /** alloc_chunk_, as a position in chunks_ */
    var allocChunk: Option<nat>
    /** dealloc_chunk_, as a position in chunks_ */
    var deallocChunk: Option<nat>
    /** block_size_ */
    const blockSize: nat
    /** num_blocks_ */
    const numBlocks: nat

    /** The chunks as values, in vector order. */
    ghost var views: seq<ChunkView>
    ghost var Repr: set<object>

    ghost predicate Valid()
      reads this, Repr
    {
      this in Repr && blockSize > 0 && numBlocks <= 255 &&
      ChunksOk(chunks, views, numBlocks, Repr - {this}) && StateOk(State(), blockSize, numBlocks)
    }

    ghost function State(): AllocState
      reads this
    {
      AllocState(views, allocChunk, deallocChunk)
    }

    /** fixed_allocator(block_size, num_blocks): no chunks, both caches null. */
    constructor (blockSize: nat, numBlocks: nat)
      requires blockSize > 0 && numBlocks <= 255
      ensures Valid() && fresh(Repr)
      ensures this.blockSize == blockSize && this.numBlocks == numBlocks
      ensures chunks == [] && State() == AllocState([], None, None)
    {
      this.blockSize := blockSize;
      this.numBlocks := numBlocks;
      chunks := [];
      allocChunk := None;
      deallocChunk := None;
      views := [];
      Repr := {this};
    }

    /**
     * allocate: keep the allocation cache while its chunk has a free
     * block, else scan the vector from the front for one; append a chunk
     * taken from the system at `sysBase` when none has a free block (both
     * caches are then reset).  The block comes from the chosen chunk.
     */
    method Allocate(sysBase: nat) returns (r: Option<nat>)
      requires Valid()
      requires sysBase > 0
      requires forall i :: 0 <= i < |views| ==> Apart(views[i], ChunkView(sysBase, []), blockSize * numBlocks)
      modifies Repr
      ensures Valid() && fresh(Repr - old(Repr))
      ensures (State(), r) == AllocSpec(old(State()), blockSize, numBlocks, sysBase)
      ensures chunks == old(chunks) || (|chunks| == |old(chunks)| + 1 && chunks[..|old(chunks)|] == old(chunks))
    {
      Select(sysBase);
      r := TakeBlock();
    }

    /**
     * The first half of allocate: keep the allocation cache while its
     * chunk has a free block, else point it at the first chunk with one,
     * else append a chunk.
     */
    method Select(sysBase: nat)
      requires Valid()
      requires sysBase > 0
      requires forall i :: 0 <= i < |views| ==> Apart(views[i], ChunkView(sysBase, []), blockSize * numBlocks)
      modifies this
      ensures Valid() && fresh(Repr - old(Repr))
      ensures State() == SelectSpec(old(State()), numBlocks, sysBase)
      ensures chunks == old(chunks) || (|chunks| == |old(chunks)| + 1 && chunks[..|old(chunks)|] == old(chunks))
    {
      if allocChunk == None || chunks[allocChunk.value].avail == 0 {
        Rescan(sysBase);
      }
    }

    /**
     * The scan of allocate when the allocation cache is null or its chunk
     * is used up.
     */
    method Rescan(sysBase: nat)
      requires Valid() && (allocChunk.None? || |views[allocChunk.value].free| == 0)
      requires sysBase > 0
      requires forall i :: 0 <= i < |views| ==> Apart(views[i], ChunkView(sysBase, []), blockSize * numBlocks)
      modifies this
      ensures Valid() && fresh(Repr - old(Repr))
      ensures State() == SelectSpec(old(State()), numBlocks, sysBase)
      ensures chunks == old(chunks) || (|chunks| == |old(chunks)| + 1 && chunks[..|old(chunks)|] == old(chunks))
    {
      var i := FindFree();
      if i == |chunks| {
        PushChunk(sysBase);
      } else {
        SetAllocCache(i);
      }
    }

    /** Point the allocation cache at chunk i. */
    method SetAllocCache(i: nat)
      requires Valid() && i < |chunks|
      modifies this
      ensures Valid() && Repr == old(Repr) && chunks == old(chunks)
      ensures State() == AllocState(old(views), Some(i), old(deallocChunk))
    {
      ghost var target := AllocState(views, Some(i), deallocChunk);
      assert StateOk(target, blockSize, numBlocks);
      allocChunk := Some(i);
      assert State() == target;
    }

    /** The scan of allocate: the first chunk with a free block, or the end of the vector. */
    method FindFree() returns (i: nat)
      requires Valid()
      ensures i == (if FirstFit(views).Some? then FirstFit(views).value else |chunks|)
    {
      i := 0;
      while i < |chunks| && chunks[i].avail == 0
        invariant 0 <= i <= |chunks|
        invariant forall j :: 0 <= j < i ==> |views[j].free| == 0
      {
        i := i + 1;
      }
    }

    /**
     * The append step of allocate: a new chunk at `sysBase` goes to the
     * back, the allocation cache points at it and the deallocation cache
     * at the front.
     */
    method PushChunk(sysBase: nat)
      requires Valid()
      requires sysBase > 0
      requires forall i :: 0 <= i < |views| ==> Apart(views[i], ChunkView(sysBase, []), blockSize * numBlocks)
      modifies this
      ensures Valid() && fresh(Repr - old(Repr))
      ensures |chunks| == |old(chunks)| + 1 && chunks[..|old(chunks)|] == old(chunks)
      ensures State() == AllocState(old(views) + [ChunkView(sysBase, Range(0, numBlocks))], Some(|old(views)|), Some(0))
    {
      ghost var s0 := State();
      ghost var added := ChunkView(sysBase, Range(0, numBlocks));
      ghost var target := AllocState(views + [added], Some(|views|), Some(0));
      PushOk(s0, blockSize, numBlocks, sysBase);
      var c := new Chunk(blockSize, numBlocks, sysBase);
      assert c.View() == added;
      chunks := chunks + [c];
      views := views + [added];
      Repr := Repr + {c, c.links};
      allocChunk := Some(|chunks| - 1);
      deallocChunk := Some(0);
      assert State() == target;
    }

    /** The final step of allocate: take a block from the chunk the allocation cache points at. */
    method TakeBlock() returns (r: Option<nat>)
      requires Valid() && allocChunk.Some?
      modifies this, chunks[allocChunk.value]
      ensures Valid() && Repr == old(Repr) && chunks == old(chunks)
      ensures allocChunk == old(allocChunk) && deallocChunk == old(deallocChunk)
      ensures (State(), r) == TakeSpec(old(State()), blockSize)
    {
      var t := allocChunk.value;
      ghost var s0 := State();
      ghost var v := s0.views[t];
      ghost var target := TakeSpec(s0, blockSize).0;
      if chunks[t].avail == 0 {
        r := chunks[t].Allocate(blockSize);
        assert chunks[t].View() == v;
        assert State() == target;
      } else {
        TakeOk(s0, t, blockSize, numBlocks);
        ghost var nv := TakeHead(v);
        r := chunks[t].Allocate(blockSize);
        assert chunks[t].View() == nv;
        views := views[t := nv];
        assert State() == target;
      }
    }

    /**
     * deallocate_chunk_find: null when the deallocation cache is null;
     * otherwise search outwards from the cached chunk, one step down and
     * one step up per round, until a chunk whose buffer contains p is
     * found or both ends of the vector are passed, which takes at most
     * |chunks| rounds.
     */
    method DeallocateChunkFind(p: nat) returns (r: Option<nat>, ghost rounds: nat)
      requires Valid()
      ensures r == FindSpec(views, deallocChunk, p, blockSize * numBlocks)
      ensures rounds <= |chunks|
    {
      rounds := 0;
      var chunkLength := numBlocks * blockSize;
      if deallocChunk.None? {
        return None, rounds;
      }
      var d := deallocChunk.value;
      assert forall j :: 0 <= j < |chunks| ==> chunks[j].base == views[j].base;
      r, rounds := SearchOutward(chunks, views, d, p, chunkLength);
      if r.Some? {
        OwnerUnique(views, p, blockSize, numBlocks, r.value);
      }
    }

    /**
     * deallocate: point the deallocation cache at the chunk owning p (or
     * null), then do_deallocate.
     */
    method Deallocate(p: nat)
      requires Valid() && HandedOut(views, p, blockSize, numBlocks)
      modifies Repr
      ensures Valid() && Repr == old(Repr)
      ensures State() == DeallocSpec(old(State()), p, blockSize, numBlocks)
    {
      ghost var rounds;
      deallocChunk, rounds := DeallocateChunkFind(p);
      DoDeallocate(p);
    }

    /**
     * do_deallocate: nothing when the deallocation cache is null;
     * otherwise give p's block back to the cached chunk and compact.
     */
    method DoDeallocate(p: nat)
      requires Valid()
      requires deallocChunk.Some? ==> HandedOutIn(views[deallocChunk.value], p, blockSize, numBlocks)
      modifies Repr
      ensures Valid() && Repr == old(Repr)
      ensures State() == DoDeallocSpec(old(State()), p, blockSize, numBlocks)
    {
      if deallocChunk.None? {
        return;
      }
      var d := deallocChunk.value;
      GiveBlock(p);
      Compaction(d);
    }

    /** The first step of do_deallocate: chunk::deallocate on the cached chunk. */
    method GiveBlock(p: nat)
      requires Valid() && deallocChunk.Some?
      requires HandedOutIn(views[deallocChunk.value], p, blockSize, numBlocks)
      modifies this, chunks[deallocChunk.value], chunks[deallocChunk.value].links
      ensures Valid() && Repr == old(Repr) && chunks == old(chunks)
      ensures allocChunk == old(allocChunk) && deallocChunk == old(deallocChunk)
      ensures var d := deallocChunk.value; var v := old(views[d]);
        views == old(views)[d := GiveBack(v, BlockOf(v, p, blockSize))]
    {
      var d := deallocChunk.value;
      ghost var s0 := State();
      ghost var v := views[d];
      ghost var nv := GiveBack(v, BlockOf(v, p, blockSize));
      ghost var target := AllocState(views[d := nv], allocChunk, deallocChunk);
      GiveOk(s0, d, p, blockSize, numBlocks);
      DivBound(p - chunks[d].base, blockSize, numBlocks);
      chunks[d].Deallocate(p, blockSize);
      assert chunks[d].View() == nv;
      views := views[d := nv];
      assert State() == target;
    }

    /**
     * The compaction step of do_deallocate once chunk d has its block
     * back: drop a wholly free last chunk or move the wholly free chunk d
     * to the back, as Compact says.
     */
    method Compaction(d: nat)
      requires Valid() && deallocChunk == Some(d)
      modifies Repr
      ensures Valid() && Repr == old(Repr)
      ensures State() == Compact(old(views), d, old(allocChunk), numBlocks)
    {
      CompactOk(views, d, allocChunk, blockSize, numBlocks);
      var last := |chunks| - 1;
      if chunks[d].avail == numBlocks {
        if d == last {
          if |chunks| > 1 && chunks[d - 1].avail == numBlocks {
            PopLast(Some(0), Some(0));
          }
        } else if chunks[last].avail == numBlocks {
          PopLast(deallocChunk, deallocChunk);
        } else {
          SwapWithLast(d, Compact(views, d, allocChunk, numBlocks));
        }
      }
    }

    /**
     * Release the last chunk, pop it off the vector and set the caches to
     * `alloc` and `dealloc`.
     */
    method PopLast(alloc: Option<nat>, dealloc: Option<nat>)
      requires ChunksOk(chunks, views, numBlocks, Repr - {this}) && this in Repr && blockSize > 0 && numBlocks <= 255 && |chunks| > 0
      requires StateOk(AllocState(views[..|views| - 1], alloc, dealloc), blockSize, numBlocks)
      modifies this, chunks[|chunks| - 1]
      ensures Valid() && Repr == old(Repr)
      ensures chunks == old(chunks[..|chunks| - 1])
      ensures State() == AllocState(old(views[..|views| - 1]), alloc, dealloc)
    {
      var last := |chunks| - 1;
      chunks[last].Release();
      chunks := chunks[..last];
      views := views[..last];
      allocChunk := alloc;
      deallocChunk := dealloc;
    }

    /**
     * Exchange chunk d with the last chunk and point the allocation cache
     * at the last position.
     */
    method SwapWithLast(d: nat, ghost target: AllocState)
      requires ChunksOk(chunks, views, numBlocks, Repr - {this}) && this in Repr && blockSize > 0 && numBlocks <= 255
      requires d < |chunks| - 1
      requires target == AllocState(Swap(views, d, |views| - 1), Some(|views| - 1), deallocChunk)
      requires StateOk(target, blockSize, numBlocks)
      modifies this, chunks[d], chunks[|chunks| - 1]
      ensures Valid() && Repr == old(Repr) && chunks == old(chunks)
      ensures State() == target
    {
      var last := |chunks| - 1;
      ExchangeAt(d, last);
      allocChunk := Some(last);
      assert State() == target;
    }


    /** std::swap on the chunks at positions i and j. */
    method ExchangeAt(i: nat, j: nat)
      requires ChunksOk(chunks, views, numBlocks, Repr - {this})
      requires i < |chunks| && j < |chunks| && i != j
      modifies this, chunks[i], chunks[j]
      ensures ChunksOk(chunks, views, numBlocks, Repr - {this})
      ensures Repr == old(Repr) && chunks == old(chunks) && views == Swap(old(views), i, j)
      ensures allocChunk == old(allocChunk) && deallocChunk == old(deallocChunk)
    {
      var a, b := chunks[i], chunks[j];
      ExchangeChunks(a, b);
      views := Swap(views, i, j);
      forall k | 0 <= k < |chunks|
        ensures chunks[k].Valid() && chunks[k].links.Length == numBlocks && views[k] == chunks[k].View()
      {
        if k != i && k != j {
          assert chunks[k] != a && chunks[k] != b;
          assert chunks[k].links[..] == old(chunks[k].links[..]);
        }
      }
    }
  }
}
