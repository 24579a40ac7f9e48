/**
 * The segregated size-class pool allocator of zephyr: sixteen free lists
 * for the block sizes 8, 16, ..., 128, threaded through the first word of
 * each free block, refilled in batches carved from one slab
 * [heapStart, heapEnd) that grows by fresh system allocations.
 *
 * Addresses are natural numbers and 0 is the null pointer.  The first word
 * of a block at address a is mem[a].  The system `::operator new` is a
 * parameter: the caller passes the base of a fresh range, at or above the
 * ghost high-water mark `top` below which every address the pool has ever
 * been given lies.
 */
module PoolAllocator {

  import opened Options

  /** Z_align */
  const Align: nat := 8
  /** Z_max_bytes */
  const MaxBytes: nat := 128
  /** Z_free_list_size */
  const ListCount: nat := 16
  /** Z_align_size_list */
  const AlignSizeList: seq<nat> := [8, 16, 24, 32, 40, 48, 56, 64, 72, 80, 88, 96, 104, 112, 120, 128]
  /** SIZE_MAX for a 64-bit size_t */
  const SizeMax: nat := 0xFFFF_FFFF_FFFF_FFFF

  lemma AlignSizeListEntries()
    ensures |AlignSizeList| == ListCount
    ensures forall k :: 0 <= k < ListCount ==> AlignSizeList[k] == Align * (k + 1)
  {
  }

  // ---------------------------------------------------------------------
  // Size classes

  /**
   * The size class of a request of n bytes: the least entry of the size
   * list that is at least n, or 0 when no entry is.
   */
  function ClassSize(n: nat): (s: nat)
    ensures n <= MaxBytes ==> s in AlignSizeList && n <= s
    ensures n <= MaxBytes ==> forall k :: 0 <= k < ListCount && n <= AlignSizeList[k] ==> s <= AlignSizeList[k]
    ensures n > MaxBytes ==> s == 0
  {
    AlignSizeListEntries();
    if n > MaxBytes then 0
    else if n <= Align then Align
    else Align * ((n + Align - 1) / Align)
  }

  /** Above 8 bytes the class is n rounded up to a multiple of 8. */
  lemma ClassSizeRoundsUp(n: nat)
    requires Align < n <= MaxBytes
    ensures ClassSize(n) % Align == 0 && ClassSize(n) - Align < n <= ClassSize(n)
  {
  }

  /** The sizes of the size list: multiples of 8 from 8 to 128. */
  predicate IsClass(n: nat) {
    Align <= n <= MaxBytes && n % Align == 0
  }

  lemma ClassSizeIsClass(n: nat)
    requires n <= MaxBytes
    ensures IsClass(ClassSize(n))
  {
  }

  /** A multiple of 8 up to 128 is its own class. */
  lemma ClassSizeOfMultiple(n: nat)
    requires Align <= n <= MaxBytes && n % Align == 0
    ensures ClassSize(n) == n
  {
  }

  /** The list of a size class: the position of ClassSize(n) in the size list. */
  function ClassIndex(n: nat): (k: nat)
    requires n <= MaxBytes
    ensures k < ListCount && AlignSizeList[k] == ClassSize(n) && ClassSize(n) == Align * (k + 1)
  {
    AlignSizeListEntries();
    ClassSize(n) / Align - 1
  }

  /**
   * Z_round_up with the search bound `r` taken as a signed index, so that
   * `r = mid - 1` at mid == 0 ends the search: the least entry of the size
   * list that is at least n, or 0 above 128 bytes.
   */
  method RoundUp(n: nat) returns (res: nat)
    ensures res == ClassSize(n)
  {
    AlignSizeListEntries();
    var l: int, r: int := 0, 15;
    res := 0;
    while l <= r
      invariant 0 <= l <= r + 1 <= ListCount
      invariant forall k :: 0 <= k < l ==> AlignSizeList[k] < n
      invariant forall k :: r < k < ListCount ==> n <= AlignSizeList[k]
      invariant res == if r + 1 < ListCount then AlignSizeList[r + 1] else 0
      decreases r - l
    {
      var mid := (l + r) / 2;
      if AlignSizeList[mid] >= n {
        res := AlignSizeList[mid];
        r := mid - 1;
      } else {
        l := mid + 1;
      }
    }
    if l < ListCount {
      assert AlignSizeList[l] == ClassSize(n);
    }
  }

  /**
   * Z_round_up as written, with r an unsigned size_t.  For n <= 8 every
   * probe succeeds, mid reaches 0, `r = mid - 1` wraps to SIZE_MAX and the
   * next probe reads Z_align_size_list[2^63 - 1], far outside the array:
   * that read is the None result.  Above 8 bytes it agrees with RoundUp.
   */
  method RoundUpAsWritten(n: nat) returns (res: Option<nat>)
    ensures n <= Align ==> res == None
    ensures n > Align ==> res == Some(ClassSize(n))
  {
    AlignSizeListEntries();
    var l: nat, r: nat := 0, 15;
    var found: nat := 0;
    while l <= r
      invariant (l <= r + 1 <= ListCount) || (l == 0 && r == SizeMax)
      invariant n <= Align ==> l == 0
      invariant r == SizeMax ==> n <= Align
      invariant r < ListCount ==> forall k :: 0 <= k < l ==> AlignSizeList[k] < n
      invariant r < ListCount ==> forall k :: r < k < ListCount ==> n <= AlignSizeList[k]
      invariant r < ListCount ==> found == if r + 1 < ListCount then AlignSizeList[r + 1] else 0
      decreases if r == SizeMax then 0 else r - l + 2
    {
      var mid := (l + r) / 2;
      if mid >= ListCount {
        return None;
      }
      if AlignSizeList[mid] >= n {
        found := AlignSizeList[mid];
        r := if mid == 0 then SizeMax else mid - 1;
      } else {
        l := mid + 1;
      }
    }
    if l < ListCount {
      assert AlignSizeList[l] == ClassSize(n);
    }
    return Some(found);
  }

  /** The input that shows the wrap-around: a request of one byte. */
  method RoundUpOneByte() returns (res: Option<nat>)
    ensures res == None && ClassSize(1) == 8
  {
    res := RoundUpAsWritten(1);
  }

  /**
   * Z_freelist_index: the list serving requests of n bytes.  It rounds
   * with the corrected RoundUp, so n <= 8 gets list 0 where the source's
   * Z_round_up reads out of bounds.
   */
  method FreelistIndex(n: nat) returns (k: nat)
    requires n <= MaxBytes
    ensures k == ClassIndex(n)
  {
    var size := RoundUp(n);
    k := size / Align - 1;
  }


  // ---------------------------------------------------------------------
  // The pool's state as values

  /** The concrete state: the sixteen list heads, the first words of memory, the slab and Z_heap_size. */
  datatype PoolState = PoolState(heads: seq<nat>, mem: map<nat, nat>, heapStart: nat, heapEnd: nat, heapSize: nat)

  /**
   * The ghost picture: the address sequence of each free list, every block
   * the pool has carved (address to size) and the high-water mark of all
   * memory obtained from the system.
   */
  datatype Shape = Shape(lists: seq<seq<nat>>, blocks: map<nat, nat>, top: nat)

  /** Following first words from head visits exactly l and then reaches null. */
  ghost predicate IsList(mem: map<nat, nat>, head: nat, l: seq<nat>)
    decreases |l|
  {
    if |l| == 0 then head == 0
    else head == l[0] && head != 0 && head in mem && IsList(mem, mem[head], l[1..])
  }

  predicate Distinct(l: seq<nat>) {
    forall i, j :: 0 <= i < j < |l| ==> l[i] != l[j]
  }

  /** Every free list is a null-terminated chain of distinct blocks of its class. */
  ghost predicate ListsOk(s: PoolState, sh: Shape) {
    |s.heads| == ListCount && |sh.lists| == ListCount &&
    forall k :: 0 <= k < ListCount ==>
      IsList(s.mem, s.heads[k], sh.lists[k]) && Distinct(sh.lists[k]) &&
      forall a :: a in sh.lists[k] ==> a in sh.blocks && sh.blocks[a] == Align * (k + 1)
  }

  /**
   * The slab [hs, he) lies below top and holds a multiple of 8 bytes; the
   * carved blocks are non-null, below top, pairwise disjoint and outside the slab.
   */
  ghost predicate BlocksOk(b: map<nat, nat>, hs: nat, he: nat, top: nat) {
    hs <= he <= top && (he - hs) % Align == 0 && (hs == he || 0 < hs) &&
    (forall a :: a in b ==> 0 < a && 0 < b[a] && a + b[a] <= top && (a + b[a] <= hs || he <= a)) &&
    (forall a, c :: a in b && c in b && a != c ==> a + b[a] <= c || c + b[c] <= a)
  }

  ghost predicate PoolOk(s: PoolState, sh: Shape) {
    ListsOk(s, sh) && BlocksOk(sh.blocks, s.heapStart, s.heapEnd, sh.top)
  }

  /** A carved block that is on no free list: it is in the user's hands. */
  ghost predicate Live(sh: Shape, p: nat) {
    p in sh.blocks && forall k :: 0 <= k < |sh.lists| ==> p !in sh.lists[k]
  }

  /** No carved block overlaps [c, c + len). */
  ghost predicate Fresh(b: map<nat, nat>, c: nat, len: nat) {
    forall a :: a in b ==> a + b[a] <= c || c + len <= a
  }

  /** What the operations need of a state to be defined: every non-null head can be dereferenced. */
  predicate Readable(s: PoolState) {
    |s.heads| == ListCount && s.heapStart <= s.heapEnd &&
    forall k :: 0 <= k < ListCount && s.heads[k] != 0 ==> s.heads[k] in s.mem
  }

  lemma {:induction false} IsListFrame(mem: map<nat, nat>, mem': map<nat, nat>, head: nat, l: seq<nat>)
    requires IsList(mem, head, l)
    requires forall a :: a in l && a in mem ==> a in mem' && mem'[a] == mem[a]
    ensures IsList(mem', head, l)
    decreases |l|
  {
    if |l| > 0 {
      assert forall a :: a in l[1..] ==> a in l;
      IsListFrame(mem, mem', mem[head], l[1..]);
    }
  }

  lemma PoolOkReadable(s: PoolState, sh: Shape)
    requires PoolOk(s, sh)
    ensures Readable(s)
  {
    forall k | 0 <= k < ListCount && s.heads[k] != 0
      ensures s.heads[k] in s.mem
    {
      assert IsList(s.mem, s.heads[k], sh.lists[k]);
    }
  }

  // ---------------------------------------------------------------------
  // The operations as functions of the state

  /** Popping the head of list k (allocate's fast path). */
  function PopSpec(s: PoolState, k: nat): PoolState
    requires Readable(s) && k < ListCount && s.heads[k] != 0
  {
    s.(heads := s.heads[k := s.mem[s.heads[k]]])
  }

  function PopShape(sh: Shape, k: nat): Shape
    requires k < |sh.lists| && |sh.lists[k]| > 0
  {
    sh.(lists := sh.lists[k := sh.lists[k][1..]])
  }

  /** Pushing block p on list k: its first word takes the old head. */
  function PushSpec(s: PoolState, k: nat, p: nat): PoolState
    requires k < |s.heads|
  {
    s.(heads := s.heads[k := p], mem := s.mem[p := s.heads[k]])
  }

  function PushShape(sh: Shape, k: nat, p: nat): Shape
    requires k < |sh.lists|
  {
    sh.(lists := sh.lists[k := [p] + sh.lists[k]])
  }

  /** need_size: the bytes of nblock blocks of size bytes. */
  function Need(size: nat, nblock: nat): nat {
    size * nblock
  }

  /**
   * Z_chunk_alloc(size, nblock): the state after, the start of the carved
   * run and the number of blocks in it.  When the slab holds fewer than
   * `size` bytes its remainder (if any) is pushed on its own list, a new
   * slab of 4 * size * nblock bytes at sysBase replaces it, and the call
   * is retried.
   */
  function ChunkSpec(s: PoolState, size: nat, nblock: nat, sysBase: nat): (r: (PoolState, nat, nat))
    requires Readable(s) && 0 < size <= MaxBytes && 0 < nblock
    ensures Readable(r.0) && 0 < r.2 <= nblock
    decreases if s.heapEnd - s.heapStart >= size then 0 else 1
  {
    var need := Need(size, nblock);
    var heap := s.heapEnd - s.heapStart;
    if heap >= need then
      var t := CarveSpec(s, need);
      (t.0, t.1, nblock)
    else if heap >= size then
      var n := heap / size;
      var t := CarveSpec(s, Need(size, n));
      (t.0, t.1, n)
    else
      var require := need * 2 * 2;
      assert need >= size by { MulAtLeast(size, nblock); }
      ChunkSpec(Regrow(Scrap(s), sysBase, require), size, nblock, sysBase)
  }

  /** Taking len bytes off the front of the slab: the new state and where the bytes start. */
  function CarveSpec(s: PoolState, len: nat): (PoolState, nat) {
    (s.(heapStart := s.heapStart + len), s.heapStart)
  }

  /** The ghost picture after Z_chunk_alloc. */
  ghost function ChunkShape(sh: Shape, s: PoolState, size: nat, nblock: nat, sysBase: nat): Shape
    requires |sh.lists| == ListCount && s.heapStart <= s.heapEnd && size <= MaxBytes
  {
    var heap := s.heapEnd - s.heapStart;
    if heap >= size then sh
    else
      ScrapShape(sh, s).(top := sysBase + Need(size, nblock) * 2 * 2)
  }

  /** A non-empty slab remainder goes onto the list of its own size (Z_chunk_alloc's third branch). */
  function Scrap(s: PoolState): PoolState
    requires |s.heads| == ListCount && s.heapStart <= s.heapEnd && s.heapEnd - s.heapStart <= MaxBytes
  {
    var heap := s.heapEnd - s.heapStart;
    if heap > 0 then PushSpec(s, ClassIndex(heap), s.heapStart) else s
  }

  ghost function ScrapShape(sh: Shape, s: PoolState): Shape
    requires |sh.lists| == ListCount && s.heapStart <= s.heapEnd && s.heapEnd - s.heapStart <= MaxBytes
  {
    var heap := s.heapEnd - s.heapStart;
    if heap > 0 then PushShape(sh.(blocks := sh.blocks[s.heapStart := heap]), ClassIndex(heap), s.heapStart) else sh
  }

  /** The slab becomes the fresh system range [base, base + len) and Z_heap_size grows by len. */
  function Regrow(s: PoolState, base: nat, len: nat): PoolState {
    s.(heapStart := base, heapEnd := base + len, heapSize := s.heapSize + len)
  }

  lemma MulAtLeast(a: nat, b: nat)
    requires 0 < b
    ensures a <= a * b
  {
  }

  /** Z_refill asks Z_chunk_alloc for this many blocks. */
  const RefillCount: nat := 10

  /** count consecutive blocks of n bytes from address c. */
  function Run(c: nat, n: nat, count: nat): (r: seq<nat>)
    ensures |r| == count
    decreases count
  {
    if count == 0 then [] else [c] + Run(c + n, n, count - 1)
  }

  /** The first word Z_refill writes into the j-th block of r: the next one, or null for the last. */
  function Link(r: seq<nat>, j: nat): nat {
    if j + 1 < |r| then r[j + 1] else 0
  }

  /** Memory after Z_refill has written the first k links of r. */
  function Thread(mem: map<nat, nat>, r: seq<nat>, k: nat): map<nat, nat>
    requires k <= |r|
  {
    if k == 0 then mem else Thread(mem, r, k - 1)[r[k - 1] := Link(r, k - 1)]
  }

  /** count blocks of n bytes from c, entered into the ghost record of carved blocks. */
  ghost function AddBlocks(b: map<nat, nat>, c: nat, n: nat, count: nat): map<nat, nat>
    decreases count
  {
    if count == 0 then b else AddBlocks(b[c := n], c + n, n, count - 1)
  }

  /**
   * Z_refill(n): carve up to ten blocks of class n; hand out the first and,
   * when there are more, make the rest the whole of list n in address order.
   */
  function RefillSpec(s: PoolState, n: nat, sysBase: nat): (PoolState, nat)
    requires Readable(s) && IsClass(n)
  {
    var t := ChunkSpec(s, n, RefillCount, sysBase);
    Threaded(t.0, t.1, t.2, n)
  }

  /** Z_refill after Z_chunk_alloc returned nb blocks at c: the first is the result, the rest become list n. */
  function Threaded(s: PoolState, c: nat, nb: nat, n: nat): (PoolState, nat)
    requires |s.heads| == ListCount && IsClass(n)
  {
    if nb <= 1 then (s, c)
    else
      var r := Run(c + n, n, nb - 1);
      (s.(heads := s.heads[ClassIndex(n) := c + n], mem := Thread(s.mem, r, |r|)), c)
  }

  ghost function RefillShape(sh: Shape, s: PoolState, n: nat, sysBase: nat): Shape
    requires |sh.lists| == ListCount && Readable(s) && IsClass(n)
  {
    var t := ChunkSpec(s, n, RefillCount, sysBase);
    ThreadedShape(ChunkShape(sh, s, n, RefillCount, sysBase), t.1, t.2, n)
  }

  ghost function ThreadedShape(sh: Shape, c: nat, nb: nat, n: nat): Shape
    requires |sh.lists| == ListCount && IsClass(n)
  {
    var sh1 := sh.(blocks := AddBlocks(sh.blocks, c, n, nb));
    if nb <= 1 then sh1 else sh1.(lists := sh1.lists[ClassIndex(n) := Run(c + n, n, nb - 1)])
  }

  /**
   * allocate(n): above 128 bytes a block of 128 bytes straight from the
   * system at sysBase; otherwise the head of the class list, or a refill
   * when that list is empty.
   */
  function AllocSpec(s: PoolState, n: nat, sysBase: nat): (PoolState, nat)
    requires Readable(s)
  {
    if n > MaxBytes then (s, sysBase)
    else
      var k := ClassIndex(n);
      ClassSizeIsClass(n);
      if s.heads[k] == 0 then RefillSpec(s, ClassSize(n), sysBase)
      else (PopSpec(s, k), s.heads[k])
  }

  ghost function AllocShape(sh: Shape, s: PoolState, n: nat, sysBase: nat): Shape
    requires PoolOk(s, sh)
  {
    PoolOkReadable(s, sh);
    if n > MaxBytes then sh.(top := sysBase + MaxBytes)
    else
      var k := ClassIndex(n);
      ClassSizeIsClass(n);
      if s.heads[k] == 0 then RefillShape(sh, s, ClassSize(n), sysBase)
      else
        assert IsList(s.mem, s.heads[k], sh.lists[k]);
        PopShape(sh, k)
  }

  /** deallocate(p, n): above 128 bytes the block goes back to the system; otherwise onto its class list. */
  function DeallocSpec(s: PoolState, p: nat, n: nat): PoolState
    requires |s.heads| == ListCount
  {
    if n > MaxBytes then s else PushSpec(s, ClassIndex(n), p)
  }

  ghost function DeallocShape(sh: Shape, p: nat, n: nat): Shape
    requires |sh.lists| == ListCount
  {
    if n > MaxBytes then sh else PushShape(sh, ClassIndex(n), p)
  }

  // ---------------------------------------------------------------------
  // Each step keeps the pool well formed

  /** Popping a list hands out its first block, which is then live and of the list's class. */
  lemma PopOk(s: PoolState, sh: Shape, k: nat)
    requires PoolOk(s, sh) && k < ListCount && s.heads[k] != 0
    ensures Readable(s) && |sh.lists[k]| > 0 && sh.lists[k][0] == s.heads[k]
    ensures PoolOk(PopSpec(s, k), PopShape(sh, k))
    ensures Live(PopShape(sh, k), s.heads[k]) && sh.blocks[s.heads[k]] == Align * (k + 1)
  {
    PoolOkReadable(s, sh);
    var l := sh.lists[k];
    assert IsList(s.mem, s.heads[k], l);
    var sh' := PopShape(sh, k);
    forall j | 0 <= j < ListCount
      ensures s.heads[k] !in sh'.lists[j]
    {
      if j == k {
        assert forall i :: 0 <= i < |l[1..]| ==> l[1..][i] == l[i + 1];
      }
    }
    assert forall a :: a in l[1..] ==> a in l;
  }

  /** Pushing a live block of class k keeps every list a chain of distinct blocks of its class. */
  lemma PushOk(s: PoolState, sh: Shape, k: nat, p: nat)
    requires PoolOk(s, sh) && k < ListCount && Live(sh, p) && sh.blocks[p] == Align * (k + 1)
    ensures PoolOk(PushSpec(s, k, p), PushShape(sh, k, p))
    ensures !Live(PushShape(sh, k, p), p)
  {
    var s' := PushSpec(s, k, p);
    var sh' := PushShape(sh, k, p);
    forall j | 0 <= j < ListCount
      ensures IsList(s'.mem, s'.heads[j], sh'.lists[j]) && Distinct(sh'.lists[j])
    {
      assert IsList(s.mem, s.heads[j], sh.lists[j]);
      IsListFrame(s.mem, s'.mem, s.heads[j], sh.lists[j]);
      if j == k {
        assert p !in sh.lists[k];
        assert ([p] + sh.lists[k])[1..] == sh.lists[k];
      }
    }
    assert p in sh'.lists[k];
  }

  lemma AlignMultiple(size: nat, m: nat)
    requires size % Align == 0
    ensures (m * size) % Align == 0 && (size * m) % Align == 0
  {
    var q := size / Align;
    assert size == Align * q;
    assert m * size == Align * (m * q);
  }

  /** heap / size whole blocks fit in heap bytes; at least one when heap >= size, fewer than nblock when heap < size * nblock. */
  lemma WholeBlocks(heap: nat, size: nat, nblock: nat)
    requires 0 < size <= heap < size * nblock
    ensures 1 <= heap / size < nblock && heap / size * size <= heap
  {
    var q := heap / size;
    assert heap == q * size + heap % size;
    if q >= nblock {
      assert q * size >= nblock * size by { MulMonotone(nblock, q, size); }
    }
  }

  lemma MulMonotone(a: nat, b: nat, m: nat)
    requires a <= b
    ensures a * m <= b * m
  {
  }

  /** Taking len bytes off the front of the slab leaves the pool well formed and the taken bytes unowned. */
  lemma CarveOk(s: PoolState, sh: Shape, len: nat)
    requires PoolOk(s, sh) && s.heapStart + len <= s.heapEnd && len % Align == 0
    ensures PoolOk(s.(heapStart := s.heapStart + len), sh)
    ensures Fresh(sh.blocks, s.heapStart, len) && (0 < len ==> 0 < s.heapStart)
  {
  }

  /** The rest of the slab, taken as one block, is outside every carved block. */
  lemma RetireOk(b: map<nat, nat>, hs: nat, he: nat, top: nat)
    requires BlocksOk(b, hs, he, top) && hs < he
    ensures hs !in b && BlocksOk(b[hs := he - hs], he, he, top)
  {
  }

  /** A fresh system range at or above top becomes the slab. */
  lemma NewSlabOk(b: map<nat, nat>, hs: nat, he: nat, top: nat, base: nat, len: nat)
    requires BlocksOk(b, hs, he, top) && 0 < base && top <= base && len % Align == 0
    ensures BlocksOk(b, base, base + len, base + len)
  {
  }


  /** The slab remainder, pushed on its own list, is a live-then-free block of its class. */
  lemma ScrapOk(s: PoolState, sh: Shape)
    requires PoolOk(s, sh) && s.heapEnd - s.heapStart < MaxBytes
    ensures PoolOk(Scrap(s).(heapStart := s.heapEnd), ScrapShape(sh, s))
  {
    var heap := s.heapEnd - s.heapStart;
    if heap > 0 {
      var k := ClassIndex(heap);
      ClassSizeOfMultiple(heap);
      RetireOk(sh.blocks, s.heapStart, s.heapEnd, sh.top);
      var shb := sh.(blocks := sh.blocks[s.heapStart := heap]);
      var sb := s.(heapStart := s.heapEnd);
      assert PoolOk(sb, shb);
      PushOk(sb, shb, k, s.heapStart);
    }
  }

  /** A fresh system range at or above top becomes the slab. */
  lemma RegrowOk(s: PoolState, sh: Shape, base: nat, len: nat)
    requires PoolOk(s, sh) && 0 < base && sh.top <= base && len % Align == 0
    ensures PoolOk(Regrow(s, base, len), sh.(top := base + len))
  {
    NewSlabOk(sh.blocks, s.heapStart, s.heapEnd, sh.top, base, len);
  }

  /** The third branch of Z_chunk_alloc up to its retry. */
  lemma GrowOk(s: PoolState, sh: Shape, size: nat, nblock: nat, sysBase: nat)
    requires PoolOk(s, sh) && IsClass(size) && 0 < nblock
    requires s.heapEnd - s.heapStart < size && 0 < sysBase && sh.top <= sysBase
    ensures PoolOk(Regrow(Scrap(s), sysBase, Need(size, nblock) * 2 * 2), ChunkShape(sh, s, size, nblock, sysBase))
  {
    var need := Need(size, nblock);
    var require := need * 2 * 2;
    RequireAligned(size, nblock);
    ScrapOk(s, sh);
    ScrapKeepsTop(sh, s);
    RegrowOk(Scrap(s).(heapStart := s.heapEnd), ScrapShape(sh, s), sysBase, require);
    assert Regrow(Scrap(s).(heapStart := s.heapEnd), sysBase, require) == Regrow(Scrap(s), sysBase, require);
    assert ChunkShape(sh, s, size, nblock, sysBase) == ScrapShape(sh, s).(top := sysBase + require);
  }

  lemma RequireAligned(size: nat, nblock: nat)
    requires size % Align == 0
    ensures (Need(size, nblock) * 2 * 2) % Align == 0
  {
    AlignMultiple(size, nblock);
  }

  lemma ScrapKeepsTop(sh: Shape, s: PoolState)
    requires |sh.lists| == ListCount && s.heapStart <= s.heapEnd && s.heapEnd - s.heapStart <= MaxBytes
    ensures ScrapShape(sh, s).top == sh.top
  {
  }

  /** A remainder smaller than the requested class goes on a lower list. */
  lemma ScrapIndexBelow(heap: nat, size: nat)
    requires 0 < heap < size && heap % Align == 0 && IsClass(size)
    ensures ClassIndex(heap) < ClassIndex(size)
  {
    ClassSizeOfMultiple(heap);
    ClassSizeOfMultiple(size);
  }

  lemma NeedAligned(size: nat, nblock: nat)
    requires size % Align == 0
    ensures Need(size, nblock) % Align == 0
  {
    AlignMultiple(size, nblock);
  }

  /** The retry after growing finds a slab of four times what it needs. */
  lemma RegrowFits(size: nat, nblock: nat)
    requires 0 < size && 0 < nblock
    ensures size <= Need(size, nblock) <= Need(size, nblock) * 2 * 2
  {
    MulAtLeast(size, nblock);
  }

  /** In the shrunk branch the whole blocks that fit are at least one and fewer than asked for. */
  lemma ShrunkFits(heap: nat, size: nat, nblock: nat)
    requires 0 < size <= heap < Need(size, nblock)
    ensures 1 <= heap / size < nblock && Need(size, heap / size) <= heap
  {
    WholeBlocks(heap, size, nblock);
  }

  /**
   * What Z_chunk_alloc leaves: a well-formed pool, and a run of nb * size
   * bytes at c that no carved block overlaps, right below the new slab
   * start, with the list of the requested class as it was.
   */
  ghost predicate ChunkResultOk(sh: Shape, size: nat, t: (PoolState, nat, nat), sh': Shape)
    requires IsClass(size)
  {
    PoolOk(t.0, sh') && 0 < t.1 && t.1 + Need(size, t.2) == t.0.heapStart && Fresh(sh'.blocks, t.1, Need(size, t.2)) &&
    |sh.lists| == ListCount && sh'.lists[ClassIndex(size)] == sh.lists[ClassIndex(size)]
  }

  lemma ChunkCarveOk(s: PoolState, sh: Shape, size: nat, len: nat, nb: nat)
    requires PoolOk(s, sh) && IsClass(size) && len == Need(size, nb) && 0 < len <= s.heapEnd - s.heapStart
    ensures var t := CarveSpec(s, len); ChunkResultOk(sh, size, (t.0, t.1, nb), sh)
  {
    AlignMultiple(size, nb);
    CarveOk(s, sh, len);
  }

  lemma ChunkGrowOk(s: PoolState, sh: Shape, size: nat, nblock: nat, sysBase: nat)
    requires PoolOk(s, sh) && IsClass(size) && 0 < nblock
    requires s.heapEnd - s.heapStart < size && 0 < sysBase && sh.top <= sysBase
    ensures var s2 := Regrow(Scrap(s), sysBase, Need(size, nblock) * 2 * 2);
      var t := CarveSpec(s2, Need(size, nblock));
      ChunkResultOk(sh, size, (t.0, t.1, nblock), ChunkShape(sh, s, size, nblock, sysBase))
  {
    var need := Need(size, nblock);
    GrowOk(s, sh, size, nblock, sysBase);
    RegrowFits(size, nblock);
    var s2 := Regrow(Scrap(s), sysBase, need * 2 * 2);
    var sh2 := ChunkShape(sh, s, size, nblock, sysBase);
    ChunkCarveOk(s2, sh2, size, need, nblock);
    ScrapListKept(sh, s, size);
    assert sh2.lists == ScrapShape(sh, s).lists;
  }

  /** The scrap goes onto a smaller class than the one being refilled. */
  lemma ScrapListKept(sh: Shape, s: PoolState, size: nat)
    requires PoolOk(s, sh) && IsClass(size) && s.heapEnd - s.heapStart < size
    ensures ScrapShape(sh, s).lists[ClassIndex(size)] == sh.lists[ClassIndex(size)]
  {
    var heap := s.heapEnd - s.heapStart;
    if heap > 0 {
      ScrapIndexBelow(heap, size);
    }
  }

  /** Z_chunk_alloc keeps the pool well formed and returns an unowned run of blocks right below the slab. */
  lemma ChunkOk(s: PoolState, sh: Shape, size: nat, nblock: nat, sysBase: nat)
    requires PoolOk(s, sh) && IsClass(size) && 0 < nblock
    requires s.heapEnd - s.heapStart < size ==> 0 < sysBase && sh.top <= sysBase
    ensures Readable(s)
    ensures ChunkResultOk(sh, size, ChunkSpec(s, size, nblock, sysBase), ChunkShape(sh, s, size, nblock, sysBase))
  {
    PoolOkReadable(s, sh);
    var heap := s.heapEnd - s.heapStart;
    var need := Need(size, nblock);
    RegrowFits(size, nblock);
    if heap >= need {
      ChunkCarveOk(s, sh, size, need, nblock);
    } else if heap >= size {
      ShrunkFits(heap, size, nblock);
      MulAtLeast(size, heap / size);
      ChunkCarveOk(s, sh, size, Need(size, heap / size), heap / size);
    } else {
      ChunkGrowOk(s, sh, size, nblock, sysBase);
    }
  }

  // ---------------------------------------------------------------------
  // Runs of blocks and the links Z_refill threads through them

  lemma NeedStep(n: nat, count: nat)
    requires 0 < count
    ensures Need(n, count) == n + Need(n, count - 1)
  {
  }

  /** A run holds count blocks, each n bytes past the one before, inside [c, c + count * n). */
  lemma {:induction false} RunShape(c: nat, n: nat, count: nat)
    requires 0 < n
    ensures |Run(c, n, count)| == count
    ensures forall j :: 0 <= j < count ==> c <= Run(c, n, count)[j] && Run(c, n, count)[j] + n <= c + Need(n, count)
    ensures forall j :: 0 <= j < count - 1 ==> Run(c, n, count)[j + 1] == Run(c, n, count)[j] + n
    ensures forall i, j :: 0 <= i < j < count ==> Run(c, n, count)[i] < Run(c, n, count)[j]
    decreases count
  {
    if count > 0 {
      RunShape(c + n, n, count - 1);
      NeedStep(n, count);
      var r := Run(c, n, count);
      assert forall j :: 0 < j < count ==> r[j] == Run(c + n, n, count - 1)[j - 1];
    }
  }

  lemma RunDistinct(c: nat, n: nat, count: nat)
    requires 0 < n
    ensures Distinct(Run(c, n, count)) && forall a :: a in Run(c, n, count) ==> c <= a
  {
    RunShape(c, n, count);
  }

  /** Entering a run into the record of carved blocks keeps the blocks apart when the run was unowned and below the slab. */
  lemma {:induction false} AddRunOk(b: map<nat, nat>, hs: nat, he: nat, top: nat, c: nat, n: nat, count: nat)
    requires BlocksOk(b, hs, he, top) && Fresh(b, c, Need(n, count)) && 0 < c && 0 < n && c + Need(n, count) <= hs
    ensures BlocksOk(AddBlocks(b, c, n, count), hs, he, top)
    ensures forall a :: a in b ==> a in AddBlocks(b, c, n, count) && AddBlocks(b, c, n, count)[a] == b[a]
    ensures forall a :: a in Run(c, n, count) ==> a in AddBlocks(b, c, n, count) && AddBlocks(b, c, n, count)[a] == n
    ensures forall a :: a in AddBlocks(b, c, n, count) ==> a in b || a in Run(c, n, count)
    decreases count
  {
    if count > 0 {
      AddOneOk(b, hs, he, top, c, n, count);
      AddRunOk(b[c := n], hs, he, top, c + n, n, count - 1);
    }
  }

  /** One step of AddRunOk: the first block of the run is entered. */
  lemma AddOneOk(b: map<nat, nat>, hs: nat, he: nat, top: nat, c: nat, n: nat, count: nat)
    requires BlocksOk(b, hs, he, top) && Fresh(b, c, Need(n, count)) && 0 < c && 0 < n && c + Need(n, count) <= hs
    requires 0 < count
    ensures c !in b && BlocksOk(b[c := n], hs, he, top) && Fresh(b[c := n], c + n, Need(n, count - 1))
    ensures c + n + Need(n, count - 1) <= hs
  {
    NeedStep(n, count);
  }

  /** After the first k writes, the first k blocks of r link onward and nothing outside r changed. */
  lemma {:induction false} ThreadAt(mem: map<nat, nat>, r: seq<nat>, k: nat)
    requires Distinct(r) && k <= |r|
    ensures forall j :: 0 <= j < k ==> r[j] in Thread(mem, r, k) && Thread(mem, r, k)[r[j]] == Link(r, j)
    ensures forall a :: a !in r && a in mem ==> a in Thread(mem, r, k) && Thread(mem, r, k)[a] == mem[a]
  {
    if k > 0 {
      ThreadAt(mem, r, k - 1);
      var m := Thread(mem, r, k - 1);
      assert Thread(mem, r, k) == m[r[k - 1] := Link(r, k - 1)];
      forall j | 0 <= j < k - 1
        ensures r[j] in Thread(mem, r, k) && Thread(mem, r, k)[r[j]] == Link(r, j)
      {
        assert r[j] != r[k - 1];
      }
      forall a | a !in r && a in mem
        ensures a in Thread(mem, r, k) && Thread(mem, r, k)[a] == mem[a]
      {
        assert a != r[k - 1];
      }
    }
  }

  /** Blocks that each link to the next, the last to null, form a list from the first. */
  lemma {:induction false} LinkedList(mem: map<nat, nat>, r: seq<nat>, j: nat)
    requires j <= |r|
    requires forall i :: j <= i < |r| ==> r[i] != 0 && r[i] in mem && mem[r[i]] == Link(r, i)
    ensures IsList(mem, if j < |r| then r[j] else 0, r[j..])
    decreases |r| - j
  {
    if j < |r| {
      LinkedList(mem, r, j + 1);
      assert r[j..][1..] == r[j + 1..];
    }
  }

  /** The memory Z_refill leaves: r in address order as one null-terminated list, everything else as before. */
  lemma ThreadList(mem: map<nat, nat>, r: seq<nat>)
    requires Distinct(r) && forall a :: a in r ==> a != 0
    ensures IsList(Thread(mem, r, |r|), if |r| > 0 then r[0] else 0, r)
    ensures forall a :: a !in r && a in mem ==> a in Thread(mem, r, |r|) && Thread(mem, r, |r|)[a] == mem[a]
  {
    ThreadAt(mem, r, |r|);
    assert forall i :: 0 <= i < |r| ==> r[i] in r;
    LinkedList(Thread(mem, r, |r|), r, 0);
    assert r[0..] == r;
  }

  /** An unowned run holds no carved block's address. */
  lemma OutsideRun(b: map<nat, nat>, c: nat, n: nat, count: nat)
    requires Fresh(b, c, Need(n, count)) && 0 < n && forall a :: a in b ==> 0 < b[a]
    ensures forall a :: a in b ==> a !in Run(c, n, count)
  {
    RunShape(c, n, count);
  }

  /**
   * Z_refill with more than one block carved: the rest of the run becomes
   * list k, the first block is handed out, and the pool stays well formed.
   */
  lemma RefillManyOk(s: PoolState, sh: Shape, c: nat, n: nat, nb: nat)
    requires PoolOk(s, sh) && IsClass(n) && sh.lists[ClassIndex(n)] == [] && 1 < nb
    requires 0 < c && c + Need(n, nb) == s.heapStart && Fresh(sh.blocks, c, Need(n, nb))
    ensures var sh' := ThreadedShape(sh, c, nb, n);
      PoolOk(Threaded(s, c, nb, n).0, sh') && Live(sh', c) && sh'.blocks[c] == n
  {
    var k := ClassIndex(n);
    var b2 := AddBlocks(sh.blocks, c, n, nb);
    var r := Run(c + n, n, nb - 1);
    AddRunOk(sh.blocks, s.heapStart, s.heapEnd, sh.top, c, n, nb);
    OutsideRun(sh.blocks, c, n, nb);
    RefillListsOk(s, sh, b2, c, n, nb);
    RunDistinct(c + n, n, nb - 1);
    assert Run(c, n, nb) == [c] + r;
    var sh' := ThreadedShape(sh, c, nb, n);
    var s' := Threaded(s, c, nb, n).0;
    assert sh' == sh.(blocks := b2, lists := sh.lists[k := r]);
    assert s'.heapStart == s.heapStart && s'.heapEnd == s.heapEnd;
    assert c in b2 && c !in sh.blocks;
    assert forall a :: a in r ==> c < a;
    forall j | 0 <= j < ListCount
      ensures c !in sh'.lists[j]
    {
      if j == k {
        assert sh'.lists[j] == r;
      } else {
        assert sh'.lists[j] == sh.lists[j];
        assert IsList(s.mem, s.heads[j], sh.lists[j]) && forall a :: a in sh.lists[j] ==> a in sh.blocks;
      }
    }
  }

  /** The lists after Z_refill: list n is the run after its first block, the others are as they were. */
  lemma RefillListsOk(s: PoolState, sh: Shape, b2: map<nat, nat>, c: nat, n: nat, nb: nat)
    requires ListsOk(s, sh) && IsClass(n) && sh.lists[ClassIndex(n)] == [] && 1 < nb && 0 < c
    requires forall a :: a in sh.blocks ==> a in b2 && b2[a] == sh.blocks[a] && a !in Run(c, n, nb)
    requires forall a :: a in Run(c, n, nb) ==> a in b2 && b2[a] == n
    ensures ListsOk(Threaded(s, c, nb, n).0, sh.(blocks := b2, lists := sh.lists[ClassIndex(n) := Run(c + n, n, nb - 1)]))
  {
    var k := ClassIndex(n);
    ClassSizeOfMultiple(n);
    var r := Run(c + n, n, nb - 1);
    assert Run(c, n, nb) == [c] + r;
    RunDistinct(c + n, n, nb - 1);
    ThreadList(s.mem, r);
    var mem' := Thread(s.mem, r, |r|);
    var s' := s.(heads := s.heads[k := c + n], mem := mem');
    var sh' := sh.(blocks := b2, lists := sh.lists[k := r]);
    forall j | 0 <= j < ListCount
      ensures IsList(s'.mem, s'.heads[j], sh'.lists[j]) && Distinct(sh'.lists[j])
      ensures forall a :: a in sh'.lists[j] ==> a in sh'.blocks && sh'.blocks[a] == Align * (j + 1)
    {
      if j != k {
        assert IsList(s.mem, s.heads[j], sh.lists[j]);
        IsListFrame(s.mem, mem', s.heads[j], sh.lists[j]);
      }
    }
  }

  /** Z_refill with a single block carved: it is handed out and no list changes. */
  lemma RefillOneOk(s: PoolState, sh: Shape, c: nat, n: nat)
    requires PoolOk(s, sh) && IsClass(n)
    requires 0 < c && c + Need(n, 1) == s.heapStart && Fresh(sh.blocks, c, Need(n, 1))
    ensures var sh' := ThreadedShape(sh, c, 1, n);
      PoolOk(Threaded(s, c, 1, n).0, sh') && Live(sh', c) && sh'.blocks[c] == n
  {
    AddRunOk(sh.blocks, s.heapStart, s.heapEnd, sh.top, c, n, 1);
    OutsideRun(sh.blocks, c, n, 1);
    assert Run(c, n, 1) == [c];
  }

  /** Z_refill keeps the pool well formed and hands out a live block of class n. */
  lemma RefillOk(s: PoolState, sh: Shape, n: nat, sysBase: nat)
    requires PoolOk(s, sh) && IsClass(n) && sh.lists[ClassIndex(n)] == [] && 0 < sysBase && sh.top <= sysBase
    ensures Readable(s)
    ensures var (s', p) := RefillSpec(s, n, sysBase);
      var sh' := RefillShape(sh, s, n, sysBase);
      PoolOk(s', sh') && Live(sh', p) && sh'.blocks[p] == n
  {
    ChunkOk(s, sh, n, RefillCount, sysBase);
    var t := ChunkSpec(s, n, RefillCount, sysBase);
    var sh1 := ChunkShape(sh, s, n, RefillCount, sysBase);
    if t.2 == 1 {
      RefillOneOk(t.0, sh1, t.1, n);
    } else {
      RefillManyOk(t.0, sh1, t.1, n, t.2);
    }
  }

  // ---------------------------------------------------------------------
  // allocate, deallocate, reallocate

  lemma ClassOfClass(n: nat)
    requires n <= MaxBytes
    ensures ClassSize(ClassSize(n)) == ClassSize(n) && ClassIndex(ClassSize(n)) == ClassIndex(n)
  {
    ClassSizeIsClass(n);
    ClassSizeOfMultiple(ClassSize(n));
  }

  /**
   * allocate keeps the pool well formed; a request of at most 128 bytes
   * gets a live block of its class, a larger one a fresh 128-byte system
   * range above everything the pool owns, with no list and no slab bound
   * changed.
   */
  lemma AllocOk(s: PoolState, sh: Shape, n: nat, sysBase: nat)
    requires PoolOk(s, sh) && 0 < sysBase && sh.top <= sysBase
    ensures Readable(s)
    ensures var (s', p) := AllocSpec(s, n, sysBase);
      var sh' := AllocShape(sh, s, n, sysBase);
      PoolOk(s', sh') &&
      (n <= MaxBytes ==> Live(sh', p) && sh'.blocks[p] == ClassSize(n)) &&
      (n > MaxBytes ==> s' == s && sh'.lists == sh.lists && sh'.blocks == sh.blocks && sh.top <= p && p + MaxBytes == sh'.top)
  {
    PoolOkReadable(s, sh);
    if n <= MaxBytes {
      var k := ClassIndex(n);
      ClassOfClass(n);
      if s.heads[k] == 0 {
        assert IsList(s.mem, s.heads[k], sh.lists[k]);
        RefillOk(s, sh, ClassSize(n), sysBase);
      } else {
        PopOk(s, sh, k);
      }
    }
  }

  /**
   * As written, allocate(n) above 128 bytes asks the system for only 128
   * bytes: the range it obtains is shorter than the request.
   */
  lemma BigRequestShort(s: PoolState, sh: Shape, n: nat, sysBase: nat)
    requires PoolOk(s, sh) && n > MaxBytes
    ensures Readable(s)
    ensures var (_, p) := AllocSpec(s, n, sysBase);
      p == sysBase && AllocShape(sh, s, n, sysBase).top == p + MaxBytes < p + n
  {
    PoolOkReadable(s, sh);
  }

  /**
   * The evidently intended allocate(n) above 128 bytes: n bytes from the
   * system.  Requests of at most 128 bytes are served as AllocShape says.
   */
  ghost function AllocShapeFixed(sh: Shape, s: PoolState, n: nat, sysBase: nat): Shape
    requires PoolOk(s, sh)
  {
    if n > MaxBytes then sh.(top := sysBase + n) else AllocShape(sh, s, n, sysBase)
  }

  /**
   * With the corrected request size the pool stays well formed, and a
   * request above 128 bytes gets a fresh range of exactly n bytes above
   * everything the pool owns, with no list, no block and no slab bound
   * changed.
   */
  lemma AllocFixedOk(s: PoolState, sh: Shape, n: nat, sysBase: nat)
    requires PoolOk(s, sh) && 0 < sysBase && sh.top <= sysBase
    ensures Readable(s)
    ensures var (s', p) := AllocSpec(s, n, sysBase);
      var sh' := AllocShapeFixed(sh, s, n, sysBase);
      PoolOk(s', sh') &&
      (n <= MaxBytes ==> Live(sh', p) && sh'.blocks[p] == ClassSize(n)) &&
      (n > MaxBytes ==> s' == s && sh'.lists == sh.lists && sh'.blocks == sh.blocks && sh.top <= p && p + n == sh'.top)
  {
    AllocOk(s, sh, n, sysBase);
  }

  /** deallocate of a live block of the request's class keeps the pool well formed; the block is free again. */
  lemma DeallocOk(s: PoolState, sh: Shape, p: nat, n: nat)
    requires PoolOk(s, sh) && (n <= MaxBytes ==> Live(sh, p) && sh.blocks[p] == ClassSize(n))
    ensures PoolOk(DeallocSpec(s, p, n), DeallocShape(sh, p, n))
    ensures n <= MaxBytes ==> !Live(DeallocShape(sh, p, n), p)
  {
    if n <= MaxBytes {
      PushOk(s, sh, ClassIndex(n), p);
    }
  }

  /**
   * The free lists are LIFO: allocating right after freeing p with the same
   * class returns p and restores every list; only p's first word differs.
   */
  lemma DeallocThenAlloc(s: PoolState, sh: Shape, p: nat, n: nat, sysBase: nat)
    requires PoolOk(s, sh) && n <= MaxBytes && Live(sh, p) && sh.blocks[p] == ClassSize(n)
    ensures PoolOk(DeallocSpec(s, p, n), DeallocShape(sh, p, n))
    ensures AllocSpec(DeallocSpec(s, p, n), n, sysBase) == (s.(mem := s.mem[p := s.heads[ClassIndex(n)]]), p)
    ensures AllocShape(DeallocShape(sh, p, n), DeallocSpec(s, p, n), n, sysBase) == sh
  {
    DeallocOk(s, sh, p, n);
    var k := ClassIndex(n);
    var s1 := DeallocSpec(s, p, n);
    assert s1 == PushSpec(s, k, p) && 0 < p;
    assert s1.heads[k := s.heads[k]] == s.heads;
    assert PopSpec(s1, k) == s.(mem := s.mem[p := s.heads[k]]);
    assert ([p] + sh.lists[k])[1..] == sh.lists[k];
    assert sh.lists[k := sh.lists[k]] == sh.lists;
  }

  /** A request served from a non-empty list takes that list's first block and changes nothing but that list. */
  lemma AllocFromList(s: PoolState, sh: Shape, n: nat, sysBase: nat)
    requires PoolOk(s, sh) && n <= MaxBytes && s.heads[ClassIndex(n)] != 0
    ensures Readable(s)
    ensures var (s', p) := AllocSpec(s, n, sysBase);
      var sh' := AllocShape(sh, s, n, sysBase);
      var k := ClassIndex(n);
      |sh.lists[k]| > 0 && p == sh.lists[k][0] && sh'.lists == sh.lists[k := sh.lists[k][1..]] &&
      sh'.blocks == sh.blocks && sh'.top == sh.top &&
      s'.mem == s.mem && s'.heapStart == s.heapStart && s'.heapEnd == s.heapEnd && s'.heapSize == s.heapSize &&
      s'.heads == s.heads[k := s.mem[p]]
  {
    PopOk(s, sh, ClassIndex(n));
  }

  // ---------------------------------------------------------------------
  // What Z_chunk_alloc and Z_refill promise

  lemma ShrunkRemainder(heap: nat, size: nat)
    requires 0 < size
    ensures heap - Need(size, heap / size) < size
  {
  }

  /**
   * With at least one block's worth in the slab, Z_chunk_alloc carves from
   * its front: all nblock blocks when they fit, otherwise as many whole
   * blocks as fit (at least one, fewer than asked, leaving less than a
   * block); nothing else changes and the slab start stays below its end.
   */
  lemma ChunkCarves(s: PoolState, size: nat, nblock: nat, sysBase: nat)
    requires Readable(s) && IsClass(size) && 0 < nblock && size <= s.heapEnd - s.heapStart
    ensures var (s', c, nb) := ChunkSpec(s, size, nblock, sysBase);
      var heap := s.heapEnd - s.heapStart;
      c == s.heapStart && s'.heapStart == s.heapStart + Need(size, nb) && s'.heapStart <= s'.heapEnd == s.heapEnd &&
      s'.heads == s.heads && s'.mem == s.mem && s'.heapSize == s.heapSize &&
      (Need(size, nblock) <= heap ==> nb == nblock) &&
      (heap < Need(size, nblock) ==> 1 <= nb < nblock && heap - Need(size, nb) < size)
  {
    var heap := s.heapEnd - s.heapStart;
    if heap < Need(size, nblock) {
      ShrunkFits(heap, size, nblock);
      ShrunkRemainder(heap, size);
    }
  }

  /**
   * With less than one block in the slab, Z_chunk_alloc pushes a non-empty
   * remainder on the list of its own size, takes 4 * size * nblock bytes at
   * sysBase as the new slab (Z_heap_size grows by as much), and the retry
   * carves all nblock blocks from the new slab's front.
   */
  lemma ChunkGrows(s: PoolState, size: nat, nblock: nat, sysBase: nat)
    requires Readable(s) && IsClass(size) && 0 < nblock
    requires s.heapEnd - s.heapStart < size && (s.heapEnd - s.heapStart) % Align == 0
    ensures var (s', c, nb) := ChunkSpec(s, size, nblock, sysBase);
      var heap := s.heapEnd - s.heapStart;
      var need := Need(size, nblock);
      c == sysBase && nb == nblock &&
      s'.heapStart == sysBase + need && s'.heapEnd == sysBase + need * 4 && s'.heapSize == s.heapSize + need * 4 &&
      (heap > 0 ==> AlignSizeList[ClassIndex(heap)] == heap) &&
      (heap > 0 ==> s'.heads == s.heads[ClassIndex(heap) := s.heapStart]) &&
      (heap > 0 ==> s'.mem == s.mem[s.heapStart := s.heads[ClassIndex(heap)]]) &&
      (heap == 0 ==> s'.heads == s.heads && s'.mem == s.mem)
  {
    var heap := s.heapEnd - s.heapStart;
    RegrowFits(size, nblock);
    if heap > 0 {
      ClassSizeOfMultiple(heap);
    }
  }

  /**
   * Z_refill returns the first carved block.  With more than one carved,
   * the class list becomes the other blocks in address order, n bytes
   * apart and null-terminated; with one, no list changes.
   */
  lemma RefillList(s: PoolState, sh: Shape, n: nat, sysBase: nat)
    requires PoolOk(s, sh) && IsClass(n) && sh.lists[ClassIndex(n)] == [] && 0 < sysBase && sh.top <= sysBase
    ensures Readable(s)
    ensures var t := ChunkSpec(s, n, RefillCount, sysBase);
      var (s', p) := RefillSpec(s, n, sysBase);
      var sh' := RefillShape(sh, s, n, sysBase);
      var k := ClassIndex(n);
      p == t.1 &&
      (t.2 == 1 ==> s' == t.0 && sh'.lists == ChunkShape(sh, s, n, RefillCount, sysBase).lists) &&
      (t.2 > 1 ==>
         |sh'.lists[k]| == t.2 - 1 && sh'.lists[k][0] == p + n &&
         (forall j :: 0 <= j < t.2 - 2 ==> sh'.lists[k][j + 1] == sh'.lists[k][j] + n) &&
         IsList(s'.mem, s'.heads[k], sh'.lists[k]))
  {
    PoolOkReadable(s, sh);
    var t := ChunkSpec(s, n, RefillCount, sysBase);
    if t.2 > 1 {
      ChunkOk(s, sh, n, RefillCount, sysBase);
      ThreadedList(t.0, ChunkShape(sh, s, n, RefillCount, sysBase), t.1, t.2, n);
    }
  }

  lemma ThreadedList(s: PoolState, sh: Shape, c: nat, nb: nat, n: nat)
    requires |s.heads| == ListCount && |sh.lists| == ListCount && IsClass(n) && 1 < nb && 0 < c
    ensures var s' := Threaded(s, c, nb, n).0;
      var l := ThreadedShape(sh, c, nb, n).lists[ClassIndex(n)];
      |l| == nb - 1 && l[0] == c + n && (forall j :: 0 <= j < nb - 2 ==> l[j + 1] == l[j] + n) &&
      IsList(s'.mem, s'.heads[ClassIndex(n)], l)
  {
    var r := Run(c + n, n, nb - 1);
    RunShape(c + n, n, nb - 1);
    RunDistinct(c + n, n, nb - 1);
    ThreadList(s.mem, r);
  }

  /** reallocate within one size class hands back the very block it was given. */
  lemma ReallocSameClass(s: PoolState, sh: Shape, p: nat, oldSize: nat, newSize: nat, sysBase: nat)
    requires PoolOk(s, sh) && oldSize <= MaxBytes && newSize <= MaxBytes && ClassSize(oldSize) == ClassSize(newSize)
    requires Live(sh, p) && sh.blocks[p] == ClassSize(oldSize)
    ensures Readable(DeallocSpec(s, p, oldSize))
    ensures AllocSpec(DeallocSpec(s, p, oldSize), newSize, sysBase).1 == p
  {
    DeallocThenAlloc(s, sh, p, oldSize, sysBase);
    PoolOkReadable(DeallocSpec(s, p, oldSize), DeallocShape(sh, p, oldSize));
  }

  // ---------------------------------------------------------------------
  // The allocator object

  /** pool_allocator: its static members as the fields of one object. */
  class Pool {
    /** Z_free_list: the sixteen list heads, 0 for nullptr. */
    const freeList: array<nat>
    /** The first word (free_list_next) of every block that has one. */
    var mem: map<nat, nat>
    /** Z_heap_start, Z_heap_end, Z_heap_size */
    var heapStart: nat
    var heapEnd: nat
    var heapSize: nat
    ghost var shape: Shape

    function State(): PoolState
      reads this, freeList
    {
      PoolState(freeList[..], mem, heapStart, heapEnd, heapSize)
    }

    ghost predicate Valid()
      reads this, freeList
    {
      freeList.Length == ListCount && PoolOk(State(), shape)
    }

    /** The static initialisers: every list empty, no slab, nothing obtained from the system. */
    constructor()
      ensures Valid() && fresh(freeList)
      ensures State() == PoolState(seq(ListCount, _ => 0), map[], 0, 0, 0)
      ensures shape == Shape(seq(ListCount, _ => []), map[], 0)
    {
      freeList := new nat[ListCount](_ => 0);
      mem := map[];
      heapStart, heapEnd, heapSize := 0, 0, 0;
      shape := Shape(seq(ListCount, _ => []), map[], 0);
      new;
      assert freeList[..] == seq(ListCount, _ => 0);
    }

    /** allocate(n) */
    method Allocate(n: nat, sysBase: nat) returns (p: nat)
      requires Valid() && 0 < sysBase && shape.top <= sysBase
      modifies this, freeList
      ensures Valid()
      ensures (State(), p) == AllocSpec(old(State()), n, sysBase)
      ensures shape == AllocShape(old(shape), old(State()), n, sysBase)
    {
      AllocOk(State(), shape, n, sysBase);
      if n > MaxBytes {
        p := sysBase;
        shape := shape.(top := sysBase + MaxBytes);
        return;
      }
      var k := FreelistIndex(n);
      var result := freeList[k];
      if result == 0 {
        var size := RoundUp(n);
        ClassOfClass(n);
        assert IsList(mem, freeList[k], shape.lists[k]);
        p := Refill(size, sysBase);
        return;
      }
      ghost var target := PopShape(shape, k);
      PopOk(State(), shape, k);
      freeList[k] := mem[result];
      shape := target;
      p := result;
    }

    /** deallocate(p, n): above 128 bytes the block goes back to the system and the pool is untouched. */
    method Deallocate(p: nat, n: nat)
      requires Valid() && (n <= MaxBytes ==> Live(shape, p) && shape.blocks[p] == ClassSize(n))
      modifies this, freeList
      ensures Valid()
      ensures State() == DeallocSpec(old(State()), p, n)
      ensures shape == DeallocShape(old(shape), p, n)
    {
      DeallocOk(State(), shape, p, n);
      if n > MaxBytes {
        return;
      }
      var k := FreelistIndex(n);
      mem := mem[p := freeList[k]];
      freeList[k] := p;
      shape := PushShape(shape, k, p);
    }

    /** reallocate(p, oldSize, newSize): deallocate, then allocate. */
    method Reallocate(p: nat, oldSize: nat, newSize: nat, sysBase: nat) returns (q: nat)
      requires Valid() && (oldSize <= MaxBytes ==> Live(shape, p) && shape.blocks[p] == ClassSize(oldSize))
      requires 0 < sysBase && shape.top <= sysBase
      modifies this, freeList
      ensures Valid()
      ensures Readable(DeallocSpec(old(State()), p, oldSize))
      ensures (State(), q) == AllocSpec(DeallocSpec(old(State()), p, oldSize), newSize, sysBase)
    {
      Deallocate(p, oldSize);
      PoolOkReadable(State(), shape);
      q := Allocate(newSize, sysBase);
    }

    /** Z_refill(n) */
    method Refill(n: nat, sysBase: nat) returns (p: nat)
      requires Valid() && IsClass(n) && shape.lists[ClassIndex(n)] == [] && 0 < sysBase && shape.top <= sysBase
      modifies this, freeList
      ensures Valid()
      ensures (State(), p) == RefillSpec(old(State()), n, sysBase)
      ensures shape == RefillShape(old(shape), old(State()), n, sysBase)
    {
      ChunkOk(State(), shape, n, RefillCount, sysBase);
      var nblock := RefillCount;
      var c;
      c, nblock := ChunkAlloc(n, nblock, sysBase);
      p := LinkBlocks(c, nblock, n);
    }

    /** Z_refill after Z_chunk_alloc returned nblock blocks at c. */
    method LinkBlocks(c: nat, nblock: nat, n: nat) returns (p: nat)
      requires Valid() && IsClass(n) && shape.lists[ClassIndex(n)] == [] && 0 < nblock
      requires 0 < c && c + Need(n, nblock) == heapStart && Fresh(shape.blocks, c, Need(n, nblock))
      modifies this, freeList
      ensures Valid()
      ensures (State(), p) == Threaded(old(State()), c, nblock, n)
      ensures shape == ThreadedShape(old(shape), c, nblock, n)
    {
      if nblock == 1 {
        RefillOneOk(State(), shape, c, n);
        shape := ThreadedShape(shape, c, 1, n);
        return c;
      }
      RefillManyOk(State(), shape, c, n, nblock);
      ghost var target := Threaded(State(), c, nblock, n).0;
      var k := FreelistIndex(n);
      ClassSizeOfMultiple(n);
      ThreadHead(c, n, k);
      LinkRun(c, n, nblock);
      assert State() == target;
      shape := ThreadedShape(shape, c, nblock, n);
      p := c;
    }

    /** Z_refill: the class list's head becomes the second block of the run. */
    method ThreadHead(c: nat, n: nat, k: nat)
      requires k < freeList.Length
      modifies freeList
      ensures State() == old(State()).(heads := old(State()).heads[k := c + n])
    {
      freeList[k] := c + n;
    }

    /** Z_refill's loop: blocks 1 .. nblock - 1 of the run at c each link to the next, the last to null. */
    method LinkRun(c: nat, n: nat, nblock: nat)
      requires 1 < nblock && 0 < n
      modifies this`mem
      ensures mem == Thread(old(mem), Run(c + n, n, nblock - 1), nblock - 1)
    {
      ghost var r := Run(c + n, n, nblock - 1);
      RunShape(c + n, n, nblock - 1);
      var next := c + n;
      var i := 1;
      while i < nblock
        invariant 1 <= i <= nblock
        invariant i < nblock ==> next == r[i - 1]
        invariant mem == Thread(old(mem), r, i - 1)
      {
        var cur := next;
        next := next + n;
        mem := mem[cur := if i == nblock - 1 then 0 else next];
        i := i + 1;
      }
    }

    /** Z_chunk_alloc(size, nblock); nb is the updated nblock. */
    method ChunkAlloc(size: nat, nblock: nat, sysBase: nat) returns (c: nat, nb: nat)
      requires Valid() && IsClass(size) && 0 < nblock
      requires heapEnd - heapStart < size ==> 0 < sysBase && shape.top <= sysBase
      modifies this, freeList
      ensures Valid()
      ensures (State(), c, nb) == ChunkSpec(old(State()), size, nblock, sysBase)
      ensures shape == ChunkShape(old(shape), old(State()), size, nblock, sysBase)
      decreases if heapEnd - heapStart >= size then 0 else 1
    {
      var need := Need(size, nblock);
      var heap := heapEnd - heapStart;
      if heap >= need {
        NeedAligned(size, nblock);
        c := Carve(need);
        return c, nblock;
      }
      if heap >= size {
        nb := heap / size;
        need := Need(size, nb);
        ShrunkFits(heap, size, nblock);
        NeedAligned(size, nb);
        c := Carve(need);
        return;
      }
      Grow(size, nblock, sysBase);
      RegrowFits(size, nblock);
      c, nb := ChunkAlloc(size, nblock, sysBase);
    }

    /** Taking len bytes off the front of the slab. */
    method Carve(len: nat) returns (c: nat)
      requires Valid() && heapStart + len <= heapEnd && len % Align == 0
      modifies this`heapStart
      ensures Valid()
      ensures (State(), c) == CarveSpec(old(State()), len)
    {
      CarveOk(State(), shape, len);
      c := heapStart;
      heapStart := heapStart + len;
    }

    /** Z_chunk_alloc's third branch before its retry. */
    method Grow(size: nat, nblock: nat, sysBase: nat)
      requires Valid() && IsClass(size) && 0 < nblock
      requires heapEnd - heapStart < size && 0 < sysBase && shape.top <= sysBase
      modifies this, freeList
      ensures Valid()
      ensures State() == Regrow(Scrap(old(State())), sysBase, Need(size, nblock) * 2 * 2)
      ensures shape == ChunkShape(old(shape), old(State()), size, nblock, sysBase)
    {
      GrowOk(State(), shape, size, nblock, sysBase);
      var require := Need(size, nblock) * 2 * 2;
      ghost var grown := ChunkShape(shape, State(), size, nblock, sysBase);
      ghost var target := Regrow(Scrap(State()), sysBase, require);
      var heap := heapEnd - heapStart;
      ScrapIn(heap);
      heapStart := sysBase;
      heapEnd := heapStart + require;
      heapSize := heapSize + require;
      shape := grown;
      assert State() == target;
    }

    /** Z_chunk_alloc's third branch: a slab remainder of heap bytes goes onto its own list. */
    method ScrapIn(heap: nat)
      requires freeList.Length == ListCount && heapStart <= heapEnd && heap == heapEnd - heapStart <= MaxBytes
      modifies this`mem, freeList
      ensures State() == Scrap(old(State()))
    {
      if heap > 0 {
        var k := FreelistIndex(heap);
        mem := mem[heapStart := freeList[k]];
        freeList[k] := heapStart;
      }
    }
  }
}
