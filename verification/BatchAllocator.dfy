/** BatchAllocator: a list of batches carved from the front, and a list of released blocks threaded
    through the blocks themselves. Memory is counted in objects; a block is perAllocation of them. */
module BatchAllocator {
  import opened Common

  // The address of an allocation: an offset into the buffer of a batch.
  datatype Block = Block(batch: BatchInfo, offset: nat)

  class BatchInfo {
    var next: BatchInfo?
    var used: nat
    const end: nat
    const size: nat

    // malloc of perAllocation * objectsPerPage objects, of which only objectsPerPage are given out
    constructor (perAllocation: nat, objectsPerPage: nat)
      requires perAllocation > 0
      ensures next == null && used == 0 && end == objectsPerPage && size == perAllocation * objectsPerPage
        && end <= size
    {
      next, used, end, size := null, 0, objectsPerPage, perAllocation * objectsPerPage;
    }
  }

  // --- What is live, free and unused ---

  ghost predicate Aligned(k: nat, offset: nat)
    requires k > 0
  {
    offset % k == 0
  }

  // Every batch except the head is full, so the fill of the head tells how much is carved.
  ghost function Used(head: BatchInfo, fill: nat, b: BatchInfo): nat {
    if b == head then fill else b.end
  }

  ghost predicate Issued(k: nat, pages: set<BatchInfo>, head: BatchInfo, fill: nat, b: Block)
    requires k > 0
  {
    b.batch in pages && b.offset < Used(head, fill, b.batch) && Aligned(k, b.offset)
  }

  // Every block handed out so far is live or free, and none is both.
  ghost predicate Accounted(k: nat, pages: set<BatchInfo>, head: BatchInfo, fill: nat, live: set<Block>,
      free: seq<Block>)
    requires k > 0
  {
    && (forall b | b in live :: Issued(k, pages, head, fill, b) && b !in free)
    && (forall i | 0 <= i < |free| :: Issued(k, pages, head, fill, free[i]))
    && (forall i, j | 0 <= i < j < |free| :: free[i] != free[j])
    && (forall b, o | b in pages && 0 <= o < Used(head, fill, b) && Aligned(k, o) ::
      Block(b, o) in live || Block(b, o) in free)
  }

  ghost function LinkOf(free: seq<Block>, i: nat): Option<Block> {
    if i + 1 < |free| then Some(free[i + 1]) else None
  }

  // The released blocks, each holding the address of the one released before it.
  ghost predicate Threaded(memory: map<Block, Option<Block>>, head: Option<Block>, free: seq<Block>) {
    && head == (if free == [] then None else Some(free[0]))
    && forall i | 0 <= i < |free| :: free[i] in memory && memory[free[i]] == LinkOf(free, i)
  }

  ghost function Capacity(chain: seq<BatchInfo>): nat {
    if chain == [] then 0 else chain[0].end + Capacity(chain[1..])
  }

  lemma CapacityOne(b: BatchInfo)
    ensures Capacity([b]) == b.end
  {
    assert [b][1..] == [];
  }

  // Live and free blocks and what is unused of the head make up all there is.
  ghost predicate Conserved(k: nat, capacity: nat, end: nat, used: nat, live: set<Block>, free: seq<Block>) {
    (|live| + |free|) * k + (end - used) == capacity
  }

  ghost function Behind(chain: seq<BatchInfo>, i: nat): BatchInfo? {
    if i + 1 < |chain| then chain[i + 1] else null
  }

  lemma CountTake(k: nat, capacity: nat, end: nat, used: nat, live: set<Block>, free: seq<Block>)
    requires free != [] && free[0] !in live && Conserved(k, capacity, end, used, live, free)
    ensures Conserved(k, capacity, end, used, live + {free[0]}, free[1..])
  {
    assert |live + {free[0]}| + |free[1..]| == |live| + |free|;
  }

  lemma TakeFree(
      k: nat, pages: set<BatchInfo>, head: BatchInfo, fill: nat, capacity: nat, end: nat, used: nat,
      live: set<Block>, free: seq<Block>)
    requires k > 0 && free != []
    requires Accounted(k, pages, head, fill, live, free) && Conserved(k, capacity, end, used, live, free)
    ensures free[0] !in live && Issued(k, pages, head, fill, free[0])
    ensures Accounted(k, pages, head, fill, live + {free[0]}, free[1..])
    ensures Conserved(k, capacity, end, used, live + {free[0]}, free[1..])
  {
    assert free[0] !in live;
    CountTake(k, capacity, end, used, live, free);
    hide Aligned, Conserved;
  }

  lemma NextLink(memory: map<Block, Option<Block>>, head: Option<Block>, free: seq<Block>)
    requires Threaded(memory, head, free) && free != []
    ensures free[0] in memory && Threaded(memory, memory[free[0]], free[1..])
  {
    forall i | 0 <= i < |free| - 1 ensures LinkOf(free[1..], i) == LinkOf(free, i + 1) {}
  }

  lemma CountMake(k: nat, capacity: nat, end: nat, used: nat, live: set<Block>, free: seq<Block>, b: Block)
    requires b in live && Conserved(k, capacity, end, used, live, free)
    ensures Conserved(k, capacity, end, used, live - {b}, [b] + free)
  {
    assert live == (live - {b}) + {b};
    assert |live - {b}| + |[b] + free| == |live| + |free|;
  }

  lemma MakeFree(
      k: nat, pages: set<BatchInfo>, head: BatchInfo, fill: nat, capacity: nat, end: nat, used: nat,
      live: set<Block>, free: seq<Block>, b: Block)
    requires k > 0 && b in live
    requires Accounted(k, pages, head, fill, live, free) && Conserved(k, capacity, end, used, live, free)
    ensures b !in free && Accounted(k, pages, head, fill, live - {b}, [b] + free)
    ensures Conserved(k, capacity, end, used, live - {b}, [b] + free)
  {
    CountMake(k, capacity, end, used, live, free, b);
    hide Aligned, Conserved;
  }

  lemma PushLink(memory: map<Block, Option<Block>>, head: Option<Block>, free: seq<Block>, b: Block)
    requires Threaded(memory, head, free) && b !in free
    ensures Threaded(memory[b := head], Some(b), [b] + free)
  {
    var free1 := [b] + free;
    forall i | 0 <= i < |free1| ensures i > 0 ==> LinkOf(free1, i) == LinkOf(free, i - 1) {}
  }

  lemma KeepLinks(memory: map<Block, Option<Block>>, head: Option<Block>, free: seq<Block>, b: Block,
      word: Option<Block>)
    requires Threaded(memory, head, free) && b !in free
    ensures Threaded(memory[b := word], head, free)
  {
  }

  lemma AtLeastOnce(k: nat, d: int)
    ensures d >= 1 ==> k * d >= k
    ensures k * -d == -(k * d)
  {
  }

  lemma Remainder(k: nat, i: nat, r: nat)
    requires r < k
    ensures (k * i + r) % k == r
  {
    var x := k * i + r;
    var d := x / k - i;
    assert x == k * (x / k) + x % k;
    assert k * d == k * (x / k) - k * i == r - x % k;
    AtLeastOnce(k, d);
    AtLeastOnce(k, -d);
  }

  lemma NoMultipleBetween(k: nat, a: nat, o: nat)
    requires k > 0 && Aligned(k, a) && a < o < a + k
    ensures !Aligned(k, o)
  {
    assert a == k * (a / k);
    Remainder(k, a / k, o - a);
    assert k * (a / k) + (o - a) == o;
  }

  lemma BumpAccounts(k: nat, pages: set<BatchInfo>, head: BatchInfo, fill: nat, live: set<Block>)
    requires k > 0 && head in pages && Aligned(k, fill) && Accounted(k, pages, head, fill, live, [])
    ensures var b := Block(head, fill);
      b !in live && Accounted(k, pages, head, fill + k, live + {b}, [])
  {
    hide Aligned;
    var b := Block(head, fill);
    assert b !in live;
    forall o | fill < o < fill + k ensures !Aligned(k, o) {
      NoMultipleBetween(k, fill, o);
    }
  }

  lemma Distribute(k: nat, n: nat)
    ensures (n + 1) * k == n * k + k && k * (n + 1) == k * n + k
  {
  }

  lemma BumpConserves(k: nat, capacity: nat, end: nat, used: nat, live: set<Block>, b: Block)
    requires b !in live && Conserved(k, capacity, end, used, live, [])
    ensures Conserved(k, capacity, end, used + k, live + {b}, [])
  {
    var free: seq<Block> := [];
    assert |live + {b}| + |free| == |live| + |free| + 1;
    Distribute(k, |live| + |free|);
  }

  lemma Quotient(k: nat, x: nat)
    requires k > 0 && Aligned(k, x)
    ensures x == k * (x / k)
  {
  }

  lemma TimesMonotone(k: nat, i: nat, j: nat)
    requires i <= j
    ensures k * i <= k * j
  {
  }

  lemma NextTimes(k: nat, i: nat, j: nat)
    requires k * i < k * j
    ensures k * (i + 1) <= k * j && k * (i + 1) == k * i + k
  {
    if j <= i {
      TimesMonotone(k, j, i);
      assert false;
    }
    TimesMonotone(k, i + 1, j);
  }

  lemma NextMultiple(k: nat, a: nat, b: nat)
    requires k > 0 && Aligned(k, a) && Aligned(k, b) && a < b
    ensures a + k <= b && Aligned(k, a + k)
  {
    var i, j := a / k, b / k;
    assert a == k * i by { Quotient(k, a); }
    assert b == k * j by { Quotient(k, b); }
    NextTimes(k, i, j);
    Remainder(k, i + 1, 0);
  }

  lemma Bump(k: nat, pages: set<BatchInfo>, head: BatchInfo, fill: nat, capacity: nat, live: set<Block>)
    requires k > 0 && head in pages && Aligned(k, fill) && Aligned(k, head.end) && fill < head.end
    requires Accounted(k, pages, head, fill, live, []) && Conserved(k, capacity, head.end, fill, live, [])
    ensures var b := Block(head, fill);
      && fill + k <= head.end && Aligned(k, fill + k) && b !in live
      && Accounted(k, pages, head, fill + k, live + {b}, []) && Issued(k, pages, head, fill + k, b)
      && Conserved(k, capacity, head.end, fill + k, live + {b}, [])
  {
    NextMultiple(k, fill, head.end);
    BumpAccounts(k, pages, head, fill, live);
    BumpConserves(k, capacity, head.end, fill, live, Block(head, fill));
  }

  lemma CountGrow(k: nat, batch: BatchInfo, chain: seq<BatchInfo>, full: nat, live: set<Block>)
    requires Conserved(k, Capacity(chain), full, full, live, [])
    ensures Conserved(k, Capacity([batch] + chain), batch.end, 0, live, [])
  {
    assert ([batch] + chain)[1..] == chain;
  }

  lemma Grow(k: nat, pages: set<BatchInfo>, head: BatchInfo, batch: BatchInfo, live: set<Block>)
    requires k > 0 && batch !in pages && Accounted(k, pages, head, head.end, live, [])
    ensures Accounted(k, pages + {batch}, batch, 0, live, [])
  {
  }

  // Two different blocks do not overlap.
  lemma BlocksAreApart(k: nat, pages: set<BatchInfo>, head: BatchInfo, fill: nat, a: Block, b: Block)
    requires k > 0 && Issued(k, pages, head, fill, a) && Issued(k, pages, head, fill, b) && a != b
    ensures a.batch != b.batch || a.offset + k <= b.offset || b.offset + k <= a.offset
  {
    if a.offset < b.offset {
      NextMultiple(k, a.offset, b.offset);
    } else if b.offset < a.offset {
      NextMultiple(k, b.offset, a.offset);
    }
  }

  // --- Why a page must hold a whole number of blocks ---

  // The fill of a batch after n blocks, with the test for equality that decides whether it is full.
  function Fill(k: nat, end: nat, n: nat): nat {
    if n == 0 then 0 else
    var before := Fill(k, end, n - 1);
    if before == end then before else before + k
  }

  lemma {:induction false} FillStaysInside(k: nat, end: nat, n: nat)
    requires k > 0 && Aligned(k, end)
    ensures Fill(k, end, n) <= end && Aligned(k, Fill(k, end, n))
  {
    if n > 0 {
      FillStaysInside(k, end, n - 1);
      if Fill(k, end, n - 1) < end { NextMultiple(k, Fill(k, end, n - 1), end); }
    }
  }

  lemma {:induction false} FillNeverStops(k: nat, end: nat, n: nat)
    requires k > 0 && !Aligned(k, end)
    ensures Fill(k, end, n) == k * n
  {
    if n > 0 {
      FillNeverStops(k, end, n - 1);
      Remainder(k, n - 1, 0);
    }
  }

  ghost predicate FillFits(k: nat, end: nat, limit: int, n: nat) { Fill(k, end, n) <= limit }

  lemma AtLeastTimes(k: nat, n: nat)
    requires k > 0
    ensures n <= k * n
  {
  }

  // Blocks stay inside the memory of a page exactly when the page is a whole number of blocks.
  lemma PageMustDivide(k: nat, objectsPerPage: nat)
    requires k > 0
    ensures (forall n: nat :: FillFits(k, objectsPerPage, k * objectsPerPage, n)) <==> Aligned(k, objectsPerPage)
  {
    var size := k * objectsPerPage;
    hide Aligned, Fill;
    if Aligned(k, objectsPerPage) {
      AtLeastTimes(k, objectsPerPage);
      forall n: nat ensures FillFits(k, objectsPerPage, size, n) {
        FillStaysInside(k, objectsPerPage, n);
      }
    } else {
      FillNeverStops(k, objectsPerPage, objectsPerPage + 1);
      Distribute(k, objectsPerPage);
      assert !FillFits(k, objectsPerPage, size, objectsPerPage + 1);
    }
  }

  // Three objects a block and sixteen a page: the seventeenth block lies beyond the page's 48 objects.
  lemma PageOverrun()
    ensures !Aligned(3, 16) && Fill(3, 16, 17) == 51 > 3 * 16
  {
    FillNeverStops(3, 16, 17);
  }

  // The list of batches.
  ghost predicate Chained(pages: set<BatchInfo>, chain: seq<BatchInfo>)
    reads pages
  {
    && (forall i, j | 0 <= i < j < |chain| :: chain[i] != chain[j])
    && forall i | 0 <= i < |chain| :: chain[i] in pages && chain[i].next == Behind(chain, i)
  }

  // Whole blocks only; every batch except the head is full.
  ghost predicate Carved(k: nat, pages: set<BatchInfo>, head: BatchInfo)
    requires k > 0
    reads pages
  {
    forall b | b in pages ::
      && Aligned(k, b.used) && Aligned(k, b.end) && b.used <= b.end <= b.size
      && (b != head ==> b.used == b.end)
  }

  lemma LinkGrow(k: nat, pages: set<BatchInfo>, head: BatchInfo, batch: BatchInfo, chain: seq<BatchInfo>)
    requires k > 0 && Chained(pages, chain) && chain != [] && chain[0] == head && Carved(k, pages, head)
    requires head.used == head.end
    requires batch !in pages && batch.next == head && batch.used == 0 && batch.end <= batch.size
      && Aligned(k, batch.end)
    ensures Chained(pages + {batch}, [batch] + chain) && Carved(k, pages + {batch}, batch)
  {
    assert Aligned(k, 0);
    hide Aligned;
    var chain1 := [batch] + chain;
    forall i | 0 <= i < |chain1| ensures i > 0 ==> Behind(chain1, i) == Behind(chain, i - 1) {}
  }

  class Allocator {
    const perAllocation: nat
    const objectsPerPage: nat
    var batches: BatchInfo
    var currentBatch: BatchInfo?
    var freeHead: Option<Block>
    // The first word of each block: the link of a released block, the client's otherwise.
    var memory: map<Block, Option<Block>>

    ghost var pages: set<BatchInfo>
    ghost var chain: seq<BatchInfo>
    ghost var free: seq<Block>
    ghost var live: set<Block>

    // What holds while the list of batches is walked.
    ghost predicate Sound()
      reads this, pages
    {
      && chain != [] && batches == chain[0] && batches in pages && batches.used <= batches.end
      && perAllocation > 0 && objectsPerPage >= 16 && Aligned(perAllocation, objectsPerPage)
      && Chained(pages, chain) && Carved(perAllocation, pages, batches) && Threaded(memory, freeHead, free)
      && Accounted(perAllocation, pages, batches, batches.used, live, free)
      && Conserved(perAllocation, Capacity(chain), batches.end, batches.used, live, free)
    }

    ghost predicate Valid()
      reads this, pages
    {
      Sound() && currentBatch == batches
    }

    ghost predicate Holds(b: Block)
      reads this, pages
    {
      perAllocation > 0 && batches in pages && Issued(perAllocation, pages, batches, batches.used, b)
    }

    constructor (perAllocation: nat, objectsPerPage: nat)
      requires perAllocation > 0 && objectsPerPage >= 16 && Aligned(perAllocation, objectsPerPage)
      ensures Valid() && live == {} && free == [] && Capacity(chain) == 0 && fresh(pages)
      ensures this.perAllocation == perAllocation && this.objectsPerPage == objectsPerPage
    {
      var dummy := new BatchInfo(perAllocation, 0);
      this.perAllocation, this.objectsPerPage := perAllocation, objectsPerPage;
      batches, currentBatch, freeHead, memory := dummy, dummy, None, map[];
      pages, chain, free, live := {dummy}, [dummy], [], {};
      new;
      CapacityOne(dummy);
      hide Capacity;
    }

    lemma HeadIsFree()
      requires Valid()
      ensures freeHead.Some? <==> free != []
    {
    }

    lemma InsideBatch(b: Block)
      requires Valid() && Holds(b)
      ensures b.offset + perAllocation <= b.batch.end <= b.batch.size
    {
      NextMultiple(perAllocation, b.offset, b.batch.end);
    }

    method TakeReleased() returns (block: Block)
      requires Valid() && freeHead.Some?
      modifies this`freeHead, this`free, this`live
      ensures Valid() && free == old(free)[1..] && block == old(free)[0]
      ensures block !in old(live) && live == old(live) + {block}
      ensures Holds(block) && block.offset + perAllocation <= block.batch.end <= block.batch.size
    {
      hide Accounted, Conserved, Issued, Chained;
      block := freeHead.value;
      NextLink(memory, freeHead, free);
      TakeFree(perAllocation, pages, batches, batches.used, Capacity(chain), batches.end, batches.used, live, free);
      InsideBatch(block);
      freeHead := memory[block];
      free := free[1..];
      live := live + {block};
    }

    // The next block of a head that is not full.
    method Carve() returns (block: Block)
      requires Valid() && free == [] && batches.used < batches.end
      modifies this`live, batches`used
      ensures Valid() && block !in old(live) && live == old(live) + {block}
      ensures Holds(block) && block.offset + perAllocation <= block.batch.end <= block.batch.size
    {
      hide Accounted, Conserved, Aligned, Threaded, Issued, Capacity;
      Bump(perAllocation, pages, batches, batches.used, Capacity(chain), live);
      block := Block(currentBatch, currentBatch.used);
      currentBatch.used := currentBatch.used + perAllocation;
      live := live + {block};
      assert Chained(pages, chain);
      assert Carved(perAllocation, pages, batches);
      assert Threaded(memory, freeHead, free);
      assert Accounted(perAllocation, pages, batches, batches.used, live, free);
      assert Conserved(perAllocation, Capacity(chain), batches.end, batches.used, live, free);
    }

    method SkipFull()
      requires Valid() && batches.used == batches.end
      modifies this`currentBatch
      ensures Sound() && currentBatch == null
    {
      hide Aligned, Accounted, Conserved, Threaded;
      currentBatch := currentBatch.next;
      ghost var i := 1;
      while currentBatch != null && currentBatch.used == currentBatch.end
        invariant 1 <= i <= |chain| && currentBatch == Behind(chain, i - 1)
        decreases |chain| - i
      {
        currentBatch := currentBatch.next;
        i := i + 1;
      }
    }

    method PutInFront(batch: BatchInfo)
      requires Sound() && free == [] && batches.used == batches.end
      requires batch !in pages && batch.next == batches && batch.used == 0 && batch.end == objectsPerPage <= batch.size
      modifies this`batches, this`currentBatch, this`chain, this`pages
      ensures Valid() && batches == batch && chain == [batch] + old(chain) && pages == old(pages) + {batch}
    {
      hide Accounted, Conserved, Aligned, Threaded, Chained, Carved, Capacity;
      Grow(perAllocation, pages, batches, batch, live);
      CountGrow(perAllocation, batch, chain, batches.end, live);
      LinkGrow(perAllocation, pages, batches, batch, chain);
      batches := batch;
      currentBatch := batches;
      chain, pages := [batch] + chain, pages + {batch};
    }

    // Walks to a batch that is not full, of which there is none, and then puts a new one in front.
    method NextBatch()
      requires Valid() && free == [] && batches.used == batches.end
      modifies this`batches, this`currentBatch, this`chain, this`pages
      ensures Valid() && fresh(batches) && batches.used == 0 < batches.end
      ensures chain == [batches] + old(chain) && pages == old(pages) + {batches}
    {
      SkipFull();
      var batch := new BatchInfo(perAllocation, objectsPerPage);
      hide Accounted, Conserved, Aligned, Threaded, Chained, Carved, Capacity;
      batch.next := batches;
      PutInFront(batch);
    }

    // The next block of the head, behind a new head if there is no room.
    method TakeUnused() returns (block: Block)
      requires Valid() && free == []
      modifies this, batches`used
      ensures Valid() && fresh(pages - old(pages)) && free == []
      ensures block !in old(live) && live == old(live) + {block}
      ensures Holds(block) && block.offset + perAllocation <= block.batch.end <= block.batch.size
      ensures old(batches.used) < old(batches).end ==> chain == old(chain)
      ensures old(batches.used) == old(batches).end ==> fresh(batches) && chain == [batches] + old(chain)
    {
      hide Accounted, Conserved, Threaded, Chained, Carved, Aligned, Issued, Capacity;
      if currentBatch.used == currentBatch.end {
        NextBatch();
      }
      block := Carve();
    }

    method Allocate() returns (block: Block)
      requires Valid()
      modifies this, batches`used
      ensures Valid() && fresh(pages - old(pages))
      ensures block !in old(live) && live == old(live) + {block}
      // a whole block, inside the buffer of its batch
      ensures Holds(block) && block.offset + perAllocation <= block.batch.end <= block.batch.size
      // released blocks first, the last one released before the others
      ensures old(free) != [] ==> free == old(free)[1..] && block == old(free)[0] && chain == old(chain)
      // a new batch only when there is neither a released block nor an unused one
      ensures old(free) == [] ==> free == []
      ensures old(free) == [] && old(batches.used) < old(batches).end ==> chain == old(chain)
      ensures old(free) == [] && old(batches.used) == old(batches).end
        ==> fresh(batches) && chain == [batches] + old(chain)
    {
      HeadIsFree();
      hide Valid, Holds;
      if freeHead.Some? {
        block := TakeReleased();
      } else {
        block := TakeUnused();
      }
    }

    method Release(block: Block)
      requires Valid() && block in live
      modifies this`freeHead, this`memory, this`free, this`live
      ensures Valid() && live == old(live) - {block} && free == [block] + old(free)
    {
      hide Accounted, Conserved, Chained, Carved, Threaded;
      MakeFree(perAllocation, pages, batches, batches.used, Capacity(chain), batches.end, batches.used,
        live, free, block);
      PushLink(memory, freeHead, free, block);
      memory := memory[block := freeHead];
      freeHead := Some(block);
      free := [block] + free;
      live := live - {block};
    }

    // Two live blocks do not overlap.
    lemma LiveAreApart(a: Block, b: Block)
      requires Valid() && a in live && b in live && a != b
      ensures a.batch != b.batch || a.offset + perAllocation <= b.offset || b.offset + perAllocation <= a.offset
    {
      hide Conserved, Chained, Carved, Threaded, Aligned;
      BlocksAreApart(perAllocation, pages, batches, batches.used, a, b);
    }

    lemma LiveIsNotFree(block: Block)
      requires Valid() && block in live
      ensures block !in free
    {
      hide Conserved, Chained, Carved, Threaded, Aligned;
    }

    // The client may write what it likes into a live block.
    method Store(block: Block, word: Option<Block>)
      requires Valid() && block in live
      modifies this`memory
      ensures Valid() && memory == old(memory)[block := word]
    {
      hide Accounted, Conserved, Chained, Carved, Threaded, Aligned, Capacity;
      LiveIsNotFree(block);
      KeepLinks(memory, freeHead, free, block, word);
      memory := memory[block := word];
    }
  }
}
