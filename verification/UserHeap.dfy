/** The user-space heap of user/stdlib.c: a first-fit free list over arenas from the
    kernel. A block's size is a span counted from its header, header included. */
module UserHeap {
  import opened Words

  const HEAP_BASE: nat := 0x40_0000
  const HEAP_END: nat := 0x80_0000

  /** sizeof(heap_block_t) rounded up to 8: next, size, used. */
  const HEADER: nat := 16

  /** HEAP_ALIGN8 on 32 bits. */
  function Align8(x: U32): (r: U32)
    ensures r % 8 == 0
    ensures x <= 0xFFFF_FFF8 ==> x <= r < x + 8
    ensures x > 0xFFFF_FFF8 ==> r == 0
  {
    Add32(x, 7) - Add32(x, 7) % 8
  }

  /** The span malloc looks for. */
  function Need(n: U32): U32 {
    Align8(Add32(n, HEADER))
  }

  /** What heap_grow asks the kernel for. */
  function Request(need: U32): U32 {
    var req := Add32(need, HEADER);
    Align8(if req < 4096 then 4096 else req)
  }

  /** The span of the block heap_grow makes of it. */
  function GrownSpan(need: U32): (r: nat)
    requires need % 8 == 0
    ensures r >= 4080 && r % 8 == 0
  {
    Request(need) - HEADER
  }

  /** The span covers header and payload exactly for requests up to 0xFFFFFFE8; above,
      the sum wraps to less than 24. */
  lemma NeedCovers(n: U32)
    requires n > 0
    ensures n + HEADER <= Need(n) <==> n <= 0xFFFF_FFE8
    ensures n <= 0xFFFF_FFE8 ==> 24 <= Need(n) < n + HEADER + 8
    ensures n > 0xFFFF_FFE8 ==> Need(n) <= 16
    ensures Need(n) % 8 == 0
  {
  }

  /** The block heap_grow makes satisfies the retry exactly outside a last band of sizes,
      for which the request wraps to a single page. */
  lemma GrowSuffices(n: U32)
    requires n > 0
    ensures Need(n) <= GrownSpan(Need(n)) <==> n <= 0xFFFF_FFD8 || n > 0xFFFF_FFE8
    ensures 4096 <= Request(Need(n)) && Request(Need(n)) % 8 == 0
    ensures 0xFFFF_FFD8 < n <= 0xFFFF_FFE8 ==> Request(Need(n)) == 4096 && Need(n) >= 0xFFFF_FFF0
  {
    NeedCovers(n);
  }

  // ---------------------------------------------------------------- the spans

  type Spans = map<nat, nat>

  predicate Overlap(a: nat, aLen: nat, b: nat, bLen: nat) {
    a < b + bLen && b < a + aLen
  }

  ghost predicate InArena(arenas: Spans, b: nat, len: nat) {
    exists a :: a in arenas && a <= b && b + len <= a + arenas[a]
  }

  /** Free and live blocks together: aligned, inside the spans arenas began with, pairwise
      disjoint. */
  ghost predicate Tiled(blocks: set<nat>, size: Spans, spans: Spans, brk: nat) {
    && HEAP_BASE <= brk <= HEAP_END && brk % PAGE_SIZE == 0
    && (forall a :: a in spans ==> HEAP_BASE <= a < brk && a + spans[a] <= brk)
    && (forall b :: b in blocks ==> b in size && b % 8 == 0 && size[b] % 8 == 0 && 24 <= size[b])
    && (forall b :: b in blocks ==> InArena(spans, b, size[b]))
    && (forall a, b :: a in blocks && b in blocks && a != b ==> !Overlap(a, size[a], b, size[b]))
  }

  lemma AboveHeapBase(blocks: set<nat>, size: Spans, spans: Spans, brk: nat)
    requires Tiled(blocks, size, spans, brk)
    ensures brk >= HEAP_BASE
  {
  }

  ghost predicate InBlock(blocks: set<nat>, size: Spans, x: nat) {
    exists b :: b in blocks && b in size && b <= x < b + size[b]
  }

  /** No byte of the spans the arenas began with is lost: each lies in a block. */
  ghost predicate Covered(blocks: set<nat>, size: Spans, spans: Spans) {
    forall a, x: nat :: a in spans && a <= x < a + spans[a] ==> InBlock(blocks, size, x)
  }

  lemma CoveredGrow(blocks: set<nat>, size: Spans, spans: Spans, brk: nat, span: nat)
    requires Covered(blocks, size, spans) && brk !in blocks
    ensures Covered(blocks + {brk}, size[brk := span], spans[brk := span])
  {
    var blocks', size', spans' := blocks + {brk}, size[brk := span], spans[brk := span];
    forall a, x: nat | a in spans' && a <= x < a + spans'[a] ensures InBlock(blocks', size', x) {
      if a == brk {
        assert brk in blocks' && size'[brk] == span;
      } else {
        assert InBlock(blocks, size, x);
        var b :| b in blocks && b in size && b <= x < b + size[b];
        assert b in blocks' && size'[b] == size[b];
      }
    }
  }

  lemma CoveredSplit(blocks: set<nat>, size: Spans, spans: Spans, b: nat, need: nat)
    requires Covered(blocks, size, spans) && b in blocks && b in size && need <= size[b] && b + need !in blocks
    ensures Covered(blocks + {b + need}, size[b + need := size[b] - need][b := need], spans)
  {
    var blocks', size' := blocks + {b + need}, size[b + need := size[b] - need][b := need];
    forall a, x: nat | a in spans && a <= x < a + spans[a] ensures InBlock(blocks', size', x) {
      assert InBlock(blocks, size, x);
      var c :| c in blocks && c in size && c <= x < c + size[c];
      var d := if c == b && x >= b + need then b + need else c;
      assert d in blocks' && d in size' && d <= x < d + size'[d];
    }
  }

  lemma BlockBounds(blocks: set<nat>, size: Spans, spans: Spans, brk: nat, b: nat)
    requires Tiled(blocks, size, spans, brk) && b in blocks
    ensures HEAP_BASE <= b && b in size && b + size[b] <= brk <= HEAP_END && b % 8 == 0
  {
  }

  lemma GrownApart(blocks: set<nat>, size: Spans, brk: nat, span: nat)
    requires forall b :: b in blocks ==> b in size && b + size[b] <= brk && b != brk
    requires forall a, b :: a in blocks && b in blocks && a != b ==> !Overlap(a, size[a], b, size[b])
    ensures var blocks', size' := blocks + {brk}, size[brk := span];
            forall a, b :: a in blocks' && b in blocks' && a != b ==> !Overlap(a, size'[a], b, size'[b])
  {
  }

  /** A new arena with one block in it. */
  lemma TiledGrow(blocks: set<nat>, size: Spans, spans: Spans, brk: nat, len: nat, span: nat)
    requires Tiled(blocks, size, spans, brk) && len % PAGE_SIZE == 0 && brk + len <= HEAP_END
    requires 24 <= span <= len && span % 8 == 0
    ensures brk !in blocks && brk !in spans && Tiled(blocks + {brk}, size[brk := span], spans[brk := span], brk + len)
  {
    hide InArena;
    var blocks', size', spans' := blocks + {brk}, size[brk := span], spans[brk := span];
    NewArena(spans, brk, span);
    forall b | b in blocks ensures b + size[b] <= brk {
      BlockBounds(blocks, size, spans, brk, b);
    }
    SpansBelow(blocks, size, spans, brk);
    GrownApart(blocks, size, brk, span);
    forall b | b in blocks' ensures InArena(spans', b, size'[b]) {
      if b != brk {
        ArenasGrow(spans, brk, span, b, size[b]);
      }
    }
  }

  lemma SpansBelow(blocks: set<nat>, size: Spans, spans: Spans, brk: nat)
    requires Tiled(blocks, size, spans, brk)
    ensures forall a :: a in spans ==> a < brk
  {
  }

  lemma NewArena(spans: Spans, brk: nat, n: nat)
    ensures InArena(spans[brk := n], brk, n)
  {
    assert brk in spans[brk := n];
  }

  lemma ArenasGrow(arenas: Spans, brk: nat, len: nat, b: nat, n: nat)
    requires InArena(arenas, b, n) && b < brk && forall a :: a in arenas ==> a + arenas[a] <= brk
    requires n > 0
    ensures InArena(arenas[brk := len], b, n)
  {
    var a :| a in arenas && a <= b && b + n <= a + arenas[a];
    assert a in arenas[brk := len] && arenas[brk := len][a] == arenas[a];
  }

  lemma SplitApart(blocks: set<nat>, size: Spans, b: nat, need: nat)
    requires b in blocks && (forall c :: c in blocks ==> c in size) && 0 < need < size[b] && b + need !in blocks
    requires forall c, d :: c in blocks && d in blocks && c != d ==> !Overlap(c, size[c], d, size[d])
    ensures var blocks', size' := blocks + {b + need}, size[b + need := size[b] - need][b := need];
            forall c, d :: c in blocks' && d in blocks' && c != d ==> !Overlap(c, size'[c], d, size'[d])
  {
    var blocks', size' := blocks + {b + need}, size[b + need := size[b] - need][b := need];
    forall c, d | c in blocks' && d in blocks' && c != d ensures !Overlap(c, size'[c], d, size'[d]) {
      var c0, d0 := if c == b + need then b else c, if d == b + need then b else d;
      assert c0 != d0 ==> !Overlap(c0, size[c0], d0, size[d0]);
    }
  }

  /** Splitting a block leaves two that tile its span. */
  lemma TiledSplit(blocks: set<nat>, size: Spans, spans: Spans, brk: nat, b: nat, need: nat)
    requires Tiled(blocks, size, spans, brk) && b in blocks && need % 8 == 0 && 24 <= need && need + 24 <= size[b]
    ensures b + need !in blocks
    ensures Tiled(blocks + {b + need}, size[b + need := size[b] - need][b := need], spans, brk)
  {
    var blocks', size' := blocks + {b + need}, size[b + need := size[b] - need][b := need];
    assert b + need in blocks ==> Overlap(b, size[b], b + need, size[b + need]);
    forall c | c in blocks' ensures InArena(spans, c, size'[c]) {
      var d := if c == b + need then b else c;
      var a :| a in spans && a <= d && d + size[d] <= a + spans[a];
      assert a in spans && a <= c && c + size'[c] <= a + spans[a];
    }
    SplitApart(blocks, size, b, need);
  }

  // ------------------------------------------------------------ the free list

  function At(free: seq<nat>, k: nat): nat {
    if k < |free| then free[k] else 0
  }

  /** The links run through the free blocks in order. */
  ghost predicate Chained(free: seq<nat>, head: nat, next: map<nat, nat>) {
    && Distinct(free) && head == At(free, 0)
    && forall k :: 0 <= k < |free| ==> LinkAt(free, next, k)
  }

  ghost predicate LinkAt(free: seq<nat>, next: map<nat, nat>, k: int)
    requires 0 <= k < |free|
  {
    free[k] != 0 && free[k] in next && next[free[k]] == At(free, k + 1)
  }

  /** Blocks are either free, once, or live, and say so in their header. */
  ghost predicate Flagged(free: seq<nat>, live: set<nat>, used: map<nat, bool>) {
    && (forall k :: 0 <= k < |free| ==> free[k] !in live && free[k] in used && !used[free[k]])
    && (forall b :: b in live ==> b in used && used[b])
  }

  ghost function Members(free: seq<nat>): set<nat> {
    set k | 0 <= k < |free| :: free[k]
  }

  lemma ChainedPush(free: seq<nat>, head: nat, next: map<nat, nat>, b: nat)
    requires Chained(free, head, next) && b != 0 && b !in free
    ensures Chained([b] + free, b, next[b := head]) && Members([b] + free) == Members(free) + {b}
  {
    var free', next' := [b] + free, next[b := head];
    forall k | 0 <= k < |free'| ensures LinkAt(free', next', k) {
      if k > 0 {
        assert free'[k] == free[k - 1] && LinkAt(free, next, k - 1);
      }
    }
    assert free'[0] == b && forall k :: 0 <= k < |free| ==> free'[k + 1] == free[k];
  }

  /** The list with `b` behind element `k`, and without element `k`. */
  function Inserted(free: seq<nat>, k: nat, b: nat): seq<nat>
    requires k < |free|
  {
    free[..k + 1] + [b] + free[k + 1..]
  }

  function Removed(free: seq<nat>, k: nat): seq<nat>
    requires k < |free|
  {
    free[..k] + free[k + 1..]
  }

  /** The list once a block of `need` bytes is taken from element `k`: a remainder of use stays
      in its place. */
  function TakenFree(free: seq<nat>, size: Spans, k: nat, need: nat): seq<nat>
    requires k < |free| && free[k] in size
  {
    if size[free[k]] >= need + HEADER + 8 then free[k := free[k] + need] else Removed(free, k)
  }

  function TakenSize(free: seq<nat>, size: Spans, k: nat, need: nat): Spans
    requires k < |free| && free[k] in size
  {
    if size[free[k]] >= need + HEADER + 8
    then size[free[k] + need := size[free[k]] - need][free[k] := need]
    else size
  }

  /** A block of `need` bytes is taken from element `k` and handed out at `p`. */
  ghost predicate Took(free: seq<nat>, size: Spans, k: nat, need: nat, p: nat, free': seq<nat>, size': Spans) {
    && k < |free| && free[k] in size && p == free[k] + HEADER
    && free' == TakenFree(free, size, k, need) && size' == TakenSize(free, size, k, need)
  }

  lemma InsertedRemoved(free: seq<nat>, k: nat, b: nat)
    requires k < |free|
    ensures k < |Inserted(free, k, b)| && Removed(Inserted(free, k, b), k) == free[k := b]
  {
  }

  lemma ChainedInsert(free: seq<nat>, head: nat, next: map<nat, nat>, k: nat, b: nat)
    requires Chained(free, head, next) && k < |free| && b != 0 && b !in free
    ensures LinkAt(free, next, k) && Chained(Inserted(free, k, b), head, next[b := next[free[k]]][free[k] := b])
    ensures Members(Inserted(free, k, b)) == Members(free) + {b}
  {
    assert LinkAt(free, next, k);
    var free', next' := Inserted(free, k, b), next[b := next[free[k]]][free[k] := b];
    forall i | 0 <= i < |free'| ensures LinkAt(free', next', i) {
      assert i < k ==> LinkAt(free, next, i) && At(free', i + 1) == At(free, i + 1);
      assert i > k + 1 ==> LinkAt(free, next, i - 1) && At(free', i + 1) == At(free, i);
      assert i == k + 1 ==> At(free', i + 1) == At(free, k + 1);
    }
    forall c | c in Members(free) ensures c in Members(free') {
      var i :| 0 <= i < |free| && free[i] == c;
      assert free'[if i <= k then i else i + 1] == c;
    }
    assert free'[k + 1] == b;
  }

  /** Unlinking element `k`: the pointer that led to it leads behind it. */
  lemma ChainedRemove(free: seq<nat>, head: nat, next: map<nat, nat>, k: nat)
    requires Chained(free, head, next) && k < |free|
    ensures LinkAt(free, next, k)
    ensures k == 0 ==> Chained(Removed(free, k), next[free[k]], next[free[k] := 0])
    ensures k > 0 ==> Chained(Removed(free, k), head, next[free[k - 1] := next[free[k]]][free[k] := 0])
    ensures Members(Removed(free, k)) == Members(free) - {free[k]}
  {
    assert LinkAt(free, next, k);
    var free' := Removed(free, k);
    var next' := if k == 0 then next[free[k] := 0] else next[free[k - 1] := next[free[k]]][free[k] := 0];
    forall i | 0 <= i < |free'| ensures LinkAt(free', next', i) {
      assert i < k ==> LinkAt(free, next, i) && (i + 1 < k ==> At(free', i + 1) == At(free, i + 1));
      assert i + 1 == k ==> At(free', i + 1) == At(free, k + 1);
      assert i >= k ==> LinkAt(free, next, i + 1) && At(free', i + 1) == At(free, i + 2);
    }
    forall c | c in Members(free) && c != free[k] ensures c in Members(free') {
      var i :| 0 <= i < |free| && free[i] == c;
      assert free'[if i < k then i else i - 1] == c;
    }
    assert At(free', 0) == if k == 0 then At(free, 1) else free[0];
  }

  lemma InFree(free: seq<nat>, b: nat)
    ensures b in free <==> b in Members(free)
  {
  }

  lemma FlaggedPush(free: seq<nat>, live: set<nat>, used: map<nat, bool>, b: nat)
    requires Flagged(free, live, used) && b !in free
    ensures Flagged([b] + free, live - {b}, used[b := false])
  {
  }

  lemma FlaggedInsert(free: seq<nat>, live: set<nat>, used: map<nat, bool>, k: nat, b: nat)
    requires Flagged(free, live, used) && k < |free| && b !in live && b !in free
    ensures Flagged(Inserted(free, k, b), live, used[b := false])
  {
  }

  lemma FlaggedRemove(free: seq<nat>, live: set<nat>, used: map<nat, bool>, k: nat)
    requires Flagged(free, live, used) && Distinct(free) && k < |free|
    ensures Flagged(Removed(free, k), live + {free[k]}, used[free[k] := true]) && free[k] !in live
  {
  }

  // ----------------------------------------------------------------- the heap

  /** Element `k` is the first free block of at least `need` bytes. */
  ghost predicate IsFirstFit(free: seq<nat>, size: map<nat, nat>, need: nat, k: nat) {
    && k < |free| && free[k] in size && size[free[k]] >= need
    && forall i :: 0 <= i < k ==> free[i] in size && size[free[i]] < need
  }

  /** A block taken leaves its rest in its place in the list, if that is a block of 24 bytes or
      more, and else leaves the list. */
  lemma TookIs(free: seq<nat>, size: Spans, k: nat, need: nat, p: nat, free': seq<nat>, size': Spans)
    requires Took(free, size, k, need, p, free', size') && need > 0
    ensures k < |free| && free[k] in size && p == free[k] + 16
    ensures size[free[k]] >= need + 24 ==>
      && |free'| == |free| && free'[k] == free[k] + need && free'[..k] == free[..k] && free'[k + 1..] == free[k + 1..]
      && free[k] in size' && size'[free[k]] == need
      && free[k] + need in size' && size'[free[k] + need] == size[free[k]] - need
      && forall b :: b != free[k] && b != free[k] + need ==>
        (b in size' <==> b in size) && (b in size ==> size'[b] == size[b])
    ensures size[free[k]] < need + 24 ==> free' == free[..k] + free[k + 1..] && size' == size
  {
  }

  /** No block before it in the list would do, and it does. */
  lemma FirstFitIs(free: seq<nat>, size: map<nat, nat>, need: nat, k: nat)
    requires IsFirstFit(free, size, need, k)
    ensures k < |free| && free[k] in size && size[free[k]] >= need
    ensures forall i :: 0 <= i < k ==> free[i] in size && size[free[i]] < need
  {
  }

  class FreeListHeap {
    var head: nat
    /** The header fields, by block address. */
    var next: map<nat, nat>
    var size: map<nat, nat>
    var used: map<nat, bool>
    /** Where the kernel maps the next arena (heap_current of the task). */
    var brk: nat

    ghost var free: seq<nat>
    ghost var live: set<nat>
    /** What the kernel mapped, and the span of the block each arena began as. */
    ghost var arenas: Spans
    ghost var spans: Spans
    /** How often the kernel has refused an arena. */
    ghost var refusals: nat

    ghost predicate Valid()
      reads this
    {
      && Tiled(Members(free) + live, size, spans, brk) && Covered(Members(free) + live, size, spans)
      && Chained(free, head, next) && Flagged(free, live, used) && Mapped(spans, arenas)
    }

    constructor ()
      ensures Valid() && live == {} && free == [] && spans == map[] && brk == 0x40_0000 && refusals == 0
    {
      head, next, size, used, brk := 0, map[], map[], map[], HEAP_BASE;
      free, live, arenas, spans, refusals := [], {}, map[], map[], 0;
    }

    /** SYS_KALLOC: 0, or fresh pages at the end of the kernel's heap window. */
    method SysKalloc(req: U32) returns (mem: nat)
      requires brk % PAGE_SIZE == 0 && brk > 0
      modifies this`brk, this`arenas, this`refusals
      ensures mem == 0 ==> brk == old(brk) && arenas == old(arenas) && refusals == old(refusals) + 1
      ensures mem != 0 ==> mem == old(brk) && PageAlignUp(req) > 0 && brk == mem + PageAlignUp(req) <= 0x80_0000
      ensures mem != 0 ==> arenas == old(arenas)[mem := PageAlignUp(req)] && refusals == old(refusals)
    {
      var bytes := PageAlignUp(req);
      if bytes == 0 || brk + bytes > HEAP_END {
        refusals := refusals + 1;
        return 0;
      }
      if * {
        refusals := refusals + 1;
        return 0;
      }
      mem := brk;
      brk := brk + bytes;
      arenas := arenas[mem := bytes];
    }

    /** heap_grow: one free block in a new arena, at the front of the list, unless the kernel
        refuses it. */
    method HeapGrow(need: U32) returns (block: nat)
      requires Valid() && need % 8 == 0
      modifies this
      ensures Valid() && live == old(live)
      ensures refusals == old(refusals) + if block == 0 then 1 else 0
      ensures block == 0 ==> size == old(size) && brk == old(brk) && free == old(free) && spans == old(spans)
      ensures block != 0 ==> block == old(brk) && block !in old(live) && free == [block] + old(free)
      ensures block != 0 ==> brk == block + PageAlignUp(Request(need)) > block
      ensures block != 0 ==> size == old(size)[block := GrownSpan(need)]
      ensures block != 0 ==> block !in old(spans) && spans == old(spans)[block := GrownSpan(need)]
    {
      hide Tiled, Covered, Chained, Flagged, Mapped, Members, PageAlignUp, Align8;
      ValidFacts();
      var req: U32 := Add32(need, HEADER);
      if req < 4096 {
        req := 4096;
      }
      req := Align8(req);
      var mem := SysKalloc(req);
      if mem == 0 {
        return 0;
      }
      RequestFits(need);
      Push(mem, req - HEADER, old(arenas), PageAlignUp(req));
      return mem;
    }

    /** The pages just mapped become one free block at the front of the list. */
    method Push(mem: nat, span: nat, ghost arenas0: Spans, ghost len: nat)
      requires Tiled(Members(free) + live, size, spans, mem) && Covered(Members(free) + live, size, spans)
      requires Chained(free, head, next) && Flagged(free, live, used) && Mapped(spans, arenas0)
      requires arenas == arenas0[mem := len] && brk == mem + len <= HEAP_END && len % PAGE_SIZE == 0
      requires 24 <= span <= len && span % 8 == 0
      modifies this`head, this`next, this`size, this`used, this`free, this`spans
      ensures Valid() && mem !in live && mem !in old(spans)
      ensures free == [mem] + old(free) && size == old(size)[mem := span] && spans == old(spans)[mem := span]
    {
      hide Tiled, Covered, Chained, Flagged, Mapped, Members;
      ghost var blocks := Members(free) + live;
      TiledGrow(blocks, size, spans, mem, len, span);
      CoveredGrow(blocks, size, spans, mem, span);
      MappedOn(spans, arenas0, mem, span, len);
      AboveHeapBase(blocks, size, spans, mem);
      InFree(free, mem);
      ChainedPush(free, head, next, mem);
      FlaggedPush(free, live, used, mem);
      assert live - {mem} == live;
      size := size[mem := span];
      used := used[mem := false];
      next := next[mem := head];
      head := mem;
      free := [mem] + free;
      spans := spans[mem := span];
      assert Members(free) + live == blocks + {mem};
    }

    /** Cuts the tail of a free block off as a free block of its own, next in the list. */
    method Split(block: nat, need: U32, ghost k: nat)
      requires Valid() && k < |free| && free[k] == block && need % 8 == 0 && need + HEADER + 8 <= size[block]
      modifies this`next, this`size, this`used, this`free
      ensures block in size && size[block] == need && block in next && block in old(size)
      ensures need >= 24 ==> Valid() && free == Inserted(old(free), k, block + need)
      ensures need >= 24 ==> size == old(size)[block + need := old(size)[block] - need][block := need]
      ensures need >= 24 ==> forall b :: b in live ==> b in size && size[b] == old(size)[b]
    {
      hide Tiled, Covered, Chained, Flagged, Members, Inserted;
      ghost var blocks := Members(free) + live;
      MemberIs(free, k);
      BlockBounds(blocks, size, spans, brk, block);
      ValidFacts();
      LinkIs(free, head, next, k);
      var remainder := block + need;
      if need >= 24 {
        TiledSplit(blocks, size, spans, brk, block, need);
        CoveredSplit(blocks, size, spans, block, need);
        InFree(free, remainder);
        ChainedInsert(free, head, next, k, remainder);
        FlaggedInsert(free, live, used, k, remainder);
        FreeIsNotLive(free, live, used, k);
      }
      size := size[remainder := size[block] - need];
      used := used[remainder := false];
      next := next[remainder := next[block]];
      size := size[block := need];
      next := next[block := remainder];
      if need >= 24 {
        free := Inserted(free, k, remainder);
        assert Members(free) + live == blocks + {remainder};
      }
    }

    /** Takes a block out of the list and marks it used; `proper` says that no wrapped
        request has spoilt the headers before. */
    method Unlink(prev: nat, block: nat, ghost k: nat, ghost proper: bool)
      requires block in next
      requires proper ==> Valid() && k < |free| && free[k] == block && prev == if k == 0 then 0 else free[k - 1]
      modifies this`head, this`next, this`used, this`free, this`live
      ensures proper ==> Valid() && live == old(live) + {block} && block !in old(live)
      ensures proper ==> free == Removed(old(free), k)
    {
      hide Tiled, Covered, Flagged, Members, Removed;
      ghost var blocks := Members(free) + live;
      if proper {
        MemberIs(free, k);
        ChainedRemove(free, head, next, k);
        FlaggedRemove(free, live, used, k);
        assert k > 0 ==> LinkAt(free, next, k - 1);
      }
      if prev == 0 {
        head := next[block];
      } else {
        next := next[prev := next[block]];
      }
      used := used[block := true];
      next := next[block := 0];
      if proper {
        free := Removed(free, k);
        live := live + {block};
        assert Members(free) + live == blocks;
      }
    }

    /** malloc's body for a block that is large enough: it goes live, and what it has too much
        stays in the list. */
    method Take(prev: nat, block: nat, need: U32, ghost k: nat) returns (p: nat)
      requires Valid() && k < |free| && free[k] == block && prev == if k == 0 then 0 else free[k - 1]
      requires block in size && size[block] >= need && need % 8 == 0
      modifies this`head, this`next, this`size, this`used, this`free, this`live
      ensures p == block + HEADER && block in size && size[block] <= old(size)[block]
      ensures need >= 24 ==> Valid() && live == old(live) + {block} && block !in old(live)
      ensures need >= 24 ==> need <= size[block] < need + 24
      ensures need >= 24 ==> Took(old(free), old(size), k, need, p, free, size)
      ensures need >= 24 ==> forall b :: b in old(live) ==> b in size && size[b] == old(size)[b]
    {
      hide Tiled, Covered, Flagged, Inserted, Removed;
      assert LinkAt(free, next, k);
      ValidFacts();
      InsertedRemoved(free, k, block + need);
      InsertedAt(free, k, block + need);
      if size[block] >= need + HEADER + 8 {
        Split(block, need, k);
      }
      Unlink(prev, block, k, need >= 24);
      return block + HEADER;
    }

    lemma ValidFacts()
      requires Valid()
      ensures HEAP_BASE <= brk <= HEAP_END && brk % PAGE_SIZE == 0
      ensures forall b :: b in live ==> b in size
    {
    }

    /** malloc. A request up to 0xFFFFFFE8 bytes is served from the first free block that fits,
        and otherwise from a new arena; it fails exactly if the kernel refuses one. The last
        sixteen of these sizes never fit: retry after retry takes a page, till it is refused.
        Larger requests get a block that is too small. */
    method Malloc(n: U32) returns (p: nat, ghost retries: nat)
      requires Valid()
      modifies this
      ensures n <= 0xFFFF_FFE8 || p == 0 ==> Valid()
      ensures p == 0 ==> live == old(live)
      ensures p != 0 && n <= 0xFFFF_FFE8 ==>
        IsBlock(p, n) && live == old(live) + {p - HEADER} && p - HEADER !in old(live)
      ensures p != 0 && n <= 0xFFFF_FFE8 ==>
        p >= 16 && p % 8 == 0 && p - 16 in size && n + 16 <= size[p - 16] < n + 48
      ensures n <= 0xFFFF_FFE8 ==> forall b :: b in old(live) ==> b in size && b in old(size) && size[b] == old(size)[b]
      ensures p != 0 && n > 0xFFFF_FFE8 ==> !IsBlock(p, n)
      ensures n == 0 ==> p == 0 && unchanged(this)
      ensures n > 0 ==> refusals == old(refusals) + if p == 0 then 1 else 0
      ensures old(HasFit(n)) ==> retries == 0 && (n > 0 ==> p != 0)
      ensures n > 0 && old(HasFit(n)) ==>
        exists k: nat :: IsFirstFit(old(free), old(size), Need(n), k) && p == old(free)[k] + HEADER
      ensures 0 < n <= 0xFFFF_FFE8 && old(HasFit(n)) ==> brk == old(brk) && spans == old(spans)
      ensures 0 < n <= 0xFFFF_FFE8 && old(HasFit(n)) ==>
        exists k: nat ::
          IsFirstFit(old(free), old(size), Need(n), k) && Took(old(free), old(size), k, Need(n), p, free, size)
      ensures 0 < n <= 0xFFFF_FFD8 && !old(HasFit(n)) ==> retries == if p == 0 then 0 else 1
      ensures p == 0 && n <= 0xFFFF_FFD8 ==>
        brk == old(brk) && free == old(free) && size == old(size) && spans == old(spans)
      ensures p != 0 && n <= 0xFFFF_FFD8 && !old(HasFit(n)) ==>
        && brk == old(brk) + PageAlignUp(Request(Need(n)))
        && Took([old(brk)] + old(free), old(size)[old(brk) := GrownSpan(Need(n))], 0, Need(n), p, free, size)
      ensures 0xFFFF_FFD8 < n <= 0xFFFF_FFE8 ==>
        p == 0 && brk == old(brk) + PAGE_SIZE * retries && |free| == |old(free)| + retries
      decreases HEAP_END - brk
    {
      hide Tiled, Covered, Chained, Flagged, Need, Took, PageAlignUp, Request, Mapped, GrownSpan, LinkAt;
      retries := 0;
      ValidFacts();
      if n == 0 {
        return 0, 0;
      }
      NeedCovers(n);
      var need := Need(n);
      var prev, block := 0, head;
      ghost var k := 0;
      ListFacts(k);
      while block != 0
        invariant k <= |free| && block == At(free, k) && prev == if k == 0 then 0 else free[k - 1]
        invariant Valid() && unchanged(this)
        invariant forall i :: 0 <= i < k ==> free[i] in size && size[free[i]] < need
        decreases |free| - k
      {
        ListFacts(k);
        if size[block] >= need {
          assert IsFirstFit(old(free), old(size), need, k);
          p := Take(prev, block, need, k);
          return;
        }
        prev := block;
        block := next[block];
        k := k + 1;
      }
      GrowSuffices(n);
      ListFacts(k);
      var grown := HeapGrow(need);
      if grown == 0 {
        return 0, 0;
      }
      OnePageGrown(n);
      assert n <= 0xFFFF_FFD8 ==> free[0] in size && size[free[0]] >= need;
      p, retries := Malloc(n);
      retries := retries + 1;
    }

    /** A free block is large enough for `n` bytes. */
    ghost predicate HasFit(n: U32)
      reads this`free, this`size
    {
      exists k :: 0 <= k < |free| && free[k] in size && size[free[k]] >= Need(n)
    }

    /** What following the list gives. */
    lemma ListFacts(k: nat)
      requires Valid() && k <= |free|
      ensures head == At(free, 0) && (At(free, k) == 0 <==> k == |free|) && HEAP_BASE <= brk <= HEAP_END
      ensures k < |free| ==>
        && free[k] % 8 == 0 && free[k] in size && size[free[k]] <= HEAP_END
        && free[k] in next && next[free[k]] == At(free, k + 1)
    {
      if k < |free| {
        assert LinkAt(free, next, k);
        MemberIs(free, k);
        BlockBounds(Members(free) + live, size, spans, brk, free[k]);
      }
    }

    /** `p` is the payload of a block with room for `n` bytes. */
    predicate IsBlock(p: nat, n: nat)
      reads this`size
    {
      p >= HEADER && p % 8 == 0 && p - HEADER in size && p + n <= p - HEADER + size[p - HEADER]
    }

    /** free, on a pointer malloc gave and nobody freed since: the block is at the front of the
        list, whole. */
    method Free(p: nat)
      requires Valid() && (p == 0 || (p >= HEADER && p - HEADER in live))
      modifies this`head, this`next, this`used, this`free, this`live
      ensures Valid() && live == if p == 0 then old(live) else old(live) - {p - HEADER}
      ensures free == if p == 0 then old(free) else [p - HEADER] + old(free)
    {
      hide Covered;
      if p == 0 {
        return;
      }
      var block := p - HEADER;
      ghost var blocks := Members(free) + live;
      BlockBounds(blocks, size, spans, brk, block);
      assert block !in free;
      ChainedPush(free, head, next, block);
      used := used[block := false];
      next := next[block := head];
      head := block;
      free := [block] + free;
      live := live - {block};
      assert Members(free) + live == blocks;
    }
  }

  /** The block an arena began as lies inside it. */
  ghost predicate Mapped(spans: Spans, arenas: Spans) {
    forall a :: a in spans ==> a in arenas && spans[a] <= arenas[a]
  }

  lemma MappedOn(spans: Spans, arenas: Spans, a: nat, span: nat, len: nat)
    requires Mapped(spans, arenas) && span <= len
    ensures Mapped(spans[a := span], arenas[a := len])
  {
  }

  /** In the band whose requests wrap, an arena is one page. */
  lemma OnePageGrown(n: U32)
    requires n > 0
    ensures 0xFFFF_FFD8 < n <= 0xFFFF_FFE8 ==> PageAlignUp(Request(Need(n))) == PAGE_SIZE
  {
    GrowSuffices(n);
    hide Need, Request;
  }

  lemma LinkIs(free: seq<nat>, head: nat, next: map<nat, nat>, k: nat)
    requires Chained(free, head, next) && k < |free|
    ensures free[k] in next && next[free[k]] == At(free, k + 1)
  {
    assert LinkAt(free, next, k);
  }

  lemma InsertedAt(free: seq<nat>, k: nat, b: nat)
    requires k < |free|
    ensures k < |Inserted(free, k, b)| && Inserted(free, k, b)[k] == free[k]
    ensures k > 0 ==> Inserted(free, k, b)[k - 1] == free[k - 1]
  {
  }

  lemma FreeIsNotLive(free: seq<nat>, live: set<nat>, used: map<nat, bool>, k: nat)
    requires Flagged(free, live, used) && k < |free|
    ensures free[k] !in live
  {
  }

  lemma MemberIs(free: seq<nat>, k: nat)
    requires k < |free|
    ensures free[k] in Members(free)
  {
  }

  lemma RequestFits(need: U32)
    requires need % 8 == 0
    ensures 4096 <= Request(need) && Request(need) % 8 == 0
    ensures PageAlignUp(Request(need)) > 0 ==>
      Request(need) <= PageAlignUp(Request(need)) && PageAlignUp(Request(need)) % PAGE_SIZE == 0
  {
  }

  // ------------------------------------------------------------------ the user

  /** Live payloads never share a byte, and no free block reaches into one, whatever was
      split and recycled before. */
  lemma PayloadsApart(heap: FreeListHeap, p: nat, n: nat, b: nat)
    requires heap.Valid() && p >= HEADER && p - HEADER in heap.live && heap.IsBlock(p, n)
    requires (b in heap.live || b in heap.free) && b != p - HEADER
    ensures b in heap.size && (p + n <= b || b + heap.size[b] <= p - HEADER)
    ensures p % 8 == 0 && InArena(heap.arenas, p, n)
  {
    hide Covered;
    InFree(heap.free, b);
    var a :| a in heap.spans && a <= p - HEADER && p - HEADER + heap.size[p - HEADER] <= a + heap.spans[a];
    assert a in heap.arenas;
  }

  /** No byte is lost, whatever was split and recycled before: each byte of the block an arena
      began as lies in one block, free or live, and in one only. */
  lemma BytesConserved(heap: FreeListHeap, a: nat, x: nat)
    requires heap.Valid() && a in heap.spans && a <= x < a + heap.spans[a]
    ensures exists b :: HoldsByte(heap, b, x)
    ensures forall b, c :: HoldsByte(heap, b, x) && HoldsByte(heap, c, x) ==> b == c
  {
    var blocks := Members(heap.free) + heap.live;
    assert InBlock(blocks, heap.size, x);
    var b :| b in blocks && b in heap.size && b <= x < b + heap.size[b];
    InFree(heap.free, b);
    assert HoldsByte(heap, b, x);
    forall b, c | HoldsByte(heap, b, x) && HoldsByte(heap, c, x) ensures b == c {
      OneHolds(heap, b, c, x);
    }
  }

  lemma OneHolds(heap: FreeListHeap, b: nat, c: nat, x: nat)
    requires heap.Valid() && HoldsByte(heap, b, x) && HoldsByte(heap, c, x)
    ensures b == c
  {
    hide Covered, Chained, Flagged, Mapped, InArena;
    InFree(heap.free, b);
    InFree(heap.free, c);
    assert Overlap(b, heap.size[b], c, heap.size[c]);
  }

  /** Byte `x` lies in the free or live block `b`. */
  ghost predicate HoldsByte(heap: FreeListHeap, b: nat, x: nat)
    reads heap
  {
    (b in heap.free || b in heap.live) && b in heap.size && b <= x < b + heap.size[b]
  }

  /** One call in front of a wrapped request is enough: the block it gets is too small. */
  method TooSmallExample() returns (heap: FreeListHeap, p: nat)
    ensures p != 0 <==> heap.refusals == 0
    ensures p != 0 ==> !heap.IsBlock(p, 0xFFFF_FFFF)
  {
    hide Tiled, Covered, Chained, Flagged, Mapped, Members;
    heap := new FreeListHeap();
    var block := heap.HeapGrow(24);
    p := 0;
    if block != 0 {
      ghost var retries;
      assert heap.free[0] == block && heap.size[block] >= Need(0xFFFF_FFFF);
      p, retries := heap.Malloc(0xFFFF_FFFF);
    }
  }

  // -------------------------------------------------------------- whole runs

  datatype HeapCall = Alloc(n: U32) | Release(k: nat)

  function BlockAt(p: nat): nat {
    if p >= HEADER then p - HEADER else 0
  }

  /** The blocks behind some payloads. */
  ghost function BlocksOf(held: seq<nat>): set<nat> {
    set k | 0 <= k < |held| :: BlockAt(held[k])
  }

  /** What a program holds: different live blocks, each with room for what was asked. */
  ghost predicate Holds(heap: FreeListHeap, held: seq<nat>, asked: seq<U32>)
    reads heap
  {
    && heap.Valid() && |asked| == |held| && Distinct(held) && heap.live == BlocksOf(held)
    && forall k :: 0 <= k < |held| ==> heap.IsBlock(held[k], asked[k])
  }

  /** Any run of malloc and free, by a program that frees only what it holds: all that is held
      is live, with room for what was asked, and nothing else is. */
  method Play(heap: FreeListHeap, calls: seq<HeapCall>) returns (held: seq<nat>, asked: seq<U32>)
    requires heap.Valid() && heap.live == {} && forall c :: c in calls && c.Alloc? ==> c.n <= 0xFFFF_FFE8
    modifies heap
    ensures Holds(heap, held, asked)
  {
    held, asked := [], [];
    var i := 0;
    while i < |calls|
      invariant 0 <= i <= |calls| && Holds(heap, held, asked)
    {
      match calls[i] {
        case Alloc(n) => held, asked := Ask(heap, held, asked, n);
        case Release(k) =>
          if k < |held| {
            held, asked := GiveUp(heap, held, asked, k);
          }
      }
      i := i + 1;
    }
  }

  method Ask(heap: FreeListHeap, held: seq<nat>, asked: seq<U32>, n: U32) returns (held': seq<nat>, asked': seq<U32>)
    requires Holds(heap, held, asked) && n <= 0xFFFF_FFE8
    modifies heap
    ensures Holds(heap, held', asked')
  {
    hide Tiled, Covered, Chained, Flagged, Mapped, Members;
    held', asked' := held, asked;
    var p, retries := heap.Malloc(n);
    if p != 0 {
      held', asked' := held + [p], asked + [n];
      BlocksMore(held, p);
    }
  }

  lemma BlocksMore(held: seq<nat>, p: nat)
    ensures BlocksOf(held + [p]) == BlocksOf(held) + {BlockAt(p)}
  {
    var all := held + [p];
    assert all[|held|] == p && forall k :: 0 <= k < |held| ==> all[k] == held[k];
  }

  method GiveUp(heap: FreeListHeap, held: seq<nat>, asked: seq<U32>, k: nat)
    returns (held': seq<nat>, asked': seq<U32>)
    requires Holds(heap, held, asked) && k < |held|
    modifies heap
    ensures Holds(heap, held', asked')
  {
    hide Tiled, Covered, Chained, Flagged, Mapped, Members;
    heap.Free(held[k]);
    held', asked' := held[..k] + held[k + 1..], asked[..k] + asked[k + 1..];
    BlocksLess(held, k);
  }

  lemma BlocksLess(held: seq<nat>, k: nat)
    requires k < |held| && Distinct(held) && forall i :: 0 <= i < |held| ==> held[i] >= HEADER
    ensures BlocksOf(held[..k] + held[k + 1..]) == BlocksOf(held) - {BlockAt(held[k])}
  {
    var rest := held[..k] + held[k + 1..];
    forall i | 0 <= i < |held| && i != k ensures BlockAt(held[i]) in BlocksOf(rest) {
      assert rest[if i < k then i else i - 1] == held[i];
    }
    forall j | 0 <= j < |rest| ensures BlockAt(rest[j]) in BlocksOf(held) - {BlockAt(held[k])} {
      assert rest[j] == held[if j < k then j else j + 1];
    }
  }

  /** When all is given up again, every byte the kernel has given is free. */
  lemma NothingHeld(heap: FreeListHeap, asked: seq<U32>, a: nat, x: nat)
    requires Holds(heap, [], asked) && a in heap.spans && a <= x < a + heap.spans[a]
    ensures exists b :: b in heap.free && HoldsByte(heap, b, x)
  {
    BytesConserved(heap, a, x);
  }
}
