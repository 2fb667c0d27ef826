/** The block allocator: pages cut into equal blocks, free lists per block size, and whole pages for big requests. */
module Malloc {
  import opened Common
  import opened Bitmap
  import Palloc

  const ARENA_HEADER := 12              // magic, descriptor, count
  const DESC_CNT := 7

  type size_t = x: nat | x < WORD

  // ---------------------------------------------------------------- blocks and their addresses

  datatype Desc = Desc(blockSize: nat, blocksPerArena: nat)

  function BlockSize(d: nat): (bs: nat)
    requires d < DESC_CNT
    ensures 16 <= bs <= 1024
  {
    match d
    case 0 => 16 case 1 => 32 case 2 => 64 case 3 => 128 case 4 => 256 case 5 => 512 case _ => 1024
  }

  function PerArena(d: nat): (n: nat)
    requires d < DESC_CNT
    ensures n > 1 && 12 + n * BlockSize(d) <= 4096 < 12 + (n + 1) * BlockSize(d)
  {
    (PGSIZE - ARENA_HEADER) / BlockSize(d)
  }

  /** Block sizes are the powers of two from 16 bytes on. */
  lemma BlockSizesDouble(d: nat)
    requires 0 < d < 7
    ensures BlockSize(0) == 16 && BlockSize(d) == 2 * BlockSize(d - 1)
  {
  }

  /** Block `idx` of the arena in `page`; a big block is number 0 of its arena. */
  datatype Block = Block(page: nat, idx: nat)

  /** The address of a block of `bs` bytes. */
  function ArenaToBlock(b: Block, bs: nat): (addr: nat)
    ensures addr >= b.page * PGSIZE + ARENA_HEADER
  {
    MulLe(0, b.idx, bs);
    b.page * PGSIZE + ARENA_HEADER + b.idx * bs
  }

  function BlockToArena(addr: nat): nat {
    addr / PGSIZE
  }

  function BlockIndex(addr: nat, bs: nat): nat
    requires bs > 0 && addr % PGSIZE >= ARENA_HEADER
  {
    (addr % PGSIZE - ARENA_HEADER) / bs
  }

  /** The arena and the number of a block can be read off its address. */
  lemma BlockToArenaInverts(b: Block, bs: nat, n: nat)
    requires bs > 0 && b.idx < n && ARENA_HEADER + n * bs <= PGSIZE
    ensures var addr := ArenaToBlock(b, bs);
      BlockToArena(addr) == b.page && addr % PGSIZE == ARENA_HEADER + b.idx * bs &&
      BlockIndex(addr, bs) == b.idx && (addr % PGSIZE - ARENA_HEADER) % bs == 0
  {
    MulLe(b.idx + 1, n, bs);
    MulLe(0, b.idx, bs);
    var ofs := ARENA_HEADER + b.idx * bs;
    assert 0 <= ofs < PGSIZE;
    assert ArenaToBlock(b, bs) == b.page * PGSIZE + ofs;
    DivMod(b.idx, bs);
  }

  lemma DivMod(i: nat, bs: nat)
    requires bs > 0
    ensures (i * bs) / bs == i && (i * bs) % bs == 0
  {
    var q, r := (i * bs) / bs, (i * bs) % bs;
    assert i * bs == q * bs + r;
    if q < i {
      MulLe(q + 1, i, bs);
      assert false;
    } else if q > i {
      MulLe(i + 1, q, bs);
      assert false;
    }
  }

  // ---------------------------------------------------------------- the heap

  /** An arena's header. For a big block (no descriptor) `freeCnt` is its number of pages. */
  datatype Arena = Arena(desc: Option<nat>, freeCnt: nat)

  /** `free[d]` is the free list of descriptor `d`. The rest is for the proof: `slots[p][i]` says whether block `i` of
      the arena in page `p` is free, `live` gives each block in use the size asked for, `owner` each page its arena. */
  datatype Heap = Heap(
    free: seq<seq<Block>>, arenas: map<nat, Arena>, slots: map<nat, seq<bool>>, live: map<Block, size_t>,
    owner: map<nat, nat>)

  function CountFree(s: seq<bool>): (n: nat)
    ensures n <= |s|
  {
    if s == [] then 0 else (if s[0] then 1 else 0) + CountFree(s[1..])
  }

  lemma {:induction false} CountUpdate(s: seq<bool>, i: nat, v: bool)
    requires i < |s|
    ensures CountFree(s[i := v]) == CountFree(s) + (if v then 1 else 0) - (if s[i] then 1 else 0)
  {
    if i == 0 {
      assert s[i := v][1..] == s[1..];
    } else {
      CountUpdate(s[1..], i - 1, v);
      assert s[i := v][1..] == s[1..][i - 1 := v];
    }
  }

  lemma {:induction false} CountAll(s: seq<bool>)
    ensures CountFree(s) == |s| <==> forall i :: 0 <= i < |s| ==> s[i]
  {
    if s != [] {
      CountAll(s[1..]);
      assert (forall i :: 0 <= i < |s| ==> s[i]) <==> s[0] && forall i :: 0 <= i < |s[1..]| ==> s[1..][i];
    }
  }

  predicate IsSmall(h: Heap, p: nat) {
    p in h.arenas && h.arenas[p].desc.Some? && h.arenas[p].desc.value < DESC_CNT && p in h.slots
  }

  function Pages(a: Arena): nat {
    if a.desc.Some? then 1 else a.freeCnt
  }

  /** Every header is sound, and a small arena's count is the number of its free blocks. */
  ghost predicate ArenasOk(h: Heap) {
    forall p :: p in h.arenas ==> if h.arenas[p].desc.Some?
      then IsSmall(h, p) && |h.slots[p]| == PerArena(h.arenas[p].desc.value) && h.arenas[p].freeCnt == CountFree(h.slots[p])
      else h.arenas[p].freeCnt > 0
  }

  /** A free-list element of descriptor `d` is a free block of one of its arenas. */
  predicate FreeBlock(h: Heap, d: nat, b: Block) {
    IsSmall(h, b.page) && h.arenas[b.page].desc == Some(d) && b.idx < |h.slots[b.page]| && h.slots[b.page][b.idx]
  }

  /** The free lists hold each free block once and nothing else. */
  ghost predicate ListsOk(h: Heap) {
    && |h.free| == DESC_CNT
    && (forall d :: 0 <= d < DESC_CNT ==> NoDup(h.free[d]))
    && forall d, b :: 0 <= d < DESC_CNT ==> (b in h.free[d] <==> FreeBlock(h, d, b))
  }

  /** A block of a small arena that is not free, or the block of a big arena. */
  predicate UsedBlock(h: Heap, b: Block) {
    && b.page in h.arenas
    && if h.arenas[b.page].desc.Some?
       then IsSmall(h, b.page) && b.idx < |h.slots[b.page]| && !h.slots[b.page][b.idx]
       else b.idx == 0
  }

  /** The blocks in use are exactly those handed out and not freed. */
  ghost predicate LiveOk(h: Heap) {
    forall b :: b in h.live <==> UsedBlock(h, b)
  }

  /** No small arena is entirely free: it would have been given back. */
  ghost predicate NoneIdle(h: Heap) {
    forall p :: IsSmall(h, p) ==> h.arenas[p].freeCnt < PerArena(h.arenas[p].desc.value)
  }

  ghost predicate NoneIdleBut(h: Heap, q: nat) {
    forall p :: IsSmall(h, p) && p != q ==> h.arenas[p].freeCnt < PerArena(h.arenas[p].desc.value)
  }

  /** Every page of every arena is in use in the kernel pool and belongs to that arena alone. */
  ghost predicate PagesOk(h: Heap, pool: Palloc.Pool) {
    OwnersInUse(h.owner, pool) && ArenasOwn(h.arenas, h.owner) && OwnersAreArenas(h.arenas, h.owner)
  }

  ghost predicate OwnersInUse(owner: map<nat, nat>, pool: Palloc.Pool) {
    forall i :: i in owner ==> Palloc.InUse(pool, i, 1)
  }

  ghost predicate ArenasOwn(arenas: map<nat, Arena>, owner: map<nat, nat>) {
    forall p: nat, i: nat {:trigger OwnsPage(arenas, owner, p, i)} :: OwnsPage(arenas, owner, p, i)
  }

  predicate OwnsPage(arenas: map<nat, Arena>, owner: map<nat, nat>, p: nat, i: nat) {
    p in arenas && p <= i < p + Pages(arenas[p]) ==> i in owner && owner[i] == p
  }

  /** No other page has an owner. */
  ghost predicate OwnersAreArenas(arenas: map<nat, Arena>, owner: map<nat, nat>) {
    forall i: nat {:trigger IsArenas(arenas, owner, i)} :: IsArenas(arenas, owner, i)
  }

  predicate IsArenas(arenas: map<nat, Arena>, owner: map<nat, nat>, i: nat) {
    i in owner ==> owner[i] in arenas && owner[i] <= i < owner[i] + Pages(arenas[owner[i]])
  }

  /** The pages a request too big for any descriptor takes; the sum is taken in 32 bits. */
  function PageCnt(size: size_t): nat {
    (size + ARENA_HEADER + PGSIZE - 1) % WORD / PGSIZE
  }

  /** As few as hold the size and a header of 12 bytes, unless rounding them up to pages passes 2^32: then the pages
      that the rest makes up. */
  lemma PageCntIs(size: size_t)
    ensures var n, total := PageCnt(size), size + 12;
      if total + 4095 < 0x1_0000_0000 then 4096 * (n - 1) < total <= 4096 * n
      else 4096 * n <= total + 4095 - 0x1_0000_0000 < 4096 * (n + 1)
  {
    var total := size + 12;
    assert (total + 4095) % 0x1_0000_0000 == if total + 4095 < 0x1_0000_0000 then total + 4095 else total + 4095 - 0x1_0000_0000;
  }

  /** What every block in use was sized for. */
  ghost predicate SizesOk(h: Heap) {
    forall b :: b in h.live && b.page in h.arenas ==>
      match h.arenas[b.page].desc
      case Some(d) => d < DESC_CNT && h.live[b] <= BlockSize(d)
      case None => h.arenas[b.page].freeCnt == PageCnt(h.live[b])
  }

  ghost predicate Sound(h: Heap) {
    ArenasOk(h) && ListsOk(h) && LiveOk(h) && SizesOk(h)
  }

  ghost predicate HeapOk(h: Heap, pool: Palloc.Pool) {
    Sound(h) && NoneIdle(h) && PagesOk(h, pool)
  }

  // ---------------------------------------------------------------- what the invariant is for

  /** The size of the blocks of the arena. */
  function BlockSizeIn(a: Arena): nat {
    match a.desc
    case Some(d) => if d < DESC_CNT then BlockSize(d) else 0
    case None => 0
  }

  function Address(h: Heap, b: Block): nat
    requires b.page in h.arenas
  {
    ArenaToBlock(b, BlockSizeIn(h.arenas[b.page]))
  }

  /** The bytes from a block's address on that are its own. */
  function Usable(h: Heap, b: Block): int
    requires b.page in h.arenas
  {
    var a := h.arenas[b.page];
    if a.desc.Some? then BlockSizeIn(a) else PGSIZE * a.freeCnt - ARENA_HEADER
  }

  /** A block in use lies in its arena's pages, past the header. */
  lemma BlockInArena(h: Heap, b: Block)
    requires Sound(h) && b in h.live
    ensures UsedBlock(h, b)
    ensures var a := h.arenas[b.page];
      b.page * PGSIZE + ARENA_HEADER <= Address(h, b) &&
      Address(h, b) + Usable(h, b) <= (b.page + Pages(a)) * PGSIZE
  {
    var a := h.arenas[b.page];
    if a.desc.Some? {
      var bs := BlockSize(a.desc.value);
      MulLe(b.idx + 1, PerArena(a.desc.value), bs);
      MulLe(0, b.idx, bs);
    } else {
      assert b.idx * 0 == 0;
    }
  }

  /** No two blocks in use share a byte. */
  lemma LiveBlocksAreDisjoint(h: Heap, pool: Palloc.Pool, b: Block, c: Block)
    requires HeapOk(h, pool) && b in h.live && c in h.live && b != c
    ensures b.page in h.arenas && c.page in h.arenas
    ensures Address(h, b) + Usable(h, b) <= Address(h, c) || Address(h, c) + Usable(h, c) <= Address(h, b)
  {
    BlockInArena(h, b);
    BlockInArena(h, c);
    if b.page == c.page {
      var bs := BlockSizeIn(h.arenas[b.page]);
      if b.idx < c.idx {
        Slots(b, c, bs);
      } else {
        Slots(c, b, bs);
      }
    } else {
      ArenasAreDisjoint(h, pool, b.page, c.page);
      if b.page < c.page {
        MulLe(b.page + Pages(h.arenas[b.page]), c.page, PGSIZE);
      } else {
        MulLe(c.page + Pages(h.arenas[c.page]), b.page, PGSIZE);
      }
    }
  }

  lemma Slots(b: Block, c: Block, bs: nat)
    requires b.page == c.page && b.idx < c.idx
    ensures ArenaToBlock(b, bs) + bs <= ArenaToBlock(c, bs)
  {
    MulLe(b.idx + 1, c.idx, bs);
  }

  lemma ArenasAreDisjoint(h: Heap, pool: Palloc.Pool, p: nat, q: nat)
    requires ArenasOk(h) && PagesOk(h, pool) && p in h.arenas && q in h.arenas && p != q
    ensures p + Pages(h.arenas[p]) <= q || q + Pages(h.arenas[q]) <= p
  {
    OwnersDiffer(h.arenas, h.owner, p, q, if p < q then q else p);
  }

  /** A block in use has room for the size asked for exactly when that size plus the header fits 32 bits: a request
      within 11 bytes of 2^32 wraps to a single page. */
  lemma BigEnoughIff(h: Heap, b: Block)
    requires Sound(h) && b in h.live
    ensures UsedBlock(h, b)
    ensures Usable(h, b) >= h.live[b] <==> h.live[b] + ARENA_HEADER <= WORD
  {
  }

  // ---------------------------------------------------------------- the steps

  function WithSlot(h: Heap, b: Block, v: bool): Heap
    requires IsSmall(h, b.page) && b.idx < |h.slots[b.page]|
  {
    var a := h.arenas[b.page];
    var s := h.slots[b.page][b.idx := v];
    h.(arenas := h.arenas[b.page := a.(freeCnt := CountFree(s))], slots := h.slots[b.page := s])
  }

  /** Hands out the front of free list `d` for a request of `size` bytes. */
  function Take(h: Heap, d: nat, size: size_t): Heap
    requires Sound(h) && d < DESC_CNT && h.free[d] != []
  {
    var b := h.free[d][0];
    assert b in h.free[d];
    WithSlot(h, b, false).(free := h.free[d := h.free[d][1..]], live := h.live[b := size])
  }

  lemma TakeKeepsLists(h: Heap, d: nat, size: size_t)
    requires Sound(h) && d < DESC_CNT && h.free[d] != []
    ensures ListsOk(Take(h, d, size))
  {
    var b := h.free[d][0];
    assert b in h.free[d];
    var h' := Take(h, d, size);
    forall e, c | 0 <= e < DESC_CNT ensures c in h'.free[e] <==> FreeBlock(h', e, c) {
      assert c in h.free[e] <==> FreeBlock(h, e, c);
      assert e == d ==> (c in h'.free[d] <==> c in h.free[d] && c != b);
    }
  }

  /** Nothing else changes, and no arena is left idle but for one that was idle elsewhere. */
  lemma TakeKeepsOthers(h: Heap, d: nat, size: size_t)
    requires Sound(h) && d < DESC_CNT && h.free[d] != [] && NoneIdleBut(h, h.free[d][0].page)
    ensures NoneIdle(Take(h, d, size))
    ensures SameArenas(h.arenas, Take(h, d, size).arenas)
  {
    var b := h.free[d][0];
    assert b in h.free[d];
    CountUpdate(h.slots[b.page], b.idx, false);
  }

  lemma TakeKeepsSound(h: Heap, d: nat, size: size_t)
    requires Sound(h) && d < DESC_CNT && h.free[d] != [] && size <= BlockSize(d)
    ensures Sound(Take(h, d, size))
  {
    TakeKeepsLists(h, d, size);
    TakeKeepsLive(h, d, size);
    assert h.free[d][0] in h.free[d];
  }

  lemma TakeKeepsLive(h: Heap, d: nat, size: size_t)
    requires Sound(h) && d < DESC_CNT && h.free[d] != [] && size <= BlockSize(d)
    ensures LiveOk(Take(h, d, size)) && SizesOk(Take(h, d, size))
  {
    assert h.free[d][0] in h.free[d];
    forall c ensures c in Take(h, d, size).live <==> UsedBlock(Take(h, d, size), c) {
      assert c in h.live <==> UsedBlock(h, c);
    }
  }

  /** Puts a block back at the front of its free list. */
  function Give(h: Heap, b: Block): Heap
    requires Sound(h) && b in h.live && h.arenas[b.page].desc.Some?
  {
    var d := h.arenas[b.page].desc.value;
    WithSlot(h, b, true).(free := h.free[d := [b] + h.free[d]], live := h.live - {b})
  }

  lemma GiveKeepsLists(h: Heap, b: Block)
    requires Sound(h) && b in h.live && UsedBlock(h, b) && h.arenas[b.page].desc.Some?
    ensures ListsOk(Give(h, b))
  {
    var d := h.arenas[b.page].desc.value;
    var h' := Give(h, b);
    assert b !in h.free[d];
    forall e, c | 0 <= e < DESC_CNT ensures c in h'.free[e] <==> FreeBlock(h', e, c) {
      assert c in h.free[e] <==> FreeBlock(h, e, c);
      assert e == d ==> (c in h'.free[d] <==> c in h.free[d] || c == b);
    }
  }

  lemma GiveKeepsSound(h: Heap, b: Block)
    requires Sound(h) && b in h.live && UsedBlock(h, b) && h.arenas[b.page].desc.Some?
    ensures Sound(Give(h, b))
  {
    GiveKeepsLists(h, b);
    GiveKeepsLive(h, b);
  }

  lemma GiveKeepsLive(h: Heap, b: Block)
    requires Sound(h) && b in h.live && UsedBlock(h, b) && h.arenas[b.page].desc.Some?
    ensures LiveOk(Give(h, b)) && SizesOk(Give(h, b))
  {
    forall c ensures c in Give(h, b).live <==> UsedBlock(Give(h, b), c) {
      assert c in h.live <==> UsedBlock(h, c);
    }
  }

  /** The free blocks of a fresh arena, in order. */
  function Fresh(p: nat, n: nat): (r: seq<Block>)
    ensures |r| == n && forall b :: b in r <==> b.page == p && b.idx < n
  {
    var r := seq(n, i requires 0 <= i < n => Block(p, i));
    assert forall b: Block :: b.page == p && b.idx < n ==> r[b.idx] == b;
    r
  }

  /** Cuts page `p` into blocks for descriptor `d`. */
  function NewArena(h: Heap, p: nat, d: nat): Heap
    requires Sound(h) && d < DESC_CNT
  {
    var n := PerArena(d);
    h.(free := h.free[d := h.free[d] + Fresh(p, n)], arenas := h.arenas[p := Arena(Some(d), n)],
       slots := h.slots[p := seq(n, _ => true)], owner := h.owner[p := p])
  }

  lemma NewArenaKeepsSound(h: Heap, p: nat, d: nat)
    requires Sound(h) && d < DESC_CNT && p !in h.arenas
    ensures Sound(NewArena(h, p, d))
  {
    var h' := NewArena(h, p, d);
    CountAll(h'.slots[p]);
    forall e, c | 0 <= e < DESC_CNT ensures c in h'.free[e] <==> FreeBlock(h', e, c) {
      assert c in h.free[e] <==> FreeBlock(h, e, c);
    }
    forall b ensures b in h'.live <==> UsedBlock(h', b) {
      assert b in h.live <==> UsedBlock(h, b);
    }
    forall i | 0 <= i < |h.free[d]| ensures h.free[d][i].page != p {
      assert FreeBlock(h, d, h.free[d][i]);
    }
  }

  /** The list without the first `n` blocks of page `p`. */
  function Unlinked(s: seq<Block>, p: nat, n: nat): (r: seq<Block>)
    ensures forall b :: b in r <==> b in s && !(b.page == p && b.idx < n)
  {
    if s == [] then []
    else if s[0].page == p && s[0].idx < n then Unlinked(s[1..], p, n)
    else [s[0]] + Unlinked(s[1..], p, n)
  }

  lemma {:induction false} UnlinkedDistinct(s: seq<Block>, p: nat, n: nat)
    requires NoDup(s)
    ensures NoDup(Unlinked(s, p, n))
  {
    if s != [] {
      UnlinkedDistinct(s[1..], p, n);
      assert s[0] !in s[1..];
    }
  }

  function Remove(s: seq<Block>, b: Block): seq<Block> {
    if s == [] then [] else if s[0] == b then s[1..] else [s[0]] + Remove(s[1..], b)
  }

  /** Taking out one more block. */
  lemma {:induction false} UnlinkedNext(s: seq<Block>, p: nat, n: nat)
    requires NoDup(s)
    ensures Unlinked(s, p, n + 1) == Remove(Unlinked(s, p, n), Block(p, n))
  {
    if s != [] {
      UnlinkedNext(s[1..], p, n);
      if s[0] == Block(p, n) {
        assert s[0] !in s[1..];
        UnlinkedSame(s[1..], p, n);
      }
    }
  }

  lemma {:induction false} UnlinkedSame(s: seq<Block>, p: nat, n: nat)
    requires Block(p, n) !in s
    ensures Unlinked(s, p, n + 1) == Unlinked(s, p, n)
  {
    if s != [] {
      UnlinkedSame(s[1..], p, n);
    }
  }

  lemma {:induction false} UnlinkedNone(s: seq<Block>, p: nat)
    ensures Unlinked(s, p, 0) == s
  {
    if s != [] {
      UnlinkedNone(s[1..], p);
    }
  }

  /** Gives up the arena in page `p`, all of whose blocks are free. */
  function DropArena(h: Heap, p: nat): Heap
    requires Sound(h) && IsSmall(h, p)
  {
    var d := h.arenas[p].desc.value;
    h.(free := h.free[d := Unlinked(h.free[d], p, PerArena(d))], arenas := h.arenas - {p}, owner := h.owner - {p})
  }

  lemma DropArenaKeepsSound(h: Heap, p: nat)
    requires Sound(h) && IsSmall(h, p) && forall i :: 0 <= i < |h.slots[p]| ==> h.slots[p][i]
    ensures Sound(DropArena(h, p))
  {
    var d := h.arenas[p].desc.value;
    var h' := DropArena(h, p);
    UnlinkedDistinct(h.free[d], p, PerArena(d));
    forall e, c | 0 <= e < DESC_CNT ensures c in h'.free[e] <==> FreeBlock(h', e, c) {
      assert c in h.free[e] <==> FreeBlock(h, e, c);
    }
    forall b ensures b in h'.live <==> UsedBlock(h', b) {
      assert b in h.live <==> UsedBlock(h, b);
    }
  }

  function PageRange(p: nat, n: nat): (r: set<nat>)
    ensures forall i :: i in r <==> p <= i < p + n
    decreases n
  {
    if n == 0 then {} else {p} + PageRange(p + 1, n - 1)
  }

  /** Hands out `n` pages from `p` on as one block. */
  function TakeBig(h: Heap, p: nat, n: nat, size: size_t): Heap {
    h.(arenas := h.arenas[p := Arena(None, n)], live := h.live[Block(p, 0) := size],
       owner := h.owner + (map i | i in PageRange(p, n) :: p))
  }

  lemma TakeBigKeepsSound(h: Heap, p: nat, size: size_t)
    requires Sound(h) && p !in h.arenas && PageCnt(size) > 0
    ensures Sound(TakeBig(h, p, PageCnt(size), size))
  {
    var h' := TakeBig(h, p, PageCnt(size), size);
    forall e, c | 0 <= e < DESC_CNT ensures c in h'.free[e] <==> FreeBlock(h', e, c) {
      assert c in h.free[e] <==> FreeBlock(h, e, c);
    }
    forall b ensures b in h'.live <==> UsedBlock(h', b) {
      assert b in h.live <==> UsedBlock(h, b);
    }
  }

  function GiveBig(h: Heap, b: Block): Heap
    requires b.page in h.arenas
  {
    h.(arenas := h.arenas - {b.page}, live := h.live - {b},
       owner := h.owner - PageRange(b.page, h.arenas[b.page].freeCnt))
  }

  lemma GiveBigKeepsSound(h: Heap, b: Block)
    requires Sound(h) && b in h.live && UsedBlock(h, b) && h.arenas[b.page].desc.None?
    ensures Sound(GiveBig(h, b))
  {
    var h' := GiveBig(h, b);
    forall e, c | 0 <= e < DESC_CNT ensures c in h'.free[e] <==> FreeBlock(h', e, c) {
      assert c in h.free[e] <==> FreeBlock(h, e, c);
    }
    forall c ensures c in h'.live <==> UsedBlock(h', c) {
      assert c in h.live <==> UsedBlock(h, c);
    }
  }

  // ---------------------------------------------------------------- the pages underneath

  /** The same arenas, of the same pages. */
  ghost predicate SameArenas(a: map<nat, Arena>, b: map<nat, Arena>) {
    (forall p :: p in a <==> p in b) && forall p :: p in a && p in b ==> Pages(a[p]) == Pages(b[p])
  }

  lemma SameArenasKeepPages(h: Heap, h': Heap, pool: Palloc.Pool)
    requires PagesOk(h, pool) && h'.owner == h.owner && SameArenas(h.arenas, h'.arenas)
    ensures PagesOk(h', pool)
  {
    forall p: nat, i: nat ensures OwnsPage(h'.arenas, h'.owner, p, i) {
      assert OwnsPage(h.arenas, h.owner, p, i);
    }
    forall i: nat ensures IsArenas(h'.arenas, h'.owner, i) {
      assert IsArenas(h.arenas, h.owner, i);
    }
  }

  /** Pages just taken from the pool belong to no arena yet. */
  lemma FreshPages(h: Heap, pool: Palloc.Pool, pool': Palloc.Pool, p: nat, n: nat, i: nat)
    requires PagesOk(h, pool) && Palloc.Took(pool, pool', p, n)
    ensures i in h.owner ==> !(p <= i < p + n) && Palloc.InUse(pool', i, 1)
  {
    if i in h.owner {
      Palloc.TakenAreFresh(pool, pool', p, n, i, 1, i);
    }
  }

  /** Other parts of the kernel may take pages meanwhile. */
  lemma OthersMayTakePages(h: Heap, pool: Palloc.Pool, pool': Palloc.Pool, p: nat, n: nat)
    requires PagesOk(h, pool) && Palloc.Took(pool, pool', p, n)
    ensures PagesOk(h, pool')
  {
    forall i | i in h.owner ensures Palloc.InUse(pool', i, 1) {
      FreshPages(h, pool, pool', p, n, i);
    }
  }

  lemma NewPagesOk(h: Heap, h': Heap, pool: Palloc.Pool, pool': Palloc.Pool, p: nat, n: nat)
    requires ArenasOk(h) && PagesOk(h, pool) && Palloc.Took(pool, pool', p, n) && n > 0
    requires p in h'.arenas && Pages(h'.arenas[p]) == n && h'.arenas == h.arenas[p := h'.arenas[p]]
    requires h'.owner == h.owner + (map i | i in PageRange(p, n) :: p)
    ensures p !in h.arenas && PagesOk(h', pool')
  {
    FreshPages(h, pool, pool', p, n, p);
    assert OwnsPage(h.arenas, h.owner, p, p);
    forall i | i in h.owner ensures i !in PageRange(p, n) && Palloc.InUse(pool', i, 1) {
      FreshPages(h, pool, pool', p, n, i);
    }
    NewOwn(h.arenas, h.owner, h'.arenas[p], p, n);
    assert OwnersInUse(h'.owner, pool') by {
      forall i | i in h'.owner && i !in h.owner ensures Palloc.InUse(pool', i, 1) {
        assert i in PageRange(p, n);
      }
    }
  }

  lemma NewOwn(arenas: map<nat, Arena>, owner: map<nat, nat>, a: Arena, p: nat, n: nat)
    requires ArenasOwn(arenas, owner) && OwnersAreArenas(arenas, owner) && p !in arenas && Pages(a) == n
    requires forall i :: i in owner ==> i !in PageRange(p, n)
    ensures ArenasOwn(arenas[p := a], owner + (map i | i in PageRange(p, n) :: p))
    ensures OwnersAreArenas(arenas[p := a], owner + (map i | i in PageRange(p, n) :: p))
  {
    var arenas', owner' := arenas[p := a], owner + (map i | i in PageRange(p, n) :: p);
    forall q: nat, i: nat ensures OwnsPage(arenas', owner', q, i) {
      assert OwnsPage(arenas, owner, q, i);
      assert i in PageRange(p, n) <==> p <= i < p + n;
    }
    forall i: nat ensures IsArenas(arenas', owner', i) {
      assert IsArenas(arenas, owner, i);
      assert i in PageRange(p, n) <==> p <= i < p + n;
    }
  }

  lemma NewArenaPages(h: Heap, p: nat, d: nat, pool: Palloc.Pool, pool': Palloc.Pool)
    requires Sound(h) && d < DESC_CNT && PagesOk(h, pool) && Palloc.Took(pool, pool', p, 1)
    ensures p !in h.arenas && PagesOk(NewArena(h, p, d), pool')
  {
    assert h.owner[p := p] == h.owner + (map i | i in PageRange(p, 1) :: p);
    NewPagesOk(h, NewArena(h, p, d), pool, pool', p, 1);
  }

  lemma NewArenaFront(h: Heap, p: nat, d: nat)
    requires Sound(h) && NoneIdle(h) && d < DESC_CNT && h.free[d] == []
    ensures var h' := NewArena(h, p, d);
      |h'.free[d]| > 0 && h'.free[d][0].page == p && NoneIdleBut(h', p)
  {
    var first := NewArena(h, p, d).free[d][0];
    assert first in Fresh(p, PerArena(d));
  }

  lemma GonePagesOk(h: Heap, h': Heap, pool: Palloc.Pool, pool': Palloc.Pool, p: nat)
    requires PagesOk(h, pool) && p in h.arenas && h'.arenas == h.arenas - {p}
    requires h'.owner == h.owner - PageRange(p, Pages(h.arenas[p]))
    requires Palloc.GaveBack(pool, pool', p, Pages(h.arenas[p]))
    ensures PagesOk(h', pool')
  {
    var n := Pages(h.arenas[p]);
    assert OwnersInUse(h'.owner, pool') by {
      forall i | i in h'.owner ensures Palloc.InUse(pool', i, 1) {
        StillInUse(pool, pool', p, n, i);
      }
    }
    OthersOwn(h.arenas, h.owner, p);
  }

  lemma OwnersDiffer(arenas: map<nat, Arena>, owner: map<nat, nat>, p: nat, q: nat, i: nat)
    requires ArenasOwn(arenas, owner) && p in arenas && q in arenas && p != q
    ensures q <= i < q + Pages(arenas[q]) ==> !(p <= i < p + Pages(arenas[p]))
  {
    assert OwnsPage(arenas, owner, p, i) && OwnsPage(arenas, owner, q, i);
  }

  lemma OthersOwn(arenas: map<nat, Arena>, owner: map<nat, nat>, p: nat)
    requires ArenasOwn(arenas, owner) && OwnersAreArenas(arenas, owner) && p in arenas
    ensures ArenasOwn(arenas - {p}, owner - PageRange(p, Pages(arenas[p])))
    ensures OwnersAreArenas(arenas - {p}, owner - PageRange(p, Pages(arenas[p])))
  {
    var owner' := owner - PageRange(p, Pages(arenas[p]));
    forall q: nat, i: nat ensures OwnsPage(arenas - {p}, owner', q, i) {
      assert OwnsPage(arenas, owner, q, i) && OwnsPage(arenas, owner, p, i);
      assert i in PageRange(p, Pages(arenas[p])) <==> p <= i < p + Pages(arenas[p]);
    }
    forall i: nat ensures IsArenas(arenas - {p}, owner', i) {
      assert IsArenas(arenas, owner, i) && OwnsPage(arenas, owner, p, i);
      assert i in PageRange(p, Pages(arenas[p])) <==> p <= i < p + Pages(arenas[p]);
    }
  }

  lemma StillInUse(pool: Palloc.Pool, pool': Palloc.Pool, p: nat, n: nat, i: nat)
    requires Palloc.GaveBack(pool, pool', p, n) && Palloc.InUse(pool, i, 1) && !(p <= i < p + n)
    ensures Palloc.InUse(pool', i, 1)
  {
    assert pool.used[i - pool.base];
  }

  /** The pages of an arena can be given back. */
  lemma ArenaPagesInUse(h: Heap, pool: Palloc.Pool, p: nat)
    requires ArenasOk(h) && PagesOk(h, pool) && p in h.arenas
    ensures Palloc.InUse(pool, p, Pages(h.arenas[p]))
  {
    var n := Pages(h.arenas[p]);
    forall i | p <= i < p + n ensures Palloc.InUse(pool, i, 1) {
      assert OwnsPage(h.arenas, h.owner, p, i);
    }
    assert Palloc.InUse(pool, p, 1) && Palloc.InUse(pool, p + n - 1, 1);
    forall j | p - pool.base <= j < p - pool.base + n ensures pool.used[j] {
      assert Palloc.InUse(pool, j + pool.base, 1);
    }
  }

  // ---------------------------------------------------------------- where the pages go

  /** Handing out `b` took no page if its arena was there already, and just the new arena's pages otherwise. */
  ghost predicate TookPages(h: Heap, h': Heap, pool: Palloc.Pool, pool': Palloc.Pool, b: Block) {
    && b.page in h'.arenas
    && if b.page in h.arenas then pool' == pool && SameArenas(h.arenas, h'.arenas)
       else Palloc.Took(pool, pool', b.page, Pages(h'.arenas[b.page])) && SameArenas(h.arenas, h'.arenas - {b.page})
  }

  /** Taking `b` back gave no page back if its arena stays, and just the arena's pages otherwise. */
  ghost predicate GavePages(h: Heap, h': Heap, pool: Palloc.Pool, pool': Palloc.Pool, b: Block) {
    && b.page in h.arenas
    && if b.page in h'.arenas then pool' == pool && SameArenas(h.arenas, h'.arenas)
       else Palloc.GaveBack(pool, pool', b.page, Pages(h.arenas[b.page])) && SameArenas(h.arenas - {b.page}, h'.arenas)
  }

  /** Page `i` is in use, and not for an arena. */
  ghost predicate HeldElsewhere(h: Heap, pool: Palloc.Pool, i: nat) {
    Palloc.InUse(pool, i, 1) && i !in h.owner
  }

  /** The pages that other parts of the kernel hold are the same. */
  ghost predicate Conserves(h: Heap, pool: Palloc.Pool, h': Heap, pool': Palloc.Pool) {
    && pool'.base == pool.base && |pool'.used| == |pool.used|
    && forall i: nat :: HeldElsewhere(h', pool', i) <==> HeldElsewhere(h, pool, i)
  }

  lemma SameArenasSameOwners(h: Heap, h': Heap, pool: Palloc.Pool, pool': Palloc.Pool, i: nat)
    requires PagesOk(h, pool) && PagesOk(h', pool') && SameArenas(h.arenas, h'.arenas)
    ensures i in h.owner <==> i in h'.owner
  {
    assert IsArenas(h.arenas, h.owner, i) && IsArenas(h'.arenas, h'.owner, i);
    assert i in h.owner ==> OwnsPage(h'.arenas, h'.owner, h.owner[i], i);
    assert i in h'.owner ==> OwnsPage(h.arenas, h.owner, h'.owner[i], i);
  }

  /** With one arena more, exactly its pages are owned besides. */
  lemma OneMoreArena(h: Heap, h': Heap, pool: Palloc.Pool, pool': Palloc.Pool, p: nat, i: nat)
    requires PagesOk(h, pool) && PagesOk(h', pool') && p !in h.arenas && p in h'.arenas
    requires SameArenas(h.arenas, h'.arenas - {p})
    ensures i in h'.owner <==> i in h.owner || p <= i < p + Pages(h'.arenas[p])
  {
    assert IsArenas(h.arenas, h.owner, i) && IsArenas(h'.arenas, h'.owner, i) && OwnsPage(h'.arenas, h'.owner, p, i);
    if i in h.owner {
      assert h.owner[i] in h'.arenas - {p} && OwnsPage(h'.arenas, h'.owner, h.owner[i], i);
    }
    if i in h'.owner && h'.owner[i] != p {
      assert h'.owner[i] in h'.arenas - {p} && OwnsPage(h.arenas, h.owner, h'.owner[i], i);
    }
  }

  lemma TookPagesConserves(h: Heap, h': Heap, pool: Palloc.Pool, pool': Palloc.Pool, b: Block)
    requires PagesOk(h, pool) && PagesOk(h', pool') && TookPages(h, h', pool, pool', b)
    ensures Conserves(h, pool, h', pool')
  {
    forall i: nat ensures HeldElsewhere(h', pool', i) <==> HeldElsewhere(h, pool, i) {
      if b.page in h.arenas {
        SameArenasSameOwners(h, h', pool, pool', i);
      } else {
        OneMoreArena(h, h', pool, pool', b.page, i);
        TookExactly(pool, pool', b.page, Pages(h'.arenas[b.page]), i);
      }
    }
  }

  lemma TookExactly(pool: Palloc.Pool, pool': Palloc.Pool, p: nat, n: nat, i: nat)
    requires Palloc.Took(pool, pool', p, n)
    ensures Palloc.InUse(pool', i, 1) <==> Palloc.InUse(pool, i, 1) || p <= i < p + n
    ensures p <= i < p + n ==> !Palloc.InUse(pool, i, 1)
  {
    Palloc.OneInUse(pool, i);
    Palloc.OneInUse(pool', i);
  }

  lemma GaveExactly(pool: Palloc.Pool, pool': Palloc.Pool, p: nat, n: nat, i: nat)
    requires Palloc.GaveBack(pool, pool', p, n)
    ensures Palloc.InUse(pool', i, 1) <==> Palloc.InUse(pool, i, 1) && !(p <= i < p + n)
  {
    Palloc.OneInUse(pool, i);
    Palloc.OneInUse(pool', i);
  }

  lemma GavePagesConserves(h: Heap, h': Heap, pool: Palloc.Pool, pool': Palloc.Pool, b: Block)
    requires PagesOk(h, pool) && PagesOk(h', pool') && GavePages(h, h', pool, pool', b)
    ensures Conserves(h, pool, h', pool')
  {
    forall i: nat ensures HeldElsewhere(h', pool', i) <==> HeldElsewhere(h, pool, i) {
      if b.page in h'.arenas {
        SameArenasSameOwners(h, h', pool, pool', i);
      } else {
        OneMoreArena(h', h, pool', pool, b.page, i);
        GaveExactly(pool, pool', b.page, Pages(h.arenas[b.page]), i);
        assert OwnsPage(h.arenas, h.owner, b.page, i);
      }
    }
  }

  /** Some block of every arena is in use. */
  lemma ArenaHasUser(h: Heap, p: nat)
    requires Sound(h) && NoneIdle(h) && p in h.arenas
    ensures exists b :: b in h.live && b.page == p
  {
    if h.arenas[p].desc.Some? {
      assert IsSmall(h, p);
      FullIffUnused(h, p);
    } else {
      assert UsedBlock(h, Block(p, 0));
    }
  }

  /** With no block in use the allocator holds no page. */
  lemma NothingHeld(h: Heap, pool: Palloc.Pool)
    requires HeapOk(h, pool) && h.live == map[]
    ensures h.arenas == map[] && h.owner == map[]
  {
    forall p ensures p !in h.arenas {
      if p in h.arenas {
        ArenaHasUser(h, p);
      }
    }
    forall i: nat ensures i !in h.owner {
      assert IsArenas(h.arenas, h.owner, i);
    }
  }

  /** A big block is handed out with pages of its own. */
  lemma TakeBigServes(h: Heap, pool: Palloc.Pool, pool': Palloc.Pool, p: nat, size: size_t)
    requires HeapOk(h, pool) && PageCnt(size) > 0 && Palloc.Took(pool, pool', p, PageCnt(size))
    ensures var h', b := TakeBig(h, p, PageCnt(size), size), Block(p, 0);
      && HeapOk(h', pool') && Allocated(h, h', b, size, None) && TookPages(h, h', pool, pool', b)
      && Address(h', b) == p * PGSIZE + ARENA_HEADER
  {
    var h' := TakeBig(h, p, PageCnt(size), size);
    NewPagesOk(h, h', pool, pool', p, PageCnt(size));
    TakeBigKeepsSound(h, p, size);
    TakeBigAllocates(h, p, size);
  }

  /** And taken back with them. */
  lemma GiveBigServes(h: Heap, pool: Palloc.Pool, pool': Palloc.Pool, b: Block)
    requires HeapOk(h, pool) && b in h.live && UsedBlock(h, b) && h.arenas[b.page].desc.None?
    requires Palloc.GaveBack(pool, pool', b.page, Pages(h.arenas[b.page]))
    ensures HeapOk(GiveBig(h, b), pool') && Released(h, GiveBig(h, b), b)
    ensures GavePages(h, GiveBig(h, b), pool, pool', b)
  {
    GiveBigKeepsSound(h, b);
    GiveBigReleases(h, b);
    GonePagesOk(h, GiveBig(h, b), pool, pool', b.page);
  }

  datatype Store = Store(h: Heap, pool: Palloc.Pool)

  /** `b` has been handed out, with the pages of its arena if that is new. */
  ghost predicate HandsOut(s: Store, s': Store, b: Block, size: size_t) {
    HeapOk(s'.h, s'.pool) && Allocated(s.h, s'.h, b, size, DescFrom(size, 0)) && TookPages(s.h, s'.h, s.pool, s'.pool, b)
  }

  /** `b` has been taken back, with the pages of its arena if that is gone. */
  ghost predicate TakesBack(s: Store, s': Store, b: Block) {
    HeapOk(s'.h, s'.pool) && Released(s.h, s'.h, b) && GavePages(s.h, s'.h, s.pool, s'.pool, b)
  }

  /** One after the other. */
  ghost predicate Moves(s: Store, s': Store, o: Block, b: Block, size: size_t) {
    exists between: Store :: HandsOut(s, between, b, size) && TakesBack(between, s', o)
  }

  ghost predicate IsMalloc(s: Store, s': Store) { exists b, size :: HandsOut(s, s', b, size) }

  ghost predicate IsFree(s: Store, s': Store) { exists b :: TakesBack(s, s', b) }

  ghost predicate IsRealloc(s: Store, s': Store) { exists o, b, size :: Moves(s, s', o, b, size) }

  /** What a call of `malloc`, `free` or `realloc` comes to: each method below says that it is one of these. */
  ghost predicate IsCall(s: Store, s': Store) {
    s' == s || IsMalloc(s, s') || IsFree(s, s') || IsRealloc(s, s')
  }

  ghost predicate Calls(run: seq<Store>) {
    && |run| > 0 && HeapOk(run[0].h, run[0].pool)
    && forall i :: 0 < i < |run| ==> IsCall(run[i - 1], run[i])
  }

  lemma MallocIsCall(s: Store, s': Store, b: Block, size: size_t, desc: Option<nat>)
    requires HeapOk(s'.h, s'.pool) && Allocated(s.h, s'.h, b, size, desc) && desc == DescFrom(size, 0)
    requires TookPages(s.h, s'.h, s.pool, s'.pool, b)
    ensures HandsOut(s, s', b, size) && IsCall(s, s')
  {
    assert HandsOut(s, s', b, size);
  }

  lemma FreeIsCall(s: Store, s': Store, b: Block)
    requires HeapOk(s'.h, s'.pool) && Released(s.h, s'.h, b) && GavePages(s.h, s'.h, s.pool, s'.pool, b)
    ensures TakesBack(s, s', b) && IsCall(s, s')
  {
    assert TakesBack(s, s', b);
  }

  lemma ReallocIsCall(s: Store, between: Store, s': Store, o: Block, b: Block, size: size_t)
    requires HandsOut(s, between, b, size) && TakesBack(between, s', o)
    ensures Moves(s, s', o, b, size) && IsCall(s, s')
  {
    assert Moves(s, s', o, b, size);
  }

  lemma MallocConserves(s: Store, s': Store, b: Block, size: size_t)
    requires HeapOk(s.h, s.pool) && HandsOut(s, s', b, size)
    ensures HeapOk(s'.h, s'.pool) && Conserves(s.h, s.pool, s'.h, s'.pool)
  {
    TookPagesConserves(s.h, s'.h, s.pool, s'.pool, b);
  }

  lemma FreeConserves(s: Store, s': Store, b: Block)
    requires HeapOk(s.h, s.pool) && TakesBack(s, s', b)
    ensures HeapOk(s'.h, s'.pool) && Conserves(s.h, s.pool, s'.h, s'.pool)
  {
    GavePagesConserves(s.h, s'.h, s.pool, s'.pool, b);
  }

  lemma CallConserves(s: Store, s': Store)
    requires HeapOk(s.h, s.pool) && IsCall(s, s')
    ensures HeapOk(s'.h, s'.pool) && Conserves(s.h, s.pool, s'.h, s'.pool)
  {
    if IsMalloc(s, s') {
      var b, size :| HandsOut(s, s', b, size);
      MallocConserves(s, s', b, size);
    } else if IsFree(s, s') {
      var b :| TakesBack(s, s', b);
      FreeConserves(s, s', b);
    } else if IsRealloc(s, s') {
      var o, b, size :| Moves(s, s', o, b, size);
      var between: Store :| HandsOut(s, between, b, size) && TakesBack(between, s', o);
      MallocConserves(s, between, b, size);
      FreeConserves(between, s', o);
    }
  }

  /** Over any run of calls the pages in use are those of the arenas and those held elsewhere at the start. */
  lemma {:induction false} PagesAreConserved(run: seq<Store>, i: nat)
    requires Calls(run) && i < |run|
    ensures HeapOk(run[i].h, run[i].pool) && Conserves(run[0].h, run[0].pool, run[i].h, run[i].pool)
  {
    if i > 0 {
      PagesAreConserved(run, i - 1);
      assert IsCall(run[i - 1], run[i]);
      CallConserves(run[i - 1], run[i]);
    }
  }

  /** So once every block has been freed, the pool is just as it was before the first was handed out. */
  lemma PagesComeBack(run: seq<Store>)
    requires Calls(run) && run[0].h.live == map[] && run[|run| - 1].h.live == map[]
    ensures run[|run| - 1].pool == run[0].pool
  {
    var s, s' := run[0], run[|run| - 1];
    PagesAreConserved(run, |run| - 1);
    NothingHeld(s.h, s.pool);
    NothingHeld(s'.h, s'.pool);
    NothingOwned(s, s');
  }

  lemma NothingOwned(s: Store, s': Store)
    requires s.h.owner == map[] && s'.h.owner == map[] && Conserves(s.h, s.pool, s'.h, s'.pool)
    ensures s'.pool == s.pool
  {
    forall j | 0 <= j < |s.pool.used| ensures s'.pool.used[j] == s.pool.used[j] {
      var i: nat := s.pool.base + j;
      assert HeldElsewhere(s'.h, s'.pool, i) <==> HeldElsewhere(s.h, s.pool, i);
      OnePage(s.h, s.pool, i, j);
      OnePage(s'.h, s'.pool, i, j);
    }
  }

  lemma OnePage(h: Heap, pool: Palloc.Pool, i: nat, j: nat)
    requires h.owner == map[] && j < |pool.used| && i == pool.base + j
    ensures HeldElsewhere(h, pool, i) <==> pool.used[j]
  {
    Palloc.OneInUse(pool, i);
  }

  /** Other parts of the kernel may also give back pages of their own meanwhile. */
  lemma OthersMayGiveBackPages(h: Heap, pool: Palloc.Pool, pool': Palloc.Pool, p: nat, n: nat)
    requires PagesOk(h, pool) && Palloc.GaveBack(pool, pool', p, n)
    requires forall i :: p <= i < p + n ==> HeldElsewhere(h, pool, i)
    ensures PagesOk(h, pool')
  {
    forall i | i in h.owner ensures Palloc.InUse(pool', i, 1) {
      assert p <= i < p + n ==> HeldElsewhere(h, pool, i);
      StillInUse(pool, pool', p, n, i);
    }
  }

  // ---------------------------------------------------------------- the allocator

  predicate DescsOk(descs: seq<Desc>) {
    |descs| == DESC_CNT && forall d :: 0 <= d < DESC_CNT ==> descs[d] == Desc(BlockSize(d), PerArena(d))
  }

  /** The block `c` in use is where and what it was. */
  ghost predicate SameBlock(h: Heap, h': Heap, c: Block) {
    && c in h.live && c in h'.live && h'.live[c] == h.live[c]
    && c.page in h.arenas && c.page in h'.arenas
    && Address(h', c) == Address(h, c) && Usable(h', c) == Usable(h, c)
  }

  /** `b` is new, of the given descriptor, and every block that was in use is as it was. */
  ghost predicate Allocated(h: Heap, h': Heap, b: Block, size: size_t, desc: Option<nat>) {
    && b !in h.live && h'.live == h.live[b := size]
    && b.page in h'.arenas && h'.arenas[b.page].desc == desc
    && forall c :: c in h.live ==> SameBlock(h, h', c)
  }

  /** What `Take` comes to, field by field. */
  lemma FrontIsFree(h: Heap, d: nat, size: size_t)
    requires Sound(h) && d < DESC_CNT && h.free[d] != []
    ensures FreeBlock(h, d, h.free[d][0]) && h.arenas[h.free[d][0].page].freeCnt > 0
    ensures var b := h.free[d][0];
      var a := h.arenas[b.page];
      Take(h, d, size) == Heap(h.free[d := h.free[d][1..]], h.arenas[b.page := a.(freeCnt := a.freeCnt - 1)],
        h.slots[b.page := h.slots[b.page][b.idx := false]], h.live[b := size], h.owner)
  {
    var b := h.free[d][0];
    assert b in h.free[d];
    CountUpdate(h.slots[b.page], b.idx, false);
  }

  lemma TakeAllocates(h: Heap, pool: Palloc.Pool, d: nat, size: size_t)
    requires Sound(h) && PagesOk(h, pool) && d < DESC_CNT && h.free[d] != [] && size <= BlockSize(d)
    requires NoneIdleBut(h, h.free[d][0].page)
    ensures HeapOk(Take(h, d, size), pool)
    ensures Allocated(h, Take(h, d, size), h.free[d][0], size, Some(d))
    ensures SameArenas(h.arenas, Take(h, d, size).arenas)
  {
    var b, h' := h.free[d][0], Take(h, d, size);
    assert b in h.free[d];
    TakeKeepsSound(h, d, size);
    TakeKeepsOthers(h, d, size);
    SameArenasKeepPages(h, h', pool);
    assert FreeBlock(h, d, b) && !UsedBlock(h, b);
    forall c | c in h.live ensures SameBlock(h, h', c) {
      TakeChangesNoBlock(h, d, size, c);
    }
  }

  lemma TakeChangesNoBlock(h: Heap, d: nat, size: size_t, c: Block)
    requires Sound(h) && d < DESC_CNT && h.free[d] != [] && c in h.live
    ensures SameBlock(h, Take(h, d, size), c)
  {
    assert h.free[d][0] in h.free[d];
    assert UsedBlock(h, c) && FreeBlock(h, d, h.free[d][0]);
  }

  lemma NewArenaChangesNoBlock(h: Heap, p: nat, d: nat, c: Block)
    requires Sound(h) && d < DESC_CNT && p !in h.arenas && c in h.live
    ensures SameBlock(h, NewArena(h, p, d), c)
  {
    assert UsedBlock(h, c);
  }

  lemma TakeBigAllocates(h: Heap, p: nat, size: size_t)
    requires Sound(h) && p !in h.arenas
    ensures Allocated(h, TakeBig(h, p, PageCnt(size), size), Block(p, 0), size, None)
  {
    var h' := TakeBig(h, p, PageCnt(size), size);
    assert !UsedBlock(h, Block(p, 0));
    forall c | c in h.live ensures SameBlock(h, h', c) {
      assert UsedBlock(h, c);
    }
  }

  lemma SameBlockTwice(h: Heap, h': Heap, h'': Heap, b: Block, size: size_t, desc: Option<nat>)
    requires h'.live == h.live && Allocated(h', h'', b, size, desc)
    requires forall c :: c in h.live ==> SameBlock(h, h', c)
    ensures Allocated(h, h'', b, size, desc)
  {
    forall c | c in h.live ensures SameBlock(h, h'', c) {
      assert SameBlock(h, h', c) && SameBlock(h', h'', c);
    }
  }

  /** `b` is no longer in use, and every other block is as it was. The page of `b` has gone back to the page allocator
      exactly when no other block in it was in use. */
  ghost predicate Released(h: Heap, h': Heap, b: Block) {
    && b in h.live && h'.live == h.live - {b}
    && (forall c :: c in h'.live ==> SameBlock(h, h', c))
    && (b.page in h'.arenas <==> exists c :: c in h'.live && c.page == b.page)
  }

  lemma GiveReleases(h: Heap, b: Block)
    requires Sound(h) && NoneIdle(h) && b in h.live && UsedBlock(h, b) && h.arenas[b.page].desc.Some?
    ensures Sound(Give(h, b)) && NoneIdleBut(Give(h, b), b.page)
    ensures var h' := Give(h, b);
      && (forall c :: c in h'.live ==> SameBlock(h, h', c))
      && SameArenas(h.arenas, h'.arenas)
      && h'.arenas[b.page].freeCnt == h.arenas[b.page].freeCnt + 1 <= |h'.slots[b.page]|
  {
    GiveKeepsSound(h, b);
    GiveKeepsArenas(h, b);
    forall c | c in Give(h, b).live ensures SameBlock(h, Give(h, b), c) {
      GiveChangesNoBlock(h, b, c);
    }
  }

  lemma GiveKeepsArenas(h: Heap, b: Block)
    requires Sound(h) && NoneIdle(h) && b in h.live && UsedBlock(h, b) && h.arenas[b.page].desc.Some?
    ensures var h' := Give(h, b);
      && NoneIdleBut(h', b.page) && SameArenas(h.arenas, h'.arenas)
      && h'.arenas[b.page].freeCnt == h.arenas[b.page].freeCnt + 1 <= |h'.slots[b.page]|
  {
    CountUpdate(h.slots[b.page], b.idx, true);
  }

  lemma GiveChangesNoBlock(h: Heap, b: Block, c: Block)
    requires Sound(h) && b in h.live && UsedBlock(h, b) && h.arenas[b.page].desc.Some? && c in h.live && c != b
    ensures SameBlock(h, Give(h, b), c)
  {
    assert UsedBlock(h, c);
  }

  /** A small arena's count says whether one of its blocks is in use. */
  lemma FullIffUnused(h: Heap, p: nat)
    requires Sound(h) && p in h.arenas && h.arenas[p].desc.Some?
    ensures IsSmall(h, p) && |h.slots[p]| == PerArena(h.arenas[p].desc.value)
    ensures h.arenas[p].freeCnt == |h.slots[p]| <==> forall i :: 0 <= i < |h.slots[p]| ==> h.slots[p][i]
    ensures h.arenas[p].freeCnt == |h.slots[p]| <==> !exists c :: c in h.live && c.page == p
  {
    CountAll(h.slots[p]);
    forall c | c in h.live && c.page == p ensures c.idx < |h.slots[p]| && !h.slots[p][c.idx] {
      assert UsedBlock(h, c);
    }
    forall i | 0 <= i < |h.slots[p]| && !h.slots[p][i] ensures Block(p, i) in h.live {
      assert UsedBlock(h, Block(p, i));
    }
  }

  lemma DropChangesNoBlock(h: Heap, p: nat, c: Block)
    requires Sound(h) && IsSmall(h, p) && c in h.live && c.page != p
    ensures SameBlock(h, DropArena(h, p), c)
  {
    assert UsedBlock(h, c);
  }

  lemma GiveBigReleases(h: Heap, b: Block)
    requires Sound(h) && NoneIdle(h) && b in h.live && UsedBlock(h, b) && h.arenas[b.page].desc.None?
    ensures Released(h, GiveBig(h, b), b) && NoneIdle(GiveBig(h, b))
  {
    GiveBigKeepsSound(h, b);
    forall c | c in h.live && c != b ensures c.page != b.page && SameBlock(h, GiveBig(h, b), c) {
      assert UsedBlock(h, c);
    }
  }

  /** The small block `b` is given back, and its arena too if that leaves it unused. */
  function Freed(h: Heap, b: Block): Heap
    requires Sound(h) && b in h.live && UsedBlock(h, b) && h.arenas[b.page].desc.Some? && Sound(Give(h, b))
  {
    var h' := Give(h, b);
    if h'.arenas[b.page].freeCnt >= PerArena(h.arenas[b.page].desc.value) then DropArena(h', b.page) else h'
  }

  lemma FreedReleases(h: Heap, b: Block)
    requires Sound(h) && NoneIdle(h) && b in h.live && UsedBlock(h, b) && h.arenas[b.page].desc.Some?
    ensures Sound(Give(h, b)) && Sound(Freed(h, b)) && NoneIdle(Freed(h, b)) && Released(h, Freed(h, b), b)
  {
    GiveReleases(h, b);
    var h' := Give(h, b);
    FullIffUnused(h', b.page);
    if h'.arenas[b.page].freeCnt >= PerArena(h.arenas[b.page].desc.value) {
      DropArenaKeepsSound(h', b.page);
      DropKeepsBlocks(h, h', b.page);
    }
  }

  lemma DropKeepsBlocks(h: Heap, h': Heap, p: nat)
    requires Sound(h') && IsSmall(h', p) && forall c :: c in h'.live ==> c.page != p && SameBlock(h, h', c)
    ensures forall c :: c in h'.live ==> SameBlock(h, DropArena(h', p), c)
  {
    forall c | c in h'.live ensures SameBlock(h, DropArena(h', p), c) {
      assert SameBlock(h, h', c);
      DropChangesNoBlock(h', p, c);
    }
  }

  // ---------------------------------------------------------------- bytes

  /** The `n` bytes from `at` on are the same in both memories. */
  ghost predicate SameBytes(was: seq<byte>, now: seq<byte>, at: nat, n: int) {
    |now| == |was| && at + n <= |was| && forall k :: at <= k < at + n ==> now[k] == was[k]
  }

  /** The bytes are overwritten, to help detect use after free. */
  ghost predicate Overwritten(mem: seq<byte>, at: nat, n: int) {
    at + n <= |mem| && forall k :: at <= k < at + n ==> mem[k] == 0xcc
  }

  lemma JunkStays(mem: seq<byte>, at: nat, n: nat, page: nat)
    requires at + n <= |mem|
    ensures var filled := Palloc.Filled(mem, at, n, Palloc.JUNK);
      && Overwritten(filled, at, n)
      && ((page + 1) * PGSIZE <= |mem| ==> Overwritten(Palloc.Filled(filled, page * PGSIZE, PGSIZE, Palloc.JUNK), at, n))
  {
  }

  /** Every block of `h` holds what it held. */
  ghost predicate BytesKept(h: Heap, was: seq<byte>, now: seq<byte>) {
    forall c :: c in h.live && c.page in h.arenas ==> SameBytes(was, now, Address(h, c), Usable(h, c))
  }

  /** Where a block in use lies in memory. */
  lemma BlockInMemory(h: Heap, pool: Palloc.Pool, memLen: nat, b: Block)
    requires HeapOk(h, pool) && b in h.live && Palloc.EndPage(pool) * PGSIZE <= memLen
    ensures UsedBlock(h, b)
    ensures Address(h, b) >= ARENA_HEADER && Address(h, b) + Usable(h, b) <= memLen
  {
    BlockInArena(h, b);
    ArenaPagesInUse(h, pool, b.page);
    MulLe(b.page + Pages(h.arenas[b.page]), Palloc.EndPage(pool), PGSIZE);
  }

  /** Filling a freed block with junk reaches no other. */
  lemma FillKeepsOthers(h: Heap, pool: Palloc.Pool, mem: seq<byte>, b: Block, c: Block)
    requires HeapOk(h, pool) && b in h.live && c in h.live && b != c && Palloc.EndPage(pool) * PGSIZE <= |mem|
    ensures UsedBlock(h, b) && UsedBlock(h, c) && Usable(h, b) >= 0
    ensures Address(h, b) + Usable(h, b) <= |mem|
    ensures SameBytes(mem, Palloc.Filled(mem, Address(h, b), Usable(h, b), Palloc.JUNK), Address(h, c), Usable(h, c))
  {
    BlockInMemory(h, pool, |mem|, b);
    BlockInMemory(h, pool, |mem|, c);
    LiveBlocksAreDisjoint(h, pool, b, c);
  }

  /** Neither does overwriting the pages of an arena, for the blocks in other arenas. */
  lemma PageFillKeepsOthers(h: Heap, pool: Palloc.Pool, mem: seq<byte>, p: nat, c: Block)
    requires HeapOk(h, pool) && p in h.arenas && c in h.live && c.page != p && Palloc.EndPage(pool) * PGSIZE <= |mem|
    ensures UsedBlock(h, c) && (p + Pages(h.arenas[p])) * PGSIZE <= |mem|
    ensures SameBytes(mem, Palloc.Filled(mem, p * PGSIZE, Pages(h.arenas[p]) * PGSIZE, Palloc.JUNK),
                      Address(h, c), Usable(h, c))
  {
    BlockInMemory(h, pool, |mem|, c);
    BlockInArena(h, c);
    ArenaPagesInUse(h, pool, p);
    ArenasAreDisjoint(h, pool, p, c.page);
  }

  /** The address of a block in use tells which block it is. */
  lemma AddressToBlock(h: Heap, b: Block)
    requires Sound(h) && b in h.live
    ensures UsedBlock(h, b) && Address(h, b) != 0 && BlockToArena(Address(h, b)) == b.page
    ensures Address(h, b) % PGSIZE >= ARENA_HEADER
    ensures h.arenas[b.page].desc.Some? ==>
      BlockIndex(Address(h, b), BlockSize(h.arenas[b.page].desc.value)) == b.idx
  {
    var a := h.arenas[b.page];
    if a.desc.Some? {
      BlockToArenaInverts(b, BlockSize(a.desc.value), PerArena(a.desc.value));
    }
  }

  /** Memory after a small block has been given back. */
  function FreedMem(h: Heap, mem: seq<byte>, b: Block): (r: seq<byte>)
    requires Sound(h) && b in h.live && UsedBlock(h, b) && h.arenas[b.page].desc.Some? && Sound(Give(h, b))
    requires Address(h, b) + Usable(h, b) <= |mem| && (b.page + 1) * PGSIZE <= |mem|
  {
    var filled := Palloc.Filled(mem, Address(h, b), Usable(h, b), Palloc.JUNK);
    if b.page in Freed(h, b).arenas then filled else Palloc.Filled(filled, b.page * PGSIZE, PGSIZE, Palloc.JUNK)
  }

  lemma FreedKeepsBytes(h: Heap, pool: Palloc.Pool, mem: seq<byte>, b: Block)
    requires HeapOk(h, pool) && b in h.live && UsedBlock(h, b) && h.arenas[b.page].desc.Some?
    requires Palloc.EndPage(pool) * PGSIZE <= |mem|
    ensures Address(h, b) + Usable(h, b) <= |mem| && (b.page + 1) * PGSIZE <= |mem|
    ensures Sound(Give(h, b)) && BytesKept(Freed(h, b), mem, FreedMem(h, mem, b))
  {
    BlockInMemory(h, pool, |mem|, b);
    ArenaPagesInUse(h, pool, b.page);
    MulLe(b.page + 1, Palloc.EndPage(pool), PGSIZE);
    FreedReleases(h, b);
    var h', mem' := Freed(h, b), Palloc.Filled(mem, Address(h, b), Usable(h, b), Palloc.JUNK);
    forall c | c in h'.live && c.page in h'.arenas
      ensures SameBytes(mem, FreedMem(h, mem, b), Address(h', c), Usable(h', c))
    {
      assert SameBlock(h, h', c);
      FillKeepsOthers(h, pool, mem, b, c);
      if b.page !in h'.arenas {
        PageFillKeepsOthers(h, pool, mem', b.page, c);
      }
    }
  }

  lemma GiveBigKeepsBytes(h: Heap, pool: Palloc.Pool, mem: seq<byte>, b: Block)
    requires HeapOk(h, pool) && b in h.live && UsedBlock(h, b) && h.arenas[b.page].desc.None?
    requires Palloc.EndPage(pool) * PGSIZE <= |mem|
    ensures (b.page + Pages(h.arenas[b.page])) * PGSIZE <= |mem|
    ensures BytesKept(GiveBig(h, b), mem,
      Palloc.Filled(mem, b.page * PGSIZE, Pages(h.arenas[b.page]) * PGSIZE, Palloc.JUNK))
  {
    ArenaPagesInUse(h, pool, b.page);
    MulLe(b.page + Pages(h.arenas[b.page]), Palloc.EndPage(pool), PGSIZE);
    GiveBigReleases(h, b);
    var h' := GiveBig(h, b);
    forall c | c in h'.live && c.page in h'.arenas
      ensures SameBytes(mem, Palloc.Filled(mem, b.page * PGSIZE, Pages(h.arenas[b.page]) * PGSIZE, Palloc.JUNK),
                        Address(h', c), Usable(h', c))
    {
      assert SameBlock(h, h', c);
      PageFillKeepsOthers(h, pool, mem, b.page, c);
    }
  }

  /** The `n` bytes at `to` now are those that were at `from`. */
  ghost predicate Moved(was: seq<byte>, now: seq<byte>, from: nat, to: nat, n: int) {
    |now| == |was| && from + n <= |was| && to + n <= |was| && forall j :: to <= j < to + n ==> now[j] == was[from + (j - to)]
  }

  /** The block `o` has become `b`, of the new size, with as much of its contents as fits; every other block is where
      it was and holds what it held. */
  ghost predicate Resized(h: Heap, h': Heap, mem: seq<byte>, mem': seq<byte>, o: Block, b: Block,
                          size: size_t) {
    && o in h.live && o.page in h.arenas && b !in h.live && b.page in h'.arenas && h'.live == h.live[b := size] - {o}
    && (forall c :: c in h'.live && c != b ==> SameBlock(h, h', c))
    && (size + ARENA_HEADER <= WORD ==>
      && (forall c :: c in h'.live && c != b ==> SameBytes(mem, mem', Address(h', c), Usable(h', c)))
      && Moved(mem, mem', Address(h, o), Address(h', b), Min(size, Usable(h, o))))
  }

  /** Copying into the new block. */
  lemma CopyMovesAndKeeps(h: Heap, pool: Palloc.Pool, mem: seq<byte>, o: Block, b: Block, n: nat)
    requires HeapOk(h, pool) && b in h.live && o in h.live && b != o && Palloc.EndPage(pool) * PGSIZE <= |mem|
    requires UsedBlock(h, b) && UsedBlock(h, o) && n <= Usable(h, b) && n <= Usable(h, o)
    ensures var mem' := Palloc.Copied(mem, Address(h, b), Address(h, o), n);
      && Moved(mem, mem', Address(h, o), Address(h, b), n)
      && forall c :: c in h.live && c != b ==> UsedBlock(h, c) && SameBytes(mem, mem', Address(h, c), Usable(h, c))
  {
    BlockInMemory(h, pool, |mem|, b);
    BlockInMemory(h, pool, |mem|, o);
    var mem' := Palloc.Copied(mem, Address(h, b), Address(h, o), n);
    forall c | c in h.live && c != b ensures UsedBlock(h, c) && SameBytes(mem, mem', Address(h, c), Usable(h, c)) {
      BlockInMemory(h, pool, |mem|, c);
      LiveBlocksAreDisjoint(h, pool, b, c);
    }
  }

  /** What was copied and what was kept, seen after the old block has been freed. */
  lemma ResizedBytes(h1: Heap, h2: Heap, pool: Palloc.Pool, mem: seq<byte>, mem2: seq<byte>,
                     o: Block, b: Block, n: nat)
    requires HeapOk(h1, pool) && b in h1.live && o in h1.live && b != o && Palloc.EndPage(pool) * PGSIZE <= |mem|
    requires UsedBlock(h1, b) && UsedBlock(h1, o) && n <= Usable(h1, b) && n <= Usable(h1, o)
    requires Released(h1, h2, o)
    requires BytesKept(h2, Palloc.Copied(mem, Address(h1, b), Address(h1, o), n), mem2)
    ensures b.page in h2.arenas && Moved(mem, mem2, Address(h1, o), Address(h2, b), n)
    ensures forall c :: c in h2.live && c != b ==> c.page in h2.arenas && SameBytes(mem, mem2, Address(h2, c), Usable(h2, c))
  {
    var mem1 := Palloc.Copied(mem, Address(h1, b), Address(h1, o), n);
    CopyMovesAndKeeps(h1, pool, mem, o, b, n);
    assert SameBlock(h1, h2, b);
    assert SameBytes(mem1, mem2, Address(h2, b), Usable(h2, b));
    forall c | c in h2.live && c != b
      ensures c.page in h2.arenas && SameBytes(mem, mem2, Address(h2, c), Usable(h2, c))
    {
      assert SameBlock(h1, h2, c);
      assert SameBytes(mem1, mem2, Address(h2, c), Usable(h2, c));
      assert SameBytes(mem, mem1, Address(h1, c), Usable(h1, c));
    }
  }

  /** Allocating, copying and freeing make a resized block. */
  lemma ResizedInThreeSteps(h: Heap, h1: Heap, h2: Heap, pool: Palloc.Pool, mem: seq<byte>,
                            mem1: seq<byte>, mem2: seq<byte>, o: Block, b: Block, size: size_t)
    requires o in h.live && HeapOk(h1, pool) && Palloc.EndPage(pool) * PGSIZE <= |mem|
    requires b !in h.live && h1.live == h.live[b := size] && b.page in h1.arenas
    requires forall c :: c in h.live ==> SameBlock(h, h1, c)
    requires o.page in h.arenas && Min(size, Usable(h, o)) >= 0
    requires mem1 == Palloc.Copied(mem, Address(h1, b), Address(h, o), Min(size, Usable(h, o)))
    requires Released(h1, h2, o) && BytesKept(h2, mem1, mem2)
    ensures Resized(h, h2, mem, mem2, o, b, size)
  {
    assert SameBlock(h, h1, o) && SameBlock(h1, h2, b);
    forall c | c in h2.live && c != b ensures SameBlock(h, h2, c) {
      assert SameBlock(h, h1, c) && SameBlock(h1, h2, c);
    }
    BigEnoughIff(h1, b);
    BigEnoughIff(h1, o);
    if size + ARENA_HEADER <= WORD {
      ResizedBytes(h1, h2, pool, mem, mem2, o, b, Min(size, Usable(h, o)));
    }
  }

  /** The smallest descriptor with blocks of `size` bytes, if any has. */
  function DescFrom(size: nat, d: nat): (r: Option<nat>)
    requires d <= DESC_CNT && forall e :: 0 <= e < d ==> BlockSize(e) < size
    ensures r.Some? ==> r.value < DESC_CNT && BlockSize(r.value) >= size
    ensures forall e :: 0 <= e < (if r.Some? then r.value else DESC_CNT) ==> BlockSize(e) < size
    decreases DESC_CNT - d
  {
    if d == DESC_CNT then None else if BlockSize(d) >= size then Some(d) else DescFrom(size, d + 1)
  }

  /** Whether a request can be met. */
  ghost predicate Available(h: Heap, pool: Palloc.Pool, size: size_t)
    requires |h.free| == DESC_CNT
  {
    && size > 0
    && match DescFrom(size, 0)
       case Some(d) => h.free[d] != [] || Fits(pool.used, 1)
       case None => PageCnt(size) > 0 && Fits(pool.used, PageCnt(size))
  }

  /** A block given back last is handed out first; with none left, a fresh arena hands out its blocks by ascending
      address. */
  ghost predicate HandsOutFirst(h: Heap, h': Heap, b: Block) {
    b.page in h'.arenas && match h'.arenas[b.page].desc
    case None => b.idx == 0
    case Some(d) => d < |h.free| == |h'.free| && IsFirst(h.free[d], h'.free[d], b, b.page !in h.arenas)
  }

  predicate IsFirst(was: seq<Block>, now: seq<Block>, b: Block, isNew: bool) {
    if was != [] then b == was[0] && now == was[1..]
    else b.idx == 0 && isNew && forall i :: 0 <= i < |now| ==> now[i] == Block(b.page, i + 1)
  }

  lemma FreshIsFirst(p: nat, n: nat)
    requires n > 0
    ensures IsFirst([], ([] + Fresh(p, n))[1..], ([] + Fresh(p, n))[0], true)
  {
    assert [] + Fresh(p, n) == Fresh(p, n);
    assert forall i :: 0 <= i < n ==> Fresh(p, n)[i] == Block(p, i);
  }

  class Allocator {
    const palloc: Palloc.PageAllocator
    const descs: seq<Desc>
    var free: seq<seq<Block>>
    var arenas: map<nat, Arena>
    ghost var slots: map<nat, seq<bool>>
    ghost var live: map<Block, size_t>
    ghost var owner: map<nat, nat>

    ghost function H(): Heap
      reads this
    {
      Heap(free, arenas, slots, live, owner)
    }

    /** The heap and the pool its pages come from. */
    ghost function S(): Store
      reads this, palloc
    {
      Store(H(), palloc.kernelPool)
    }

    ghost predicate Valid()
      reads this, palloc
    {
      palloc.Valid() && DescsOk(descs) && HeapOk(H(), palloc.kernelPool)
    }

    constructor (palloc: Palloc.PageAllocator)
      requires palloc.Valid()
      ensures Valid() && this.palloc == palloc && live == map[]
    {
      var ds: seq<Desc> := [];
      var blockSize := 16;
      while blockSize < PGSIZE / 2
        invariant |ds| <= DESC_CNT && blockSize == if |ds| < DESC_CNT then BlockSize(|ds|) else 2048
        invariant forall d :: 0 <= d < |ds| ==> ds[d] == Desc(BlockSize(d), PerArena(d))
        decreases DESC_CNT - |ds|
      {
        ds := ds + [Desc(blockSize, (PGSIZE - ARENA_HEADER) / blockSize)];
        blockSize := blockSize * 2;
      }
      this.palloc := palloc;
      descs := ds;
      free := seq(DESC_CNT, _ => []);
      arenas, slots, live, owner := map[], map[], map[], map[];
    }

    /** Hands out a block of at least `size` bytes, or the null address. */
    method Malloc(size: size_t) returns (addr: nat, ghost b: Block)
      requires Valid()
      modifies this, palloc
      ensures Valid() && palloc.mem == old(palloc.mem) && palloc.userPool == old(palloc.userPool)
      ensures addr != 0 <==> Available(old(H()), old(palloc.kernelPool), size)
      ensures addr == 0 ==> H() == old(H()) && palloc.kernelPool == old(palloc.kernelPool)
      ensures addr != 0 ==> HandsOut(old(S()), S(), b, size) && addr == Address(H(), b)
      ensures addr != 0 ==> HandsOutFirst(old(H()), H(), b)
      ensures IsCall(old(S()), S())
    {
      addr, b := 0, Block(0, 0);
      if size == 0 {
        return;
      }
      var d := PickDesc(size);
      if d == DESC_CNT {
        addr, b := MallocBig(size);
      } else {
        addr, b := MallocSmall(d, size);
      }
      if addr != 0 {
        MallocIsCall(old(S()), S(), b, size, if d == DESC_CNT then None else Some(d));
      }
    }

    /** The smallest descriptor that satisfies the request, or one past the last. */
    method PickDesc(size: size_t) returns (d: nat)
      requires DescsOk(descs)
      ensures d <= DESC_CNT && DescFrom(size, 0) == (if d < DESC_CNT then Some(d) else None)
      ensures d < DESC_CNT ==> size <= BlockSize(d)
    {
      d := 0;
      while d < DESC_CNT && descs[d].blockSize < size
        invariant d <= DESC_CNT && forall e :: 0 <= e < d ==> BlockSize(e) < size
        invariant DescFrom(size, 0) == DescFrom(size, d)
      {
        d := d + 1;
      }
    }

    method MallocBig(size: size_t) returns (addr: nat, ghost b: Block)
      requires Valid() && size > 0
      modifies this, palloc
      ensures Valid() && palloc.mem == old(palloc.mem) && palloc.userPool == old(palloc.userPool)
      ensures addr != 0 <==> PageCnt(size) > 0 && Fits(old(palloc.kernelPool).used, PageCnt(size))
      ensures addr == 0 ==> H() == old(H()) && palloc.kernelPool == old(palloc.kernelPool)
      ensures addr != 0 ==> Allocated(old(H()), H(), b, size, None) && addr == Address(H(), b)
      ensures addr != 0 ==> TookPages(old(H()), H(), old(palloc.kernelPool), palloc.kernelPool, b)
    {
      addr, b := 0, Block(0, 0);
      var pageCnt := (size + ARENA_HEADER + PGSIZE - 1) % WORD / PGSIZE;
      ghost var h, pool := H(), palloc.kernelPool;
      var a, _ := palloc.GetMultiple(false, false, false, pageCnt);
      if a.None? {
        return;
      }
      addr, b := a.value * PGSIZE + ARENA_HEADER, Block(a.value, 0);
      TakeBigServes(h, pool, palloc.kernelPool, a.value, size);
      arenas := arenas[a.value := Arena(None, pageCnt)];
      live := live[b := size];
      owner := owner + (map i | i in PageRange(a.value, pageCnt) :: a.value);
      assert H() == TakeBig(h, a.value, pageCnt, size);
    }

    method MallocSmall(d: nat, size: size_t) returns (addr: nat, ghost b: Block)
      requires Valid() && d < DESC_CNT && 0 < size <= BlockSize(d)
      modifies this, palloc
      ensures Valid() && palloc.mem == old(palloc.mem) && palloc.userPool == old(palloc.userPool)
      ensures addr != 0 <==> old(free[d]) != [] || Fits(old(palloc.kernelPool).used, 1)
      ensures addr == 0 ==> H() == old(H()) && palloc.kernelPool == old(palloc.kernelPool)
      ensures addr != 0 ==> Allocated(old(H()), H(), b, size, Some(d)) && addr == Address(H(), b)
      ensures addr != 0 ==> TookPages(old(H()), H(), old(palloc.kernelPool), palloc.kernelPool, b)
      ensures addr != 0 ==> HandsOutFirst(old(H()), H(), b)
    {
      addr, b := 0, Block(0, 0);
      ghost var h := H();
      if free[d] == [] {
        var ok, p := AddArena(d);
        if !ok {
          return;
        }
        forall c | c in h.live ensures SameBlock(h, H(), c) {
          NewArenaChangesNoBlock(h, p, d, c);
        }
        FreshIsFirst(p, PerArena(d));
        assert SameArenas(h.arenas, H().arenas - {p});
      } else {
        FrontIsFree(h, d, size);
        forall c | c in h.live ensures SameBlock(h, h, c) {
          assert UsedBlock(h, c);
        }
      }
      ghost var h' := H();
      addr, b := PopFront(d, size);
      SameBlockTwice(h, h', H(), b, size, Some(d));
    }

    /** Gets a page and cuts it up for descriptor `d`. */
    method AddArena(d: nat) returns (ok: bool, ghost p: nat)
      requires Valid() && d < DESC_CNT && free[d] == []
      modifies this, palloc
      ensures palloc.Valid() && palloc.mem == old(palloc.mem) && palloc.userPool == old(palloc.userPool)
      ensures ok <==> Fits(old(palloc.kernelPool).used, 1)
      ensures !ok ==> H() == old(H()) && palloc.kernelPool == old(palloc.kernelPool)
      ensures Sound(H()) && PagesOk(H(), palloc.kernelPool)
      ensures ok ==> p !in old(arenas) && H() == NewArena(old(H()), p, d)
      ensures ok ==> |free[d]| > 0 && free[d][0].page == p && NoneIdleBut(H(), p)
      ensures ok ==> Palloc.Took(old(palloc.kernelPool), palloc.kernelPool, p, 1)
    {
      p := 0;
      ghost var h, pool := H(), palloc.kernelPool;
      var page, _ := palloc.GetMultiple(false, false, false, 1);
      ok := page.Some?;
      if ok {
        p := page.value;
        NewArenaPages(h, p, d, pool, palloc.kernelPool);
        NewArenaKeepsSound(h, p, d);
        NewArenaFront(h, p, d);
        CutUp(page.value, d);
      }
    }

    method CutUp(page: nat, d: nat)
      requires DescsOk(descs) && Sound(H()) && d < DESC_CNT && free[d] == []
      modifies this
      ensures H() == NewArena(old(H()), page, d)
    {
      var n := descs[d].blocksPerArena;
      arenas := arenas[page := Arena(Some(d), n)];
      for i := 0 to n
        invariant arenas == old(arenas)[page := Arena(Some(d), n)] && |free| == DESC_CNT
        invariant slots == old(slots) && live == old(live) && owner == old(owner)
        invariant free == old(free)[d := Fresh(page, i)]
      {
        assert Fresh(page, i + 1) == Fresh(page, i) + [Block(page, i)];
        free := free[d := free[d] + [Block(page, i)]];
      }
      assert [] + Fresh(page, n) == Fresh(page, n);
      slots := slots[page := seq(n, _ => true)];
      owner := owner[page := page];
    }

    /** Hands out the first block of a free list. */
    method PopFront(d: nat, size: size_t) returns (addr: nat, ghost b: Block)
      requires palloc.Valid() && DescsOk(descs) && Sound(H()) && PagesOk(H(), palloc.kernelPool)
      requires d < DESC_CNT && free[d] != [] && size <= BlockSize(d) && NoneIdleBut(H(), free[d][0].page)
      modifies this
      ensures Valid() && Allocated(old(H()), H(), b, size, Some(d)) && addr == Address(H(), b) && addr != 0
      ensures b == old(free)[d][0] && SameArenas(old(arenas), arenas)
      ensures |free| == |old(free)| && free[d] == old(free)[d][1..]
    {
      ghost var h := H();
      FrontIsFree(h, d, size);
      TakeAllocates(h, palloc.kernelPool, d, size);
      b := free[d][0];
      addr := Unhook(d, size);
      assert H() == Take(h, d, size) && addr == Address(H(), b);
    }

    /** Takes the first block off a free list. */
    method Unhook(d: nat, ghost size: size_t) returns (addr: nat)
      requires DescsOk(descs) && d < DESC_CNT == |free| && free[d] != []
      requires var b := free[d][0];
        && b.page in arenas && arenas[b.page].freeCnt > 0 && b.page in slots && b.idx < |slots[b.page]|
      modifies this`free, this`arenas, this`slots, this`live
      ensures var b := old(free)[d][0];
        && addr == ArenaToBlock(b, BlockSize(d))
        && free == old(free)[d := old(free)[d][1..]]
        && arenas == old(arenas)[b.page := old(arenas)[b.page].(freeCnt := old(arenas)[b.page].freeCnt - 1)]
        && slots == old(slots)[b.page := old(slots)[b.page][b.idx := false]]
        && live == old(live)[b := size]
    {
      var block := free[d][0];
      addr := ArenaToBlock(block, descs[d].blockSize);
      var a := arenas[block.page];
      free := free[d := free[d][1..]];
      arenas := arenas[block.page := a.(freeCnt := a.freeCnt - 1)];
      slots := slots[block.page := slots[block.page][block.idx := false]];
      live := live[block := size];
    }

    /** Gives a block back, and its page once no block in it is in use. No other block is touched. */
    method Free(addr: nat, ghost b: Block)
      requires Valid() && (addr != 0 ==> b in live && b.page in arenas && addr == Address(H(), b))
      modifies this, palloc
      ensures Valid() && palloc.userPool == old(palloc.userPool)
      ensures addr == 0 ==> H() == old(H()) && palloc.kernelPool == old(palloc.kernelPool) && palloc.mem == old(palloc.mem)
      ensures addr != 0 ==> TakesBack(old(S()), S(), b) && BytesKept(H(), old(palloc.mem), palloc.mem)
      ensures addr != 0 ==> Overwritten(palloc.mem, addr, Usable(old(H()), b))
      ensures addr != 0 && b.page in arenas ==>
        arenas[b.page].desc.Some? && arenas[b.page].desc.value < |free| == |old(free)| &&
        free == old(free)[arenas[b.page].desc.value := [b] + old(free)[arenas[b.page].desc.value]]
      ensures IsCall(old(S()), S())
    {
      if addr != 0 {
        AddressToBlock(H(), b);
        var page := BlockToArena(addr);
        if arenas[page].desc.Some? {
          FreeSmall(addr, b);
        } else {
          FreeBig(page, b);
        }
        FreeIsCall(old(S()), S(), b);
      }
    }

    method FreeBig(page: nat, ghost b: Block)
      requires Valid() && b in live && UsedBlock(H(), b) && page == b.page && arenas[page].desc.None?
      modifies this, palloc
      ensures Valid() && palloc.userPool == old(palloc.userPool)
      ensures Released(old(H()), H(), b) && BytesKept(H(), old(palloc.mem), palloc.mem)
      ensures GavePages(old(H()), H(), old(palloc.kernelPool), palloc.kernelPool, b)
      ensures Overwritten(palloc.mem, Address(old(H()), b), Usable(old(H()), b)) && b.page !in arenas
    {
      ghost var h, pool := H(), palloc.kernelPool;
      var n := arenas[page].freeCnt;
      ArenaPagesInUse(h, pool, page);
      GiveBigKeepsBytes(h, pool, palloc.mem, b);
      palloc.FreeMultiple(page, n);
      GiveBigServes(h, pool, palloc.kernelPool, b);
      arenas := arenas - {page};
      live := live - {b};
      owner := owner - PageRange(page, n);
    }

    method FreeSmall(addr: nat, ghost b: Block)
      requires Valid() && b in live && UsedBlock(H(), b) && arenas[b.page].desc.Some? && addr == Address(H(), b)
      modifies this, palloc
      ensures Valid() && palloc.userPool == old(palloc.userPool)
      ensures Released(old(H()), H(), b) && BytesKept(H(), old(palloc.mem), palloc.mem)
      ensures GavePages(old(H()), H(), old(palloc.kernelPool), palloc.kernelPool, b)
      ensures Overwritten(palloc.mem, addr, Usable(old(H()), b))
      ensures b.page in arenas ==>
        arenas[b.page].desc.Some? && arenas[b.page].desc.value < |free| == |old(free)| &&
        free == old(free)[arenas[b.page].desc.value := [b] + old(free)[arenas[b.page].desc.value]]
    {
      ghost var h, pool, mem := H(), palloc.kernelPool, palloc.mem;
      AddressToBlock(h, b);
      FreedReleases(h, b);
      FreedKeepsBytes(h, pool, mem, b);
      var page := BlockToArena(addr);
      var d := arenas[page].desc.value;
      var block := Block(page, BlockIndex(addr, descs[d].blockSize));
      palloc.Fill(addr, descs[d].blockSize, Palloc.JUNK);
      PushFront(block);
      GiveReleases(h, b);
      SameArenasKeepPages(h, Give(h, b), pool);
      JunkStays(mem, addr, descs[d].blockSize, page);
      if arenas[page].freeCnt >= descs[d].blocksPerArena {
        ReturnArena(page);
      }
    }

    /** Puts a block on its free list. */
    method PushFront(block: Block)
      requires Valid() && block in live && UsedBlock(H(), block) && arenas[block.page].desc.Some?
      modifies this
      ensures H() == Give(old(H()), block)
    {
      var a := arenas[block.page];
      CountUpdate(slots[block.page], block.idx, true);
      free := free[a.desc.value := [block] + free[a.desc.value]];
      arenas := arenas[block.page := a.(freeCnt := a.freeCnt + 1)];
      slots := slots[block.page := slots[block.page][block.idx := true]];
      live := live - {block};
    }

    /** Takes an unused arena apart. */
    method ReturnArena(page: nat)
      requires palloc.Valid() && DescsOk(descs) && Sound(H()) && PagesOk(H(), palloc.kernelPool)
      requires page in arenas && arenas[page].desc.Some? && arenas[page].freeCnt >= PerArena(arenas[page].desc.value)
      modifies this, palloc
      ensures palloc.Valid() && palloc.userPool == old(palloc.userPool)
      ensures (page + 1) * PGSIZE <= |old(palloc.mem)|
      ensures H() == DropArena(old(H()), page) && PagesOk(H(), palloc.kernelPool)
      ensures Palloc.GaveBack(old(palloc.kernelPool), palloc.kernelPool, page, 1)
      ensures palloc.mem == Palloc.Filled(old(palloc.mem), page * PGSIZE, PGSIZE, Palloc.JUNK)
    {
      ghost var h, pool := H(), palloc.kernelPool;
      var d := arenas[page].desc.value;
      assert arenas[page].freeCnt == descs[d].blocksPerArena;
      UnlinkBlocks(page, d);
      ArenaPagesInUse(h, pool, page);
      palloc.FreeMultiple(page, 1);
      GonePagesOk(h, DropArena(h, page), pool, palloc.kernelPool, page);
      arenas := arenas - {page};
      owner := owner - {page};
    }

    method UnlinkBlocks(page: nat, d: nat)
      requires DescsOk(descs) && Sound(H()) && d < DESC_CNT
      modifies this`free
      ensures free == old(free)[d := Unlinked(old(free)[d], page, PerArena(d))]
    {
      UnlinkedNone(free[d], page);
      for i := 0 to descs[d].blocksPerArena
        invariant |free| == DESC_CNT && free == old(free)[d := Unlinked(old(free)[d], page, i)]
      {
        UnlinkedNext(old(free)[d], page, i);
        free := free[d := Remove(free[d], Block(page, i))];
      }
    }

    /** The bytes a block can hold. */
    method SizeOf(addr: nat, ghost b: Block) returns (n: nat)
      requires Valid() && b in live && b.page in arenas && addr == Address(H(), b)
      ensures n == Usable(H(), b)
    {
      AddressToBlock(H(), b);
      BlockInArena(H(), b);
      var a := arenas[BlockToArena(addr)];
      if a.desc.Some? {
        n := descs[a.desc.value].blockSize;
      } else {
        n := PGSIZE * a.freeCnt - addr % PGSIZE;
      }
    }

    /** Resizes the block at `oldAddr`, in general by moving it. If that fails the old block stays. */
    method Realloc(oldAddr: nat, newSize: size_t, ghost o: Block) returns (addr: nat, ghost b: Block)
      requires Valid() && (oldAddr != 0 ==> o in live && o.page in arenas && oldAddr == Address(H(), o))
      modifies this, palloc
      ensures Valid() && palloc.userPool == old(palloc.userPool)
      ensures addr != 0 <==> Available(old(H()), old(palloc.kernelPool), newSize)
      ensures newSize == 0 && oldAddr != 0 ==> TakesBack(old(S()), S(), o) && BytesKept(H(), old(palloc.mem), palloc.mem)
      ensures addr == 0 && (newSize != 0 || oldAddr == 0) ==>
        H() == old(H()) && palloc.mem == old(palloc.mem) && palloc.kernelPool == old(palloc.kernelPool)
      ensures addr != 0 ==> b.page in arenas && addr == Address(H(), b)
      ensures addr != 0 && oldAddr == 0 ==> HandsOut(old(S()), S(), b, newSize)
      ensures addr != 0 && oldAddr != 0 ==> Resized(old(H()), H(), old(palloc.mem), palloc.mem, o, b, newSize)
      ensures addr != 0 && oldAddr != 0 ==> Moves(old(S()), S(), o, b, newSize)
      ensures IsCall(old(S()), S())
    {
      addr, b := 0, Block(0, 0);
      if newSize == 0 {
        Free(oldAddr, o);
        return;
      }
      addr, b := Malloc(newSize);
      if oldAddr != 0 && addr != 0 {
        ghost var between := S();
        MoveAndFree(oldAddr, addr, newSize, o, b, old(H()));
        ReallocIsCall(old(S()), between, S(), o, b, newSize);
      }
    }

    method MoveAndFree(oldAddr: nat, addr: nat, newSize: size_t, ghost o: Block, ghost b: Block, ghost h: Heap)
      requires Valid() && oldAddr != 0 && o in h.live && o.page in h.arenas && oldAddr == Address(h, o)
      requires Allocated(h, H(), b, newSize, DescFrom(newSize, 0)) && addr == Address(H(), b) && addr != 0
      modifies this, palloc
      ensures Valid() && palloc.userPool == old(palloc.userPool)
      ensures Resized(h, H(), old(palloc.mem), palloc.mem, o, b, newSize) && addr == Address(H(), b)
      ensures TakesBack(old(S()), S(), o)
    {
      CopyContents(oldAddr, addr, newSize, o, b, h);
      ghost var h1, mem1, pool := H(), palloc.mem, palloc.kernelPool;
      Free(oldAddr, o);
      ResizedInThreeSteps(h, h1, H(), pool, old(palloc.mem), mem1, palloc.mem, o, b, newSize);
      assert SameBlock(h1, H(), b);
    }

    /** Copies as much of the old block as fits the new one. */
    method CopyContents(oldAddr: nat, addr: nat, newSize: size_t, ghost o: Block, ghost b: Block, ghost h: Heap)
      requires Valid() && o in h.live && o.page in h.arenas && oldAddr == Address(h, o)
      requires SameBlock(h, H(), o) && b in live && b.page in arenas && addr == Address(H(), b)
      modifies palloc
      ensures Valid() && palloc.userPool == old(palloc.userPool) && palloc.kernelPool == old(palloc.kernelPool)
      ensures Min(newSize, Usable(h, o)) >= 0
      ensures palloc.mem == Palloc.Copied(old(palloc.mem), addr, oldAddr, Min(newSize, Usable(h, o)))
    {
      var oldSize := SizeOf(oldAddr, o);
      var minSize := if newSize < oldSize then newSize else oldSize;
      palloc.Copy(addr, oldAddr, minSize);
    }
  }

  /** A request that wraps: the block it gets is far smaller. */
  method WrappedRequest(a: Allocator) returns (addr: nat, ghost b: Block)
    requires a.Valid() && Fits(a.palloc.kernelPool.used, 1)
    modifies a, a.palloc
    ensures addr != 0 && b in a.live && b.page in a.arenas && a.live[b] == 0xFFFF_FFFF
    ensures Usable(a.H(), b) == PGSIZE - ARENA_HEADER < a.live[b]
  {
    assert PageCnt(0xFFFF_FFFF) == 1;
    addr, b := a.Malloc(0xFFFF_FFFF);
  }
}
