/** The page allocator: two pools of page frames, each with a map of the pages in use. */
module Palloc {
  import opened Common
  import opened Bitmap

  /** `base` is the number of the pool's first page. */
  datatype Pool = Pool(base: nat, used: seq<bool>)

  function EndPage(pool: Pool): nat {
    pool.base + |pool.used|
  }

  predicate PageFromPool(pool: Pool, page: nat) {
    pool.base <= page < EndPage(pool)
  }

  /** The `cnt` pages from `page` on all belong to the pool and are all in use. */
  ghost predicate InUse(pool: Pool, page: nat, cnt: nat) {
    pool.base <= page && AllAre(pool.used, page - pool.base, cnt, true)
  }

  /** For one page. */
  lemma OneInUse(pool: Pool, i: nat)
    ensures InUse(pool, i, 1) <==> PageFromPool(pool, i) && pool.used[i - pool.base]
  {
  }

  /** The `cnt` pages from `page` on were free in `was`, and taking them made `now`. */
  ghost predicate Took(was: Pool, now: Pool, page: nat, cnt: nat) {
    && was.base <= page && AllAre(was.used, page - was.base, cnt, false)
    && now == was.(used := SetMultiple(was.used, page - was.base, cnt, true))
  }

  ghost predicate GaveBack(was: Pool, now: Pool, page: nat, cnt: nat) {
    && InUse(was, page, cnt)
    && now == was.(used := SetMultiple(was.used, page - was.base, cnt, false))
  }

  /** Giving back what was taken restores the pool. */
  lemma GivingBackUndoesTaking(a: Pool, b: Pool, c: Pool, page: nat, cnt: nat)
    requires Took(a, b, page, cnt) && GaveBack(b, c, page, cnt)
    ensures c == a
  {
    FlipBack(a.used, page - a.base, cnt);
  }

  /** Pages in use before are never handed out again. */
  lemma TakenAreFresh(was: Pool, now: Pool, page: nat, cnt: nat, other: nat, n: nat, i: nat)
    requires Took(was, now, page, cnt) && InUse(was, other, n) && other <= i < other + n
    ensures InUse(now, other, n) && !(page <= i < page + cnt)
  {
    assert was.used[i - was.base];
  }

  /** `mem` with every byte of the `n` from `at` on set to `v`. */
  function Filled(mem: seq<byte>, at: nat, n: nat, v: byte): (r: seq<byte>)
    requires at + n <= |mem|
    ensures |r| == |mem|
    ensures forall k :: 0 <= k < |mem| ==> r[k] == if at <= k < at + n then v else mem[k]
  {
    SetMultiple(mem, at, n, v)
  }

  /** `mem` with the `n` bytes at `from` copied to `to`. */
  function Copied(mem: seq<byte>, to: nat, from: nat, n: nat): (r: seq<byte>)
    ensures |r| == |mem|
    ensures forall k :: 0 <= k < |mem| ==>
      r[k] == if to <= k < to + n && from + (k - to) < |mem| then mem[from + (k - to)] else mem[k]
  {
    seq(|mem|, k requires 0 <= k < |mem| =>
      if to <= k < to + n && from + (k - to) < |mem| then mem[from + (k - to)] else mem[k])
  }

  const JUNK: byte := 0xcc

  class PageAllocator {
    var kernelPool: Pool
    var userPool: Pool
    var mem: seq<byte>              // physical memory, addressed as the kernel does

    /** The pools lie one after the other in memory, and page 0, whose address is the null pointer, in neither. */
    ghost predicate Valid()
      reads this
    {
      && 0 < kernelPool.base && EndPage(kernelPool) <= userPool.base
      && EndPage(userPool) * PGSIZE <= |mem|
    }

    /** Splits the `pages` pages from `start` on between the pools, each with room for its own map. */
    constructor (start: nat, pages: nat, userPageLimit: nat, mem: seq<byte>)
      requires 0 < start && (start + pages) * PGSIZE <= |mem|
      requires MapPages(UserPages(pages, userPageLimit)) <= UserPages(pages, userPageLimit)
      requires MapPages(pages - UserPages(pages, userPageLimit)) <= pages - UserPages(pages, userPageLimit)
      ensures Valid() && this.mem == mem
      ensures start <= kernelPool.base && EndPage(userPool) == start + pages
      ensures forall i :: 0 <= i < |kernelPool.used| ==> !kernelPool.used[i]
      ensures forall i :: 0 <= i < |userPool.used| ==> !userPool.used[i]
    {
      var userPages := UserPages(pages, userPageLimit);
      var kernelPages := pages - userPages;
      kernelPool := InitPool(start, kernelPages);
      userPool := InitPool(start + kernelPages, userPages);
      this.mem := mem;
    }

    /** Takes the first `cnt` consecutive free pages of a pool. */
    method GetMultiple(user: bool, zero: bool, must: bool, cnt: nat) returns (r: Option<nat>, panics: bool)
      requires Valid()
      modifies this
      ensures Valid() && |mem| == |old(mem)|
      ensures r.None? ==> kernelPool == old(kernelPool) && userPool == old(userPool) && mem == old(mem)
      ensures panics <==> must && cnt > 0 && r.None?
      ensures r.None? <==> cnt == 0 || !Fits((if user then old(userPool) else old(kernelPool)).used, cnt)
      ensures r.Some? ==> if user
        then Took(old(userPool), userPool, r.value, cnt) && kernelPool == old(kernelPool)
        else Took(old(kernelPool), kernelPool, r.value, cnt) && userPool == old(userPool)
      ensures r.Some? ==> var was := if user then old(userPool) else old(kernelPool);
        was.base <= r.value && IsFirstRun(was.used, cnt, false, Some(r.value - was.base))
      ensures r.Some? ==> (r.value + cnt) * PGSIZE <= |mem|
      ensures r.Some? ==> mem == if zero then Filled(old(mem), r.value * PGSIZE, cnt * PGSIZE, 0) else old(mem)
    {
      panics := false;
      if cnt == 0 {
        return None, false;
      }
      var pool := if user then userPool else kernelPool;
      var idx, used := ScanAndFlip(pool.used, cnt, false);
      if idx.None? {
        return None, must;
      }
      if user {
        userPool := userPool.(used := used);
      } else {
        kernelPool := kernelPool.(used := used);
      }
      r := Some(pool.base + idx.value);
      if zero {
        mem := Filled(mem, r.value * PGSIZE, cnt * PGSIZE, 0);
      }
    }

    /** memset and memcpy; bytes beyond the end of memory are not modelled. */
    method Fill(at: nat, n: nat, v: byte)
      requires Valid() && at + n <= |mem|
      modifies this`mem
      ensures Valid() && mem == Filled(old(mem), at, n, v)
    {
      mem := Filled(mem, at, n, v);
    }

    method Copy(to: nat, from: nat, n: nat)
      requires Valid()
      modifies this`mem
      ensures Valid() && mem == Copied(old(mem), to, from, n)
    {
      mem := Copied(mem, to, from, n);
    }

    /** Gives `cnt` pages back to the pool they came from and overwrites them. */
    method FreeMultiple(page: nat, cnt: nat)
      requires Valid() && (InUse(kernelPool, page, cnt) || InUse(userPool, page, cnt))
      modifies this
      ensures Valid() && (page + cnt) * PGSIZE <= |mem|
      ensures cnt == 0 ==> kernelPool == old(kernelPool) && userPool == old(userPool) && mem == old(mem)
      ensures cnt > 0 ==> mem == Filled(old(mem), page * PGSIZE, cnt * PGSIZE, JUNK)
      ensures cnt > 0 && InUse(old(kernelPool), page, cnt) ==>
        GaveBack(old(kernelPool), kernelPool, page, cnt) && userPool == old(userPool)
      ensures cnt > 0 && InUse(old(userPool), page, cnt) ==>
        GaveBack(old(userPool), userPool, page, cnt) && kernelPool == old(kernelPool)
    {
      if cnt == 0 {
        return;
      }
      mem := Filled(mem, page * PGSIZE, cnt * PGSIZE, JUNK);
      if PageFromPool(kernelPool, page) {
        kernelPool := kernelPool.(used := SetMultiple(kernelPool.used, page - kernelPool.base, cnt, false));
      } else {
        userPool := userPool.(used := SetMultiple(userPool.used, page - userPool.base, cnt, false));
      }
    }
  }

  function UserPages(pages: nat, userPageLimit: nat): (n: nat)
    ensures n <= userPageLimit && 2 * n <= pages && (n == userPageLimit || pages < 2 * n + 2)
  {
    if pages / 2 > userPageLimit then userPageLimit else pages / 2
  }

  /** Pages taken by a map of `pages` bits: an 8-byte header and 32-bit words. */
  function MapPages(pages: nat): nat {
    (8 + (pages + 31) / 32 * 4 + PGSIZE - 1) / PGSIZE
  }

  /** They are as few as hold the header and the fewest words that have a bit for every page. */
  lemma MapFits(pages: nat, words: nat)
    requires 32 * (words - 1) < pages <= 32 * words
    ensures 4096 * (MapPages(pages) - 1) < 8 + 4 * words <= 4096 * MapPages(pages)
  {
    assert (pages + 31) / 32 == words;
  }

  function InitPool(base: nat, pages: nat): (pool: Pool)
    requires MapPages(pages) <= pages
    ensures pool.base >= base && EndPage(pool) == base + pages
    ensures forall i :: 0 <= i < |pool.used| ==> !pool.used[i]
  {
    Pool(base + MapPages(pages), seq(pages - MapPages(pages), _ => false))
  }
}
