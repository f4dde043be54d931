/** Page permissions of a memory range: the range split into blocks, each block into pages. */
module PageCover {
  import opened Words

  const PAGE_SHIFT: nat := 12

  // ---- Bit operations on unsigned words ----

  function And(a: nat, b: nat): nat {
    if a == 0 || b == 0 then 0 else 2 * And(a / 2, b / 2) + (a % 2) * (b % 2)
  }

  function Shr(a: nat, k: nat): nat {
    if k == 0 then a else Shr(a / 2, k - 1)
  }

  function Pow2(k: nat): nat {
    if k == 0 then 1 else 2 * Pow2(k - 1)
  }

  lemma {:induction false} AndOnes(a: nat, w: nat)
    requires a < Pow2(w)
    ensures And(a, Pow2(w) - 1) == a
  {
    if w == 0 || a == 0 {
    } else {
      AndOnes(a / 2, w - 1);
      assert (Pow2(w) - 1) / 2 == Pow2(w - 1) - 1 && (Pow2(w) - 1) % 2 == 1;
    }
  }

  lemma ModHalves(a: nat, p: nat)
    requires 0 < p
    ensures a % (2 * p) == 2 * ((a / 2) % p) + a % 2
  {
    var q := (a / 2) / p;
    assert a / 2 == q * p + (a / 2) % p;
    assert a == q * (2 * p) + (2 * ((a / 2) % p) + a % 2);
    ModUnique(a, q, 2 * ((a / 2) % p) + a % 2, 2 * p);
  }

  lemma {:induction false} Pow2Positive(k: nat, w: nat)
    requires k <= w
    ensures 1 <= Pow2(k) <= Pow2(w)
    decreases w
  {
    if w == 0 {
    } else if k < w {
      Pow2Positive(k, w - 1);
    } else {
      Pow2Positive(k - 1, w - 1);
    }
  }

  lemma AndEven(a: nat, m: nat)
    ensures And(a, 2 * m) == 2 * And(a / 2, m)
  {
    if a != 0 && m != 0 {
      assert (2 * m) / 2 == m && (2 * m) % 2 == 0;
    }
  }

  /** Masking with all ones above bit k rounds down to a multiple of 2^k. */
  lemma {:induction false} AndRoundsDown(a: nat, k: nat, w: nat)
    requires k <= w && a < Pow2(w)
    ensures 0 < Pow2(k) <= Pow2(w) && And(a, Pow2(w) - Pow2(k)) == a - a % Pow2(k)
  {
    Pow2Positive(k, w);
    if k == 0 {
      AndOnes(a, w);
    } else {
      AndRoundsDown(a / 2, k - 1, w - 1);
      ModHalves(a, Pow2(k - 1));
      AndEven(a, Pow2(w - 1) - Pow2(k - 1));
    }
  }

  lemma DivHalves(a: nat, p: nat)
    requires 0 < p
    ensures (a / 2) / p == a / (2 * p)
  {
    ModHalves(a, p);
    var q, r := (a / 2) / p, a / (2 * p);
    assert a / 2 == q * p + (a / 2) % p;
    assert a == r * (2 * p) + a % (2 * p);
    assert (r - q) * (2 * p) == 0 by {
      assert q * (2 * p) == 2 * (q * p);
    }
    SmallMultiple(r - q, 2 * p);
  }

  lemma {:induction false} ShrDivides(a: nat, k: nat)
    ensures Pow2(k) > 0 && Shr(a, k) == a / Pow2(k)
  {
    Pow2Positive(k, k);
    if k == 0 {
    } else {
      ShrDivides(a / 2, k - 1);
      DivHalves(a, Pow2(k - 1));
    }
  }

  lemma Powers()
    ensures Pow2(12) == 4096 && Pow2(32) == 0x1_0000_0000 && Pow2(64) == 0x1_0000_0000_0000_0000
  {
    assert Pow2(8) == 256;
    assert Pow2(12) == 16 * Pow2(8);
    assert Pow2(16) == 16 * Pow2(12);
    assert Pow2(24) == 256 * Pow2(16);
    assert Pow2(32) == 256 * Pow2(24);
    assert Pow2(40) == 256 * Pow2(32);
    assert Pow2(48) == 256 * Pow2(40);
    assert Pow2(56) == 256 * Pow2(48);
    assert Pow2(64) == 256 * Pow2(56);
  }

  // ---- Pages ----

  /** PAGE_ALIGN_4K in 32 bits, with its wrap. */
  function PageAlign(size: u32): nat {
    And((size + 4096 - 1) % 0x1_0000_0000, 0x1_0000_0000 - 4096)
  }

  /** How many pages `util_monitor_memory` takes a size for. */
  function PagesOf(size: u32): nat {
    Shr(PageAlign(size), PAGE_SHIFT)
  }

  /** The start of the page of an address. */
  function PageStart(addr: u64): nat {
    And(addr, 0x1_0000_0000_0000_0000 - 4096)
  }

  function Ceiling(size: nat): nat {
    (size + 4095) / 4096
  }

  lemma PageStartRoundsDown(addr: u64)
    ensures PageStart(addr) == addr - addr % 4096
  {
    Powers();
    AndRoundsDown(addr, 12, 64);
  }

  lemma AlignValue(size: u32)
    ensures PageAlign(size) == (size + 4095) % 0x1_0000_0000 - ((size + 4095) % 0x1_0000_0000) % 4096
  {
    Powers();
    AndRoundsDown((size + 4095) % 0x1_0000_0000, 12, 32);
  }

  lemma PagesValue(size: u32)
    ensures PagesOf(size) == ((size + 4095) % 0x1_0000_0000) / 4096
  {
    AlignValue(size);
    ShrDivides(PageAlign(size), 12);
    Powers();
    WholePages((size + 4095) % 0x1_0000_0000);
  }

  lemma WholePages(x: nat)
    ensures (x - x % 4096) / 4096 == x / 4096
  {
  }

  /** The mask and the shift are the integer ceiling, if and only if the addition does not wrap. */
  lemma PagesIsCeiling(size: u32)
    ensures PagesOf(size) == Ceiling(size) <==> size <= 0x1_0000_0000 - 4096
    ensures size > 0x1_0000_0000 - 4096 ==> PagesOf(size) == 0
  {
    PagesValue(size);
  }

  /** What the hypervisor is told about one page. */
  datatype PageItem = PageItem(gva: u64, gpa: u64, perms: u32)

  /** The j-th page from the page of `start` on, in 64-bit addresses. */
  function PageAt(start: u64, j: nat): u64 {
    (PageStart(start) + 4096 * j) % 0x1_0000_0000_0000_0000
  }

  /** n pages in order from the page of `start` on. */
  function Range(start: u64, n: nat, perms: u32, translate: u64 -> u64): (items: seq<PageItem>)
    ensures |items| == n
  {
    seq(n, j requires 0 <= j < n => PageItem(PageAt(start, j), translate(PageAt(start, j)), perms))
  }

  /**
   * The items say, in order, of each of n pages from the page of `start` on: its virtual address,
   * the physical address it translates to, and the permission.
   */
  ghost predicate Tells(items: seq<PageItem>, start: u64, n: nat, perms: u32, translate: u64 -> u64) {
    && |items| == n
    && forall j | 0 <= j < n ::
         && items[j].gva == (start - start % 4096 + 4096 * j) % 0x1_0000_0000_0000_0000
         && items[j].gpa == translate(items[j].gva)
         && items[j].perms == perms
  }

  lemma RangeTells(start: u64, n: nat, perms: u32, translate: u64 -> u64)
    ensures Tells(Range(start, n, perms, translate), start, n, perms, translate)
  {
    forall j | 0 <= j < n
      ensures PageAt(start, j) == (start - start % 4096 + 4096 * j) % 0x1_0000_0000_0000_0000
    {
      PageAtSays(start, j);
    }
  }

  lemma PageAtSays(start: u64, j: nat)
    ensures PageAt(start, j) == (start - start % 4096 + 4096 * j) % 0x1_0000_0000_0000_0000
  {
    PageStartRoundsDown(start);
  }

  lemma SuffixTells(before: seq<PageItem>, after: seq<PageItem>, start: u64, n: nat, perms: u32, translate: u64 -> u64)
    requires after == before + Range(start, n, perms, translate)
    ensures after[..|before|] == before && Tells(after[|before|..], start, n, perms, translate)
  {
    RangeTells(start, n, perms, translate);
    assert after[|before|..] == Range(start, n, perms, translate);
  }

  /** Which call of one block fails, if any. */
  datatype Fault = NoFault | AllocationFails | TranslationFails(page: nat) | UpdateFails {
    /** A block of n pages meets the fault. */
    predicate Strikes(n: int) {
      AllocationFails? || UpdateFails? || (TranslationFails? && page < n)
    }
  }

  lemma PageStep(start: u64, j: nat)
    ensures PageAt(start, j + 1) == (PageAt(start, j) + 4096) % 0x1_0000_0000_0000_0000
    ensures PageAt(start, 0) == PageStart(start)
  {
    PageStartRoundsDown(start);
  }

  /** Rounding down to a page commutes with the wrap of addresses. */
  lemma RoundMod(x: nat)
    ensures var r := x % 0x1_0000_0000_0000_0000; r - r % 4096 == (x - x % 4096) % 0x1_0000_0000_0000_0000
  {
    var q, r := x / 0x1_0000_0000_0000_0000, x % 0x1_0000_0000_0000_0000;
    assert x == q * 0x1_0000_0000_0000_0000 + r;
    ModAdd(r, 0x10_0000_0000_0000 * q, 4096);
    assert x % 4096 == r % 4096;
    ModUnique(x - x % 4096, q, r - r % 4096, 0x1_0000_0000_0000_0000);
  }

  /** Rounding down to a page commutes with adding whole pages, wrap included. */
  lemma RoundShift(start: u64, p: nat)
    ensures var later := (start + 4096 * p) % 0x1_0000_0000_0000_0000;
            later - later % 4096 == ((start - start % 4096) + 4096 * p) % 0x1_0000_0000_0000_0000
  {
    RoundMod(start + 4096 * p);
    ModAdd(start, p, 4096);
  }

  lemma AddShift(a: nat, p: nat, j: nat)
    ensures ((a + 4096 * p) % 0x1_0000_0000_0000_0000 + 4096 * j) % 0x1_0000_0000_0000_0000
         == (a + 4096 * (p + j)) % 0x1_0000_0000_0000_0000
  {
  }

  /** The pages of a later block go on where the pages before it stopped. */
  lemma PageShift(start: u64, later: u64, p: nat, j: nat)
    requires later == (start + 4096 * p) % 0x1_0000_0000_0000_0000
    ensures PageAt(later, j) == PageAt(start, p + j)
  {
    PageStartRoundsDown(start);
    PageStartRoundsDown(later);
    RoundShift(start, p);
    AddShift(start - start % 4096, p, j);
  }

  class Monitor {
    /** IKGT_ADDRINFO_MAX_COUNT. */
    const limit: nat
    /** Every page update the hypervisor has carried out, in order. */
    var updated: seq<PageItem>

    constructor (limit: nat)
      ensures this.limit == limit && updated == []
    {
      this.limit := limit;
      updated := [];
    }

    /** `util_monitor_memory`: all the pages of a block or none. */
    method MonitorMemory(start: u64, size: u32, perms: u32, translate: u64 -> u64, fault: Fault) returns (ok: bool)
      modifies this`updated
      ensures ok <==> && PagesOf(size) <= limit && !fault.AllocationFails? && !fault.UpdateFails?
                      && (fault.TranslationFails? ==> PagesOf(size) <= fault.page)
      ensures updated == old(updated) + if ok then Range(start, PagesOf(size), perms, translate) else []
      ensures ok ==> Tells(updated[|old(updated)|..], start, PagesOf(size), perms, translate)
    {
      PageStep(start, 0);
      var addr: u64 := PageStart(start);
      var pages := PagesOf(size);
      if pages > limit {
        return false;
      }
      if fault.AllocationFails? {
        return false;
      }
      var items := new PageItem[limit](_ => PageItem(0, 0, 0));
      var idx := 0;
      while idx < pages
        invariant idx <= pages && addr == PageAt(start, idx) && updated == old(updated)
        invariant fault.TranslationFails? ==> idx <= fault.page
        invariant items[..idx] == Range(start, idx, perms, translate)
      {
        if fault == TranslationFails(idx) {
          return false;
        }
        items[idx] := PageItem(addr, translate(addr), perms);
        PageStep(start, idx);
        addr := (addr + 4096) % 0x1_0000_0000_0000_0000;
        idx := idx + 1;
      }
      if fault.UpdateFails? {
        return false;
      }
      updated := updated + items[..pages];
      SuffixTells(old(updated), updated, start, pages, perms, translate);
      return true;
    }

    /**
     * `util_monitor_memory_ex`: blocks of at most `limit` pages until the size is used up. A
     * success has updated each page of the range once, in order; a failure at block `blocks`
     * leaves exactly the whole blocks before it updated. An empty range fails.
     */
    method MonitorMemoryEx(start: u64, size: u32, perms: u32, translate: u64 -> u64, faults: nat -> Fault)
      returns (ok: bool, blocks: nat, pages: nat)
      requires 1 <= limit && limit * 4096 + 4095 < TWO_32
      modifies this`updated
      ensures ok ==> pages == (size + 4095) / 4096 && size > 0
      ensures !ok ==> pages == blocks * limit && (size == 0 || pages < Ceiling(size))
      ensures !ok && size > 0 ==> faults(blocks).Strikes(Min(limit, Ceiling(size) - pages))
      ensures forall b | 0 <= b < blocks :: !faults(b).Strikes(Min(limit, Ceiling(size) - b * limit))
      ensures ok ==> pages <= blocks * limit < pages + limit
      ensures updated == old(updated) + Range(start, pages, perms, translate)
      ensures updated[..|old(updated)|] == old(updated)
      ensures Tells(updated[|old(updated)|..], start, pages, perms, translate)
    {
      ok, blocks, pages := false, 0, 0;
      var addr: u64, left: u32 := start, size;
      assert Range(start, 0, perms, translate) == [];
      while left != 0
        invariant Progress(start, size, limit, faults, addr, left, blocks, pages)
        invariant ok <==> blocks > 0
        invariant updated == old(updated) + Range(start, pages, perms, translate)
      {
        var block: u32 := Min(left, limit * 4096);
        BlockPages(size, left, limit, pages);
        ok := MonitorMemory(addr, block, perms, translate, faults(blocks));
        if !ok {
          SuffixTells(old(updated), updated, start, pages, perms, translate);
          return;
        }
        RangeConcat(start, addr, pages, PagesOf(block), perms, translate);
        Associative(old(updated), Range(start, pages, perms, translate), Range(addr, PagesOf(block), perms, translate));
        NextProgress(start, size, limit, faults, addr, left, blocks, pages, block, PagesOf(block));
        addr := (addr + block) % 0x1_0000_0000_0000_0000;
        left := left - block;
        pages := pages + PagesOf(block);
        blocks := blocks + 1;
      }
      SuffixTells(old(updated), updated, start, pages, perms, translate);
    }
  }

  lemma Associative<T>(a: seq<T>, b: seq<T>, c: seq<T>)
    ensures (a + b) + c == a + (b + c)
  {
  }

  lemma NextAddress(start: u64, pages: nat, limit: nat, block: u32)
    requires block == 4096 * limit
    ensures ((start + 4096 * pages) % 0x1_0000_0000_0000_0000 + block) % 0x1_0000_0000_0000_0000
         == (start + 4096 * (pages + limit)) % 0x1_0000_0000_0000_0000
  {
    AddShift(start, pages, limit);
  }

  /** What the loop over blocks knows when `left` bytes of the range are still to do. */
  ghost predicate Progress(start: u64, size: u32, limit: nat, faults: nat -> Fault,
                           addr: u64, left: u32, blocks: nat, pages: nat)
  {
    && left <= size
    && (left > 0 ==> addr == (start + 4096 * pages) % 0x1_0000_0000_0000_0000)
    && (left > 0 ==> size - left == 4096 * pages && pages == blocks * limit)
    && (left == 0 ==> pages == Ceiling(size) && (size > 0 ==> pages <= blocks * limit < pages + limit))
    && (left == size <==> blocks == 0)
    && forall b | 0 <= b < blocks :: !faults(b).Strikes(Min(limit, Ceiling(size) - b * limit))
  }

  /** The next block has n pages: it is a full one, or all that is left. */
  predicate Block(size: u32, left: u32, limit: nat, pages: nat, block: u32, n: nat) {
    && 0 < n <= limit && block <= left
    && (block < left ==> n == limit && block == 4096 * limit && pages + limit <= Ceiling(size))
    && (block == left ==> n == Ceiling(size) - pages)
  }

  /** The pages of the next block: a full block, or what is left of the range. */
  lemma BlockPages(size: u32, left: u32, limit: nat, pages: nat)
    requires 1 <= limit && limit * 4096 + 4095 < TWO_32
    requires 0 < left <= size && size - left == 4096 * pages
    ensures var block := Min(left, limit * 4096);
            && PagesOf(block) == Min(limit, Ceiling(size) - pages)
            && Block(size, left, limit, pages, block, PagesOf(block))
  {
    var block := Min(left, limit * 4096);
    PagesIsCeiling(block);
  }

  lemma BlockProgress(start: u64, size: u32, limit: nat, faults: nat -> Fault,
                      addr: u64, left: u32, blocks: nat, pages: nat)
    requires Progress(start, size, limit, faults, addr, left, blocks, pages)
    requires 1 <= limit && 4096 * limit < left && pages + limit <= Ceiling(size)
    requires !faults(blocks).Strikes(Min(limit, Ceiling(size) - pages))
    ensures Progress(start, size, limit, faults, (addr + 4096 * limit) % 0x1_0000_0000_0000_0000, left - 4096 * limit,
                     blocks + 1, pages + limit)
  {
    assert (blocks + 1) * limit == blocks * limit + limit;
    NextAddress(start, pages, limit, 4096 * limit);
  }

  lemma LastProgress(start: u64, size: u32, limit: nat, faults: nat -> Fault,
                     addr: u64, left: u32, blocks: nat, pages: nat, addr': u64)
    requires Progress(start, size, limit, faults, addr, left, blocks, pages) && left > 0
    requires 0 < Ceiling(size) - pages <= limit
    requires !faults(blocks).Strikes(Min(limit, Ceiling(size) - pages))
    ensures Progress(start, size, limit, faults, addr', 0, blocks + 1, Ceiling(size))
  {
    assert (blocks + 1) * limit == blocks * limit + limit;
  }

  lemma NextProgress(start: u64, size: u32, limit: nat, faults: nat -> Fault,
                     addr: u64, left: u32, blocks: nat, pages: nat, block: u32, n: nat)
    requires Progress(start, size, limit, faults, addr, left, blocks, pages) && left > 0
    requires Block(size, left, limit, pages, block, n) && !faults(blocks).Strikes(n)
    ensures Progress(start, size, limit, faults, (addr + block) % 0x1_0000_0000_0000_0000, left - block,
                     blocks + 1, pages + n)
  {
    if block < left {
      BlockProgress(start, size, limit, faults, addr, left, blocks, pages);
    } else {
      LastProgress(start, size, limit, faults, addr, left, blocks, pages, (addr + block) % 0x1_0000_0000_0000_0000);
    }
  }

  lemma RangeConcat(start: u64, later: u64, p: nat, n: nat, perms: u32, translate: u64 -> u64)
    requires later == (start + 4096 * p) % 0x1_0000_0000_0000_0000
    ensures Range(start, p, perms, translate) + Range(later, n, perms, translate)
         == Range(start, p + n, perms, translate)
  {
    forall j | 0 <= j < n
      ensures PageAt(later, j) == PageAt(start, p + j)
    {
      PageShift(start, later, p, j);
    }
  }

  // ---- What a range covers ----

  /** No page of a range is updated twice, nor is the page after it one of the range. */
  lemma RangeDistinct(start: u64, size: u32, i: nat, j: nat)
    requires i < j <= Ceiling(size)
    ensures PageAt(start, i) != PageAt(start, j)
  {
    PageStartRoundsDown(start);
  }

  /** Byte d of a range; ranges go on at zero behind the last address. */
  function ByteAt(start: u64, d: nat): u64 {
    (start + d) % 0x1_0000_0000_0000_0000
  }

  /** The page of an address is among the first n pages from `start` on. */
  ghost predicate Covered(start: u64, n: nat, addr: u64) {
    exists j | 0 <= j < n :: PageAt(start, j) == addr - addr % 4096
  }

  /** The page of an address is the virtual page of one of these items. */
  ghost predicate Told(items: seq<PageItem>, addr: u64) {
    exists j | 0 <= j < |items| :: items[j].gva == addr - addr % 4096
  }

  lemma ToldIsCovered(items: seq<PageItem>, start: u64, n: nat, perms: u32, translate: u64 -> u64, addr: u64)
    requires Tells(items, start, n, perms, translate)
    ensures Told(items, addr) <==> Covered(start, n, addr)
  {
    forall j | 0 <= j < n
      ensures items[j].gva == PageAt(start, j)
    {
      PageAtSays(start, j);
    }
  }

  lemma WholePart(start: nat, d: nat)
    ensures start + d - (start + d) % 4096 == start - start % 4096 + 4096 * ((start % 4096 + d) / 4096)
  {
  }

  /** The page of byte d is as many pages on as the byte is from the start of the first page. */
  lemma BytePage(start: u64, d: nat)
    ensures ByteAt(start, d) - ByteAt(start, d) % 4096 == PageAt(start, (start % 4096 + d) / 4096)
  {
    PageStartRoundsDown(start);
    RoundMod(start + d);
    WholePart(start, d);
  }

  lemma ByteCovered(start: u64, size: u32, d: nat)
    requires d < size
    ensures Covered(start, Ceiling(size), ByteAt(start, d)) <==> (start % 4096 + d) / 4096 < Ceiling(size)
  {
    var q := (start % 4096 + d) / 4096;
    BytePage(start, d);
    assert q <= Ceiling(size);
    forall i | 0 <= i < Ceiling(size)
      ensures PageAt(start, i) == PageAt(start, q) ==> i == q
    {
      if i < q {
        RangeDistinct(start, size, i, q);
      } else if q < i {
        RangeDistinct(start, size, q, i);
      }
    }
  }

  lemma PagesCover(start: u64, size: u32)
    requires 0 < size
    ensures (forall d | 0 <= d < size :: Covered(start, Ceiling(size), ByteAt(start, d)))
       <==> start % 4096 + size <= 4096 * Ceiling(size)
  {
    if start % 4096 + size <= 4096 * Ceiling(size) {
      forall d | 0 <= d < size
        ensures Covered(start, Ceiling(size), ByteAt(start, d))
      {
        ByteCovered(start, size, d);
      }
    } else {
      ByteCovered(start, size, size - 1);
    }
  }

  /**
   * Exact page cover: what a successful call tells of a range holds the page of every byte of the
   * range if and only if the bytes in front of its start, in the start's page, leave room for it;
   * a page-aligned start always does. No page is told twice.
   */
  lemma CoverExactly(items: seq<PageItem>, start: u64, size: u32, perms: u32, translate: u64 -> u64)
    requires 0 < size && Tells(items, start, (size + 4095) / 4096, perms, translate)
    ensures (forall d | 0 <= d < size :: Told(items, ByteAt(start, d)))
       <==> start % 4096 + size <= 4096 * ((size + 4095) / 4096)
    ensures start % 4096 == 0 ==> start % 4096 + size <= 4096 * ((size + 4095) / 4096)
    ensures forall i, j | 0 <= i < j < |items| :: items[i].gva != items[j].gva
  {
    PagesCover(start, size);
    forall d | 0 <= d < size
      ensures Told(items, ByteAt(start, d)) <==> Covered(start, Ceiling(size), ByteAt(start, d))
    {
      ToldIsCovered(items, start, Ceiling(size), perms, translate, ByteAt(start, d));
    }
    ItemsDistinct(items, start, size, perms, translate);
  }

  lemma ItemsDistinct(items: seq<PageItem>, start: u64, size: u32, perms: u32, translate: u64 -> u64)
    requires Tells(items, start, Ceiling(size), perms, translate)
    ensures forall i, j | 0 <= i < j < |items| :: items[i].gva != items[j].gva
  {
    forall i, j | 0 <= i < j < |items|
      ensures items[i].gva != items[j].gva
    {
      PageAtSays(start, i);
      PageAtSays(start, j);
      RangeDistinct(start, size, i, j);
    }
  }

  /** Two bytes from the last one of a page on: the second is in a page that is not told. */
  lemma UnalignedMisses(items: seq<PageItem>, perms: u32, translate: u64 -> u64)
    requires Tells(items, 4095, 1, perms, translate)
    ensures (2 + 4095) / 4096 == 1 && !Told(items, ByteAt(4095, 1)) && ByteAt(4095, 1) == 4096
  {
    ToldIsCovered(items, 4095, 1, perms, translate, ByteAt(4095, 1));
    ByteCovered(4095, 2, 1);
  }
}
