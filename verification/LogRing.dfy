/** The shared log memory: record layout, slot arithmetic and the ring writer. */
module LogRing {
  import opened Words

  const PAGE_4KB: nat := 4096
  const LOG_PAGES_PER_CPU: nat := 2
  const ENTRY_BYTES: nat := 40
  const ENTRIES_PER_CPU: nat := 2 * 4096 / 40
  const LOGS_PER_CPU: nat := ENTRIES_PER_CPU - 1

  /** The slots fill a CPU's pages but for a remainder less than one slot, and one is not for records. */
  lemma Layout()
    ensures ENTRIES_PER_CPU * ENTRY_BYTES <= LOG_PAGES_PER_CPU * PAGE_4KB < (ENTRIES_PER_CPU + 1) * ENTRY_BYTES
    ensures ENTRIES_PER_CPU == 204 && LOGS_PER_CPU == 203
  {
  }

  /**
   * One 40-byte slot. The source's union overlays `meta.head` on `data.seq_num`,
   * so the head of a CPU's log is the `seqNum` of its slot 0.
   */
  datatype Entry = Entry(seqNum: u64, reason: u32, valid: u32, qualification: u64, rip: u64, gva: u64)

  /** What the handler is asked to log. */
  datatype Event = Event(rip: u64, reason: u32, qualification: u64, gva: u64)

  /** The record that carries `ev` under sequence number `k`. */
  function Record(k: u64, ev: Event): Entry {
    Entry(k, ev.reason, 1, ev.qualification, ev.rip, ev.gva)
  }

  /** Slot of a sequence number in a ring of n data slots. Defined for the
    * numbers below zero too, which the reader's walk may start from. */
  function SeqToIndex(k: int, n: nat): (index: nat)
    requires 0 < n
    ensures 1 <= index <= n
  {
    k % n + 1
  }

  function Head(region: seq<Entry>): u64
    requires 0 < |region|
  {
    region[0].seqNum
  }

  /** `log_buffer_add_record` on one CPU's region. */
  function AddRecord(region: seq<Entry>, ev: Event, n: nat): (region': seq<Entry>)
    requires 0 < n && |region| == n + 1
    ensures |region'| == n + 1
  {
    var head := Head(region);
    var filled := region[SeqToIndex(head, n) := Record(head, ev)];
    filled[0 := filled[0].(seqNum := (head + 1) % 0x1_0000_0000_0000_0000)]
  }

  /** A zeroed region, as `init_log` leaves it. */
  function EmptyRegion(n: nat): (region: seq<Entry>)
    ensures |region| == n + 1
  {
    seq(n + 1, _ => Entry(0, 0, 0, 0, 0, 0))
  }

  /** The region is what appending exactly `hist`, in order, leaves behind. */
  ghost predicate HoldsTail(region: seq<Entry>, hist: seq<Event>, n: nat) {
    && 0 < n
    && |region| == n + 1
    && |hist| < TWO_64
    && Head(region) == |hist|
    && (forall k | 0 <= k < |hist| && |hist| - n <= k :: region[SeqToIndex(k, n)] == Record(k, hist[k]))
    && (forall i | |hist| < i <= n :: region[i].valid == 0)
  }

  /** The records numbered from..to-1 of a history. */
  ghost function Window(hist: seq<Event>, from: nat, to: nat): (w: seq<Entry>)
    requires from <= to <= |hist| < TWO_64
    ensures |w| == to - from
    ensures forall i | 0 <= i < |w| :: w[i] == Record(from + i, hist[from + i])
  {
    seq(to - from, i requires 0 <= i < to - from => Record(from + i, hist[from + i]))
  }

  lemma EmptyHoldsNothing(n: nat)
    requires 0 < n
    ensures HoldsTail(EmptyRegion(n), [], n)
  {
  }

  /** Every append keeps the ring holding exactly the last n records. */
  lemma AddKeepsTail(region: seq<Entry>, hist: seq<Event>, ev: Event, n: nat)
    requires HoldsTail(region, hist, n) && |hist| + 1 < TWO_64
    ensures HoldsTail(AddRecord(region, ev, n), hist + [ev], n)
  {
    var h := |hist|;
    var region' := AddRecord(region, ev, n);
    var hist' := hist + [ev];
    forall k | 0 <= k < h + 1 && h + 1 - n <= k
      ensures region'[SeqToIndex(k, n)] == Record(k, hist'[k])
    {
      if k < h {
        ModInjective(k, h, n);
      }
    }
    if h < n {
      ModUnique(h, 0, h, n);
    }
  }

  /** What an append writes, field by field, and where: behind slot 0, by the number's remainder. */
  lemma AppendedRecord(region: seq<Entry>, ev: Event, n: nat)
    requires 0 < n && |region| == n + 1
    ensures var head, region' := region[0].seqNum, AddRecord(region, ev, n);
            var e := region'[head % n + 1];
            && e.seqNum == head && e.reason == ev.reason && e.qualification == ev.qualification
            && e.rip == ev.rip && e.gva == ev.gva && e.valid == 1
            && region'[0] == region[0].(seqNum := (head + 1) % 0x1_0000_0000_0000_0000)
            && forall i | 0 < i <= n && i != head % n + 1 :: region'[i] == region[i]
  {
  }

  /** A record is replaced by the append n numbers later and by none before it. */
  lemma OverwrittenBy(region: seq<Entry>, hist: seq<Event>, ev: Event, n: nat, k: nat)
    requires HoldsTail(region, hist, n) && |hist| + 1 < TWO_64
    requires |hist| - n <= k < |hist|
    ensures region[SeqToIndex(k, n)] == Record(k, hist[k])
    ensures AddRecord(region, ev, n)[SeqToIndex(k, n)] == Record(k, hist[k]) <==> k != |hist| - n
  {
    if k == |hist| - n {
      ModAdd(k, 1, n);
    } else {
      ModInjective(k, |hist|, n);
    }
  }

  /** The slots of two neighbours and of the number a ring before the second. */
  lemma NeighbourSlots(x: nat, n: nat)
    requires 0 < n <= x
    ensures SeqToIndex(x, n) == SeqToIndex(x - n, n)
    ensures SeqToIndex(x, n) == SeqToIndex(x - 1, n) ==> n == 1
    ensures SeqToIndex(x, n) == 1 <==> x % n == 0
    ensures SeqToIndex(0, n) == 1
    ensures n == 1 ==> x % n == 0
  {
    ModAdd(x - n, 1, n);
    ModUnique(0, 0, 0, n);
    if n > 1 {
      ModInjective(x, x - 1, n);
    }
  }

  /** Two appends around the wrap leave every slot alone but their own two. */
  lemma AppendAround(region: seq<Entry>, ev: Event, ev': Event, n: nat, index: nat)
    requires 0 < n && |region| == n + 1 && Head(region) == 0xFFFF_FFFF_FFFF_FFFF
    requires 0 < index <= n && index != SeqToIndex(0xFFFF_FFFF_FFFF_FFFF, n)
    ensures var after := AddRecord(AddRecord(region, ev, n), ev', n);
            && Head(after) == 1
            && after[SeqToIndex(0, n)] == Record(0, ev')
            && (index != SeqToIndex(0, n) ==> after[index] == region[index])
  {
  }

  /**
   * Behind the last 64-bit number the head is zero again. The ring goes on in order, with the
   * next append over the oldest record, if and only if its size divides 2^64; otherwise that
   * record stays in the slot of number 2^64 while slot 1 is written.
   */
  lemma HeadWraps(region: seq<Entry>, hist: seq<Event>, ev: Event, ev': Event, n: nat)
    requires HoldsTail(region, hist, n) && |hist| == TWO_64 - 1 && 1 < n < TWO_64
    ensures var after := AddRecord(AddRecord(region, ev, n), ev', n);
            && Head(after) == 1 && after[1] == Record(0, ev')
            && (SeqToIndex(TWO_64, n) == 1 <==> TWO_64 % n == 0)
            && (TWO_64 % n != 0 ==> after[SeqToIndex(TWO_64, n)] == Record(TWO_64 - n, hist[TWO_64 - n]))
  {
    NeighbourSlots(TWO_64, n);
    AppendAround(region, ev, ev', n, SeqToIndex(TWO_64, n));
    assert region[SeqToIndex(TWO_64 - n, n)] == Record(TWO_64 - n, hist[TWO_64 - n]);
  }

  /** The ring of 203 records does lose its order there. */
  lemma OrderEnds()
    ensures TWO_64 % LOGS_PER_CPU == 198
  {
    ModUnique(TWO_64, 90870660461623406, 198, 203);
  }
}
