/** One dump of every CPU's log, as a function of the log memory and the cursors. */
module LogDump {
  import opened Words
  import opened LogRing
  import opened LogReader
  import opened LogText
  import opened LogPage

  /** The log memory, one region per CPU, and the driver's cursor per CPU. */
  datatype Log = Log(regions: seq<seq<Entry>>, cursors: seq<u64>) {
    ghost predicate Shape() {
      && |regions| == |cursors| < TWO_32
      && forall i | 0 <= i < |regions| :: |regions[i]| == ENTRIES_PER_CPU
    }
  }

  /** Zeroed memory and cursors. */
  function EmptyLog(cpus: nat): Log {
    Log(seq(cpus, _ => EmptyRegion(LOGS_PER_CPU)), seq(cpus, _ => 0))
  }

  /** A u32 passed as a C int. */
  function AsInt(x: u32): int {
    if x < 0x8000_0000 then x else x - TWO_32
  }

  /** The driver's count of new records: a 64-bit difference kept in 32 bits. */
  function ToRead(head: u64, cursor: u64): u32 {
    ((head - cursor) % 0x1_0000_0000_0000_0000) % 0x1_0000_0000
  }

  /** The records of one CPU that a dump would print, given room. */
  function Backlog(region: seq<Entry>, cursor: u64): seq<Entry>
    requires |region| == ENTRIES_PER_CPU
  {
    var head := Head(region);
    var count := ToRead(head, cursor);
    if count == 0 || head == 0 then [] else ReadLogs(region, head, AsInt(count), LOGS_PER_CPU)
  }

  function Tagged(cpu: u32, entries: seq<Entry>): (items: seq<Item>)
    ensures |items| == |entries|
  {
    seq(|entries|, j requires 0 <= j < |entries| => Item(cpu, entries[j]))
  }

  function Backlogs(log: Log): (bs: seq<seq<Entry>>)
    requires log.Shape()
    ensures |bs| == |log.regions|
  {
    seq(|log.regions|, i requires 0 <= i < |log.regions| => Backlog(log.regions[i], log.cursors[i]))
  }

  /** The backlogs of the first `cpus` CPUs, in the order a dump prints them. */
  function Pending(bs: seq<seq<Entry>>, cpus: nat): seq<Item>
    requires cpus <= |bs| < TWO_32
  {
    if cpus == 0 then [] else Pending(bs, cpus - 1) + Tagged(cpus - 1, bs[cpus - 1])
  }

  function AllPending(bs: seq<seq<Entry>>): seq<Item>
    requires |bs| < TWO_32
  {
    Pending(bs, |bs|)
  }

  /** The text a dump leaves in the page. */
  function DumpText(log: Log): string
    requires log.Shape()
  {
    Page(AllPending(Backlogs(log)))
  }

  /** How many of CPU i's records are among the first k pending. */
  function CountedBy(bs: seq<seq<Entry>>, i: nat, k: nat): (t: nat)
    requires i < |bs| < TWO_32
    ensures t <= |bs[i]|
  {
    Max(0, Min(k - |Pending(bs, i)|, |bs[i]|))
  }

  /** How many of CPU i's records a dump counts. */
  function CountedOf(bs: seq<seq<Entry>>, i: nat): (t: nat)
    requires i < |bs| < TWO_32
    ensures t <= |bs[i]|
  {
    CountedBy(bs, i, Fit(AllPending(bs)))
  }

  /** CPU i is passed over by the dump: the page filled up before it was reached. */
  predicate Unreached(bs: seq<seq<Entry>>, i: nat)
    requires i < |bs| < TWO_32
  {
    Fit(AllPending(bs)) < |Pending(bs, i)|
  }

  /**
   * The cursor a dump leaves that counts the first k: the head where everything was counted, the
   * number of the first record not counted where the page filled up, the old cursor behind that.
   */
  function NextBy(log: Log, bs: seq<seq<Entry>>, i: nat, k: nat): u64
    requires log.Shape() && i < |bs| == |log.regions|
  {
    var t := CountedBy(bs, i, k);
    if k < |Pending(bs, i)| then log.cursors[i]
    else if t < |bs[i]| then bs[i][t].seqNum
    else Head(log.regions[i])
  }

  function NextCursor(log: Log, bs: seq<seq<Entry>>, i: nat): u64
    requires log.Shape() && i < |bs| == |log.regions|
  {
    NextBy(log, bs, i, Fit(AllPending(bs)))
  }

  function AfterDump(log: Log): (log': Log)
    requires log.Shape()
    ensures log'.Shape()
  {
    var bs := Backlogs(log);
    log.(cursors := seq(|log.cursors|, i requires 0 <= i < |log.cursors| => NextCursor(log, bs, i)))
  }

  function AfterAdd(log: Log, cpu: nat, ev: Event): (log': Log)
    requires log.Shape() && cpu < |log.regions|
    ensures log'.Shape()
  {
    log.(regions := log.regions[cpu := AddRecord(log.regions[cpu], ev, LOGS_PER_CPU)])
  }

  lemma {:induction false} PendingGrows(bs: seq<seq<Entry>>, i: nat, j: nat)
    requires i <= j <= |bs| < TWO_32
    ensures Pending(bs, i) <= Pending(bs, j)
    decreases j
  {
    if i == j {
    } else {
      PendingGrows(bs, i, j - 1);
    }
  }

  /** A CPU without a backlog adds nothing to what is printed. */
  lemma NothingPending(bs: seq<seq<Entry>>, cpu: nat)
    requires cpu < |bs| < TWO_32 && bs[cpu] == []
    ensures Pending(bs, cpu + 1) == Pending(bs, cpu)
  {
  }

  /** Records wait in the order of their CPUs, and on a CPU in the order read. */
  lemma {:induction false} PendingOrder(bs: seq<seq<Entry>>, n: nat, i: nat, j: nat)
    requires n <= |bs| < TWO_32 && i < j < |Pending(bs, n)|
    ensures Pending(bs, n)[i].cpu <= Pending(bs, n)[j].cpu < n
    decreases n
  {
    if n == 0 {
    } else {
      var before := Pending(bs, n - 1);
      PendingCpus(bs, n - 1);
      if j < |before| {
        PendingOrder(bs, n - 1, i, j);
      }
    }
  }

  lemma {:induction false} PendingCpus(bs: seq<seq<Entry>>, n: nat)
    requires n <= |bs| < TWO_32
    ensures forall i | 0 <= i < |Pending(bs, n)| :: Pending(bs, n)[i].cpu < n
  {
    if n == 0 {
    } else {
      PendingCpus(bs, n - 1);
    }
  }

  // ---- The dump in progress ----

  /** The records printed when j records of CPU `cpu` have been printed. */
  function Printed(bs: seq<seq<Entry>>, cpu: nat, j: nat): seq<Item>
    requires cpu < |bs| < TWO_32 && j <= |bs[cpu]|
  {
    Pending(bs, cpu) + Tagged(cpu, bs[cpu][..j])
  }

  /** The page still takes records: it holds these and counts them all. */
  ghost predicate Open(items: seq<Item>, text: string, dumped: nat) {
    text == Concat(Lines(items)) && |text| < FULL && dumped == |items|
  }

  /** The page took its last record: this is its final text and count. */
  ghost predicate Closed(all: seq<Item>, text: string, dumped: nat) {
    text == Body(all) && dumped == Fit(all) < |all|
  }

  lemma PrintedIsPrefix(bs: seq<seq<Entry>>, cpu: nat, j: nat)
    requires cpu < |bs| < TWO_32 && j <= |bs[cpu]|
    ensures Printed(bs, cpu, j) <= AllPending(bs)
    ensures j == |bs[cpu]| ==> Printed(bs, cpu, j) == Pending(bs, cpu + 1)
  {
    PendingGrows(bs, cpu + 1, |bs|);
    assert Tagged(cpu, bs[cpu][..j]) == Tagged(cpu, bs[cpu])[..j];
  }

  lemma PrintedNext(bs: seq<seq<Entry>>, cpu: nat, j: nat)
    requires cpu < |bs| < TWO_32 && j < |bs[cpu]|
    ensures Printed(bs, cpu, j + 1) == Printed(bs, cpu, j) + [Item(cpu, bs[cpu][j])]
    ensures Concat(Lines(Printed(bs, cpu, j + 1)))
         == Concat(Lines(Printed(bs, cpu, j))) + Line(Item(cpu, bs[cpu][j]))
  {
    LinesSnoc(Printed(bs, cpu, j), Item(cpu, bs[cpu][j]));
    assert Printed(bs, cpu, j + 1) == Printed(bs, cpu, j) + [Item(cpu, bs[cpu][j])];
  }

  /** What stands in the page when a record's line meets the limit. */
  function LastText(text: string, line: string): string
    requires |text| < FULL <= |text| + |line|
  {
    text + if |text| + |line| == FULL then line else line[..FULL - |text|] + ELLIPSIS
  }

  lemma CloseAt(all: seq<Item>, k: nat, text: string)
    requires k < |all| && Open(all[..k], text, k)
    requires |text| + |Line(all[k])| >= FULL
    ensures Closed(all, LastText(text, Line(all[k])), k)
  {
    LinesPrefix(all, k);
    FitsUnique(all, k, Fit(all));
  }

  /** Printing one record more keeps the page open or closes it for good. */
  lemma PrintOne(bs: seq<seq<Entry>>, cpu: nat, j: nat, text: string, dumped: nat)
    requires cpu < |bs| < TWO_32 && j < |bs[cpu]|
    requires Open(Printed(bs, cpu, j), text, dumped)
    ensures var line := Line(Item(cpu, bs[cpu][j]));
            if |text| + |line| < FULL then Open(Printed(bs, cpu, j + 1), text + line, dumped + 1)
            else Closed(AllPending(bs), LastText(text, line), dumped)
  {
    PrintedNext(bs, cpu, j);
    var all, item := AllPending(bs), Item(cpu, bs[cpu][j]);
    if |text| + |Line(item)| >= FULL {
      PrintedIsPrefix(bs, cpu, j + 1);
      assert all[..dumped] == Printed(bs, cpu, j);
      assert all[dumped] == item;
      CloseAt(all, dumped, text);
    }
  }

  /** Everything printed on an open page: all of it counts. */
  lemma AllPrinted(bs: seq<seq<Entry>>, text: string, dumped: nat)
    requires |bs| < TWO_32
    requires Open(AllPending(bs), text, dumped)
    ensures text == Body(AllPending(bs)) && dumped == Fit(AllPending(bs)) == |AllPending(bs)|
  {
    var all := AllPending(bs);
    assert all[..dumped] == all;
    FitsUnique(all, dumped, Fit(all));
  }

  /** The cursors while the dump works on CPU `cpu`: the CPUs before it are done. */
  function CursorsAt(log: Log, cpu: nat): (cursors: seq<u64>)
    requires log.Shape()
    ensures |cursors| == |log.cursors|
  {
    seq(|log.cursors|, i requires 0 <= i < |log.cursors| => if i < cpu then Head(log.regions[i]) else log.cursors[i])
  }

  /** Where a CPU stands against the count decides how much of it counts. */
  lemma CountedCases(bs: seq<seq<Entry>>, i: nat, k: nat)
    requires i < |bs| < TWO_32
    ensures |Pending(bs, i + 1)| == |Pending(bs, i)| + |bs[i]|
    ensures |Pending(bs, i + 1)| <= k ==> CountedBy(bs, i, k) == |bs[i]|
    ensures |Pending(bs, i)| <= k < |Pending(bs, i + 1)| ==> CountedBy(bs, i, k) == k - |Pending(bs, i)|
    ensures k < |Pending(bs, i)| ==> CountedBy(bs, i, k) == 0
  {
  }

  lemma PendingLengthens(bs: seq<seq<Entry>>, i: nat, j: nat)
    requires i <= j <= |bs| < TWO_32
    ensures |Pending(bs, i)| <= |Pending(bs, j)|
  {
    PendingGrows(bs, i, j);
  }

  lemma NextWhenClosed(log: Log, bs: seq<seq<Entry>>, cpu: nat, j: nat, i: nat, k: nat)
    requires log.Shape() && i < |bs| == |log.regions| && cpu < |bs|
    requires |Pending(bs, cpu)| <= k < |Pending(bs, cpu + 1)| && j == k - |Pending(bs, cpu)|
    ensures j < |bs[cpu]|
    ensures NextBy(log, bs, i, k)
         == if i < cpu then Head(log.regions[i]) else if i == cpu then bs[cpu][j].seqNum else log.cursors[i]
  {
    CountedCases(bs, i, k);
    if i < cpu {
      PendingLengthens(bs, i + 1, cpu);
    } else if i > cpu {
      PendingLengthens(bs, cpu + 1, i);
    }
  }

  /** The page closed at record j of CPU `cpu`: the cursors behind it have not moved. */
  lemma CursorsWhenClosed(log: Log, bs: seq<seq<Entry>>, cpu: nat, j: nat)
    requires log.Shape() && bs == Backlogs(log)
    requires cpu < |bs| && j < |bs[cpu]| && Fit(AllPending(bs)) == |Pending(bs, cpu)| + j
    ensures AfterDump(log).cursors == CursorsAt(log, cpu)[cpu := bs[cpu][j].seqNum]
  {
    var k := Fit(AllPending(bs));
    CountedCases(bs, cpu, k);
    forall i | 0 <= i < |bs|
      ensures NextBy(log, bs, i, k) == CursorsAt(log, cpu)[cpu := bs[cpu][j].seqNum][i]
    {
      NextWhenClosed(log, bs, cpu, j, i, k);
    }
  }

  lemma NextWhenOpen(log: Log, bs: seq<seq<Entry>>, i: nat)
    requires log.Shape() && i < |bs| == |log.regions|
    ensures NextBy(log, bs, i, |AllPending(bs)|) == Head(log.regions[i])
  {
    CountedCases(bs, i, |AllPending(bs)|);
    PendingLengthens(bs, i + 1, |bs|);
  }

  /** Everything counted: every cursor is at its head. */
  lemma CursorsWhenOpen(log: Log)
    requires log.Shape()
    requires var all := AllPending(Backlogs(log)); Fit(all) == |all|
    ensures AfterDump(log).cursors == CursorsAt(log, |log.regions|)
  {
    forall i | 0 <= i < |log.regions|
      ensures NextBy(log, Backlogs(log), i, |AllPending(Backlogs(log))|) == Head(log.regions[i])
    {
      NextWhenOpen(log, Backlogs(log), i);
    }
  }

  /** The records due from a CPU: those from the cursor on that the ring still holds. */
  ghost function Due(hist: seq<Event>, cursor: nat): seq<Entry>
    requires cursor <= |hist| < TWO_64
  {
    Window(hist, Max(cursor, |hist| - LOGS_PER_CPU), |hist|)
  }

  /** The 32-bit count still tells as many records as the ring can hold. */
  predicate Untruncated(head: nat, cursor: nat) {
    head - cursor < TWO_32 || (head - cursor) % 0x1_0000_0000 >= LOGS_PER_CPU
  }

  lemma ToReadOf(head: u64, cursor: u64)
    requires cursor <= head
    ensures ToRead(head, cursor) == (head - cursor) % 0x1_0000_0000 <= head - cursor
  {
  }

  /** Counts from 2^31 up turn negative on the way into the reader and still read a whole ring. */
  lemma ClampOfCount(count: u32)
    ensures ClampCount(AsInt(count), LOGS_PER_CPU) == Min(count, LOGS_PER_CPU)
    ensures AsInt(count) == 0 <==> count == 0
  {
  }

  /** What a dump reads from a CPU, by the count it goes by. */
  lemma BacklogByCount(region: seq<Entry>, hist: seq<Event>, cursor: u64, count: u32)
    requires HoldsTail(region, hist, LOGS_PER_CPU) && count == ToRead(|hist|, cursor) <= |hist|
    ensures Backlog(region, cursor) == Window(hist, |hist| - Min(count, LOGS_PER_CPU), |hist|)
  {
    if count != 0 {
      ClampOfCount(count);
      ExactWindow(region, hist, AsInt(count), LOGS_PER_CPU);
    }
  }

  /** What a dump reads from a CPU, in every case. */
  lemma BacklogWindow(region: seq<Entry>, hist: seq<Event>, cursor: u64)
    requires HoldsTail(region, hist, LOGS_PER_CPU) && cursor <= |hist|
    ensures var count := Min((|hist| - cursor) % 0x1_0000_0000, LOGS_PER_CPU);
            count <= |hist| && Backlog(region, cursor) == Window(hist, |hist| - count, |hist|)
  {
    ToReadOf(|hist|, cursor);
    BacklogByCount(region, hist, cursor, ToRead(|hist|, cursor));
  }

  lemma CountSurvives(behind: nat)
    ensures Min(behind % 0x1_0000_0000, LOGS_PER_CPU) == Min(behind, LOGS_PER_CPU)
       <==> behind < TWO_32 || behind % 0x1_0000_0000 >= LOGS_PER_CPU
  {
  }

  /**
   * A dump reads exactly the records due, if and only if the truncation of the count to
   * 32 bits leaves at least a ring's worth of it.
   */
  lemma BacklogIsDue(region: seq<Entry>, hist: seq<Event>, cursor: u64)
    requires HoldsTail(region, hist, LOGS_PER_CPU) && cursor <= |hist|
    ensures Backlog(region, cursor) == Due(hist, cursor) <==> Untruncated(|hist|, cursor)
  {
    BacklogWindow(region, hist, cursor);
    var behind := |hist| - cursor;
    CountSurvives(behind);
    assert Due(hist, cursor) == Window(hist, |hist| - Min(behind, LOGS_PER_CPU), |hist|);
  }

  /** Exactly 2^32 records behind, a dump reads nothing although the ring is full of records due. */
  lemma TruncationHidesAFullRing(region: seq<Entry>, hist: seq<Event>)
    requires HoldsTail(region, hist, LOGS_PER_CPU) && |hist| == TWO_32
    ensures Backlog(region, 0) == [] && |Due(hist, 0)| == LOGS_PER_CPU
  {
    BacklogWindow(region, hist, 0);
  }
}
