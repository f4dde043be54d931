/**
 * The log as the code works on it: one block of memory shared by the handler, which appends
 * records to it, and the driver, which keeps a cursor per CPU and dumps records into a page.
 */
module LogDevice {
  import opened Words
  import opened LogRing
  import opened LogText
  import opened LogPage
  import LogReader
  import opened LogDump

  /** `get_cpu_log_buffer_start`: where a CPU's region starts. */
  function CpuStart(cpu: nat): (start: nat)
    ensures start == 204 * cpu
  {
    cpu * ENTRIES_PER_CPU
  }

  /** Bytes of the log memory of a number of CPUs. */
  function LogSize(cpus: nat): (size: nat)
    ensures size == 8192 * cpus
  {
    cpus * LOG_PAGES_PER_CPU * PAGE_4KB
  }

  /** In bytes: regions do not overlap, and the last one ends inside the memory. */
  lemma RegionsApart(cpus: nat, i: nat, j: nat)
    requires i < j < cpus
    ensures CpuStart(i) * ENTRY_BYTES + ENTRIES_PER_CPU * ENTRY_BYTES <= CpuStart(j) * ENTRY_BYTES
    ensures CpuStart(j) * ENTRY_BYTES + ENTRIES_PER_CPU * ENTRY_BYTES <= LogSize(cpus)
  {
    assert CpuStart(i) * ENTRY_BYTES == 8160 * i && CpuStart(j) * ENTRY_BYTES == 8160 * j;
  }

  /** The memory cut into one region per CPU; a remainder behind the last region is unused. */
  function Regions(mem: seq<Entry>, cpus: nat): (regions: seq<seq<Entry>>)
    requires CpuStart(cpus) <= |mem|
    ensures |regions| == cpus
    ensures forall i | 0 <= i < cpus :: |regions[i]| == ENTRIES_PER_CPU
  {
    seq(cpus, i requires 0 <= i < cpus => Region(mem, i))
  }

  function Region(mem: seq<Entry>, cpu: nat): (region: seq<Entry>)
    requires CpuStart(cpu + 1) <= |mem|
    ensures |region| == ENTRIES_PER_CPU
    ensures forall k | 0 <= k < ENTRIES_PER_CPU :: region[k] == mem[CpuStart(cpu) + k]
  {
    mem[CpuStart(cpu)..CpuStart(cpu + 1)]
  }

  /** A write into a slot of one CPU's region is seen in that slot of that region and nowhere else. */
  lemma WriteStaysInRegion(mem: seq<Entry>, cpus: nat, cpu: nat, index: nat, e: Entry)
    requires CpuStart(cpus) <= |mem|
    requires cpu < cpus && index < ENTRIES_PER_CPU
    ensures CpuStart(cpu) + index < |mem|
    ensures Regions(mem[CpuStart(cpu) + index := e], cpus)
         == Regions(mem, cpus)[cpu := Regions(mem, cpus)[cpu][index := e]]
  {
    var mem' := mem[CpuStart(cpu) + index := e];
    forall i | 0 <= i < cpus && i != cpu
      ensures Region(mem', i) == Region(mem, i)
    {
    }
    assert Region(mem', cpu) == Region(mem, cpu)[index := e];
  }

  class Device {
    const cpus: nat
    const mem: array<Entry>
    const cursor: array<u64>

    ghost predicate Shape()
      reads this
    {
      && LogSize(cpus) < TWO_32
      && mem.Length == LogSize(cpus) / ENTRY_BYTES
      && cursor.Length == cpus
    }

    /** The region of one CPU. */
    ghost function RegionOf(cpu: nat): (region: seq<Entry>)
      requires Shape() && cpu < cpus
      reads this, mem
      ensures |region| == ENTRIES_PER_CPU
    {
      Region(mem[..], cpu)
    }

    ghost function View(): (log: Log)
      requires Shape()
      reads this, mem, cursor
      ensures log.Shape() && |log.regions| == cpus
      ensures forall i | 0 <= i < cpus :: log.regions[i] == RegionOf(i)
    {
      Log(Regions(mem[..], cpus), cursor[..])
    }

    /** `init_log`: the size must not pass 32 bits. */
    constructor InitLog(numCpus: nat)
      requires LogSize(numCpus) < TWO_32
      ensures cpus == numCpus && fresh(mem) && fresh(cursor)
      ensures Shape()
      ensures View() == EmptyLog(numCpus)
    {
      cpus := numCpus;
      mem := new Entry[LogSize(numCpus) / ENTRY_BYTES](_ => Entry(0, 0, 0, 0, 0, 0));
      cursor := new u64[numCpus](_ => 0);
      new;
      var cpu := 0;
      while cpu < cpus
        invariant cpu <= cpus
        invariant forall i | 0 <= i < mem.Length :: mem[i] == Entry(0, 0, 0, 0, 0, 0)
        invariant forall i | 0 <= i < cpus :: cursor[i] == 0
      {
        mem[CpuStart(cpu)] := mem[CpuStart(cpu)].(seqNum := 0);
        cpu := cpu + 1;
      }
      forall i | 0 <= i < cpus
        ensures Region(mem[..], i) == EmptyRegion(LOGS_PER_CPU)
      {
      }
      assert Regions(mem[..], cpus) == EmptyLog(cpus).regions;
      assert cursor[..] == EmptyLog(cpus).cursors;
    }

    /** `log_buffer_add_record`, field by field. */
    method AddRecord(cpu: nat, ev: Event)
      requires Shape() && cpu < cpus
      modifies mem
      ensures View() == AfterAdd(old(View()), cpu, ev)
    {
      var start := CpuStart(cpu);
      var next := mem[start].seqNum;
      var index := SeqToIndex(next, LOGS_PER_CPU);
      ghost var before := mem[..];
      WriteFields(start + index, next, ev);
      ghost var filled := mem[..];
      WriteStaysInRegion(before, cpus, cpu, index, Record(next, ev));
      mem[start] := mem[start].(seqNum := (mem[start].seqNum + 1) % 0x1_0000_0000_0000_0000);
      WriteStaysInRegion(filled, cpus, cpu, 0, mem[start]);
      assert mem[..] == filled[start + 0 := mem[start]];
    }

    /** The six stores that fill a slot. */
    method WriteFields(slot: nat, next: u64, ev: Event)
      requires slot < mem.Length
      modifies mem
      ensures mem[..] == old(mem[..])[slot := Record(next, ev)]
    {
      mem[slot] := mem[slot].(rip := ev.rip);
      mem[slot] := mem[slot].(reason := ev.reason);
      mem[slot] := mem[slot].(qualification := ev.qualification);
      mem[slot] := mem[slot].(gva := ev.gva);
      mem[slot] := mem[slot].(seqNum := next);
      mem[slot] := mem[slot].(valid := 1);
    }

    /** Collects a slot that has been written. */
    method CopyValid(results: array<Entry>, copied: nat, entry: Entry) returns (next: nat)
      requires copied < results.Length
      modifies results
      ensures next == copied + if entry.valid != 0 then 1 else 0
      ensures results[..next] == old(results[..copied]) + if entry.valid != 0 then [entry] else []
    {
      next := copied;
      if entry.valid != 0 {
        results[next] := entry;
        next := next + 1;
      }
    }

    /** `read_logs` on the region of one CPU. */
    method ReadLogs(cpu: nat, results: array<Entry>, startSeqNum: u64, requested: int) returns (copied: nat)
      requires Shape() && cpu < cpus
      requires results.Length == LOGS_PER_CPU && results != mem
      modifies results
      ensures copied <= results.Length
      ensures results[..copied] == LogReader.ReadLogs(RegionOf(cpu), startSeqNum, requested, LOGS_PER_CPU)
    {
      ghost var region := RegionOf(cpu);
      ghost var r := LogReader.StartReader(startSeqNum, requested, LOGS_PER_CPU);
      LogReader.StartIndex(startSeqNum, requested, LOGS_PER_CPU);
      ghost var end := LogReader.RunReader(region, startSeqNum, r, LOGS_PER_CPU);
      var start := CpuStart(cpu);
      var count: nat := LogReader.ClampCount(requested, LOGS_PER_CPU);
      var index := SeqToIndex(startSeqNum, LOGS_PER_CPU);
      index := if index <= count then LOGS_PER_CPU - (count - index) else index - count;
      copied := 0;
      while count != 0
        invariant 1 <= index <= LOGS_PER_CPU
        invariant copied + count <= LOGS_PER_CPU
        invariant forall k | 0 <= k < ENTRIES_PER_CPU :: mem[start + k] == region[k]
        invariant r == LogReader.Reader(index, count, false, results[..copied])
        invariant LogReader.RunReader(region, startSeqNum, r, LOGS_PER_CPU) == end
      {
        r := LogReader.StepReader(region, startSeqNum, r, LOGS_PER_CPU);
        copied := CopyValid(results, copied, mem[start + index]);
        if index >= LOGS_PER_CPU {
          index := 1;
        } else {
          index := index + 1;
        }
        if index == SeqToIndex(startSeqNum, LOGS_PER_CPU) {
          break;
        }
        count := count - 1;
      }
    }

    /** Formats one record and adds it to the page. */
    method PrintRecord(page: array<char>, cpu: nat, entry: Entry, start: nat,
                       ghost bs: seq<seq<Entry>>, ghost j: nat, ghost dumped: nat)
      returns (full: bool, offset: nat)
      requires page.Length == PAGE_4KB && start < FULL
      requires cpu < |bs| < TWO_32 && j < |bs[cpu]| && entry == bs[cpu][j]
      requires Open(Printed(bs, cpu, j), page[..start], dumped)
      modifies page
      ensures start <= offset <= FULL + MAX_ELLIPSIS_SIZE
      ensures forall k | offset <= k < page.Length :: page[k] == old(page[k])
      ensures if full then Closed(AllPending(bs), page[..offset], dumped)
              else offset < FULL && Open(Printed(bs, cpu, j + 1), page[..offset], dumped + 1)
    {
      var record := Line(Item(cpu, entry));
      LineLength(Item(cpu, entry));
      assert |record| < MAX_LOG_RECORD_LEN;
      PrintOne(bs, cpu, j, page[..start], dumped);
      full, offset := AddMessage(page, record, start);
    }

    /** The page holds the records of the first `cpu` CPUs and is open, or it is closed for good. */
    static ghost predicate OnPage(page: array<char>, bs: seq<seq<Entry>>, cpu: nat,
                                  full: bool, offset: nat, dumped: nat)
      requires cpu <= |bs| < TWO_32
      reads page
    {
      && offset <= page.Length
      && if full then Closed(AllPending(bs), page[..offset], dumped)
         else offset < FULL && Open(Pending(bs, cpu), page[..offset], dumped)
    }

    /**
     * The inner loop of `dump_log`: prints the records of one CPU until the page is full, and
     * then sets the CPU's cursor back to the record that closed the page.
     */
    method PrintBacklog(page: array<char>, results: array<Entry>, copied: nat, cpu: nat, start: nat, counted: nat,
                        ghost bs: seq<seq<Entry>>)
      returns (full: bool, offset: nat, dumped: nat)
      requires page.Length == PAGE_4KB && copied <= results.Length && start < FULL
      requires cpu < cursor.Length == |bs| < TWO_32 && results[..copied] == bs[cpu]
      requires Open(Pending(bs, cpu), page[..start], counted)
      modifies page, cursor
      ensures start <= offset <= FULL + MAX_ELLIPSIS_SIZE
      ensures forall k | offset <= k < page.Length :: page[k] == old(page[k])
      ensures OnPage(page, bs, cpu + 1, full, offset, dumped)
      ensures !full ==> cursor[..] == old(cursor[..])
      ensures full ==> counted <= dumped < counted + copied
      ensures full ==> cursor[..] == old(cursor[..])[cpu := bs[cpu][dumped - counted].seqNum]
    {
      full, offset, dumped := false, start, counted;
      var j := 0;
      assert Printed(bs, cpu, 0) == Pending(bs, cpu);
      while j < copied
        invariant j <= copied && start <= offset < FULL && dumped == counted + j
        invariant Open(Printed(bs, cpu, j), page[..offset], dumped)
        invariant forall k | offset <= k < page.Length :: page[k] == old(page[k])
        invariant cursor[..] == old(cursor[..])
      {
        assert results[..copied][j] == bs[cpu][j];
        full, offset := PrintRecord(page, cpu, results[j], offset, bs, j, dumped);
        if full {
          cursor[cpu] := results[j].seqNum;
          return;
        }
        dumped := dumped + 1;
        j := j + 1;
      }
      PrintedIsPrefix(bs, cpu, copied);
    }

    /** Moves the cursor of a CPU to its head and reads what is new, if anything is. */
    method ReadBacklog(results: array<Entry>, cpu: nat) returns (none: bool, copied: nat)
      requires Shape() && cpu < cpus && results.Length == LOGS_PER_CPU && results != mem
      modifies cursor, results
      ensures copied <= results.Length && (none ==> copied == 0)
      ensures results[..copied] == Backlog(RegionOf(cpu), old(cursor[cpu]))
      ensures cursor[..] == old(cursor[..])[cpu := Head(RegionOf(cpu))]
    {
      var last := mem[CpuStart(cpu)].seqNum;
      assert last == Head(RegionOf(cpu));
      var count := ToRead(last, cursor[cpu]);
      cursor[cpu] := last;
      if count == 0 || last == 0 {
        return true, 0;
      }
      copied := ReadLogs(cpu, results, last, AsInt(count));
      none := false;
    }

    /**
     * The state of a dump when `cpu` CPUs have been passed: an open page with all their records
     * and their cursors at the head, or a closed page with the cursors as the dump leaves them.
     */
    ghost predicate Dumping(page: array<char>, log: Log, bs: seq<seq<Entry>>, cpu: nat,
                            full: bool, offset: nat, dumped: nat)
      reads this, mem, cursor, page
    {
      && Shape() && page.Length == PAGE_4KB
      && log.Shape() && bs == Backlogs(log) && |bs| == cpus && cpu <= cpus
      && offset <= FULL + MAX_ELLIPSIS_SIZE
      && OnPage(page, bs, cpu, full, offset, dumped)
      && View() == log.(cursors := if full then AfterDump(log).cursors else CursorsAt(log, cpu))
    }

    /**
     * The outer loop's pass over one CPU: its cursor moves to the head, and if there is anything
     * new its records are printed, which may set the cursor back and close the page.
     */
    method DumpNext(page: array<char>, results: array<Entry>, cpu: nat, start: nat, counted: nat,
                    ghost log: Log, ghost bs: seq<seq<Entry>>)
      returns (full: bool, offset: nat, dumped: nat)
      requires Dumping(page, log, bs, cpu, false, start, counted)
      requires cpu < cpus && results.Length == LOGS_PER_CPU && results != mem
      modifies page, cursor, results
      ensures start <= offset && Dumping(page, log, bs, cpu + 1, full, offset, dumped)
      ensures forall k | offset <= k < page.Length :: page[k] == old(page[k])
    {
      assert cursor[..][cpu] == log.cursors[cpu];
      var none, copied := ReadBacklog(results, cpu);
      assert cursor[..] == CursorsAt(log, cpu + 1);
      full, offset, dumped := false, start, counted;
      if none {
        NothingPending(bs, cpu);
      } else {
        full, offset, dumped := PrintBacklog(page, results, copied, cpu, start, counted, bs);
      }
      if full {
        ClosedCursors(log, bs, cpu, dumped - counted, cursor[..]);
      }
    }

    /** The loop of `dump_log` over the CPUs, up to a full page. */
    method DumpRecords(page: array<char>, ghost log: Log, ghost bs: seq<seq<Entry>>)
      returns (full: bool, offset: nat, dumped: nat)
      requires Dumping(page, log, bs, 0, false, 0, 0)
      modifies page, cursor
      ensures Dumping(page, log, bs, cpus, full, offset, dumped)
      ensures forall k | offset <= k < page.Length :: page[k] == old(page[k])
    {
      var results := new Entry[LOGS_PER_CPU](_ => Entry(0, 0, 0, 0, 0, 0));
      offset, dumped, full := 0, 0, false;
      var cpu := 0;
      while cpu < cpus && !full
        invariant Dumping(page, log, bs, cpu, full, offset, dumped)
        invariant forall k | offset <= k < page.Length :: page[k] == old(page[k])
      {
        full, offset, dumped := DumpNext(page, results, cpu, offset, dumped, log, bs);
        cpu := cpu + 1;
      }
    }

    /**
     * `dump_log`: prints the backlog of one CPU after the other until the page is full, moves
     * the cursors, and closes the page with the trailer. Returns the length of the text.
     */
    method DumpLog(page: array<char>) returns (length: nat)
      requires Shape() && page.Length == PAGE_4KB
      modifies page, cursor
      ensures length <= page.Length
      ensures page[..length] == DumpText(old(View()))
      ensures forall k | length <= k < page.Length :: page[k] == old(page[k])
      ensures View() == AfterDump(old(View()))
    {
      ghost var log := View();
      ghost var bs := Backlogs(log);
      assert cursor[..] == CursorsAt(log, 0);
      var full, offset, dumped := DumpRecords(page, log, bs);
      if !full {
        AllPrinted(bs, page[..offset], dumped);
        CursorsWhenOpen(log);
      }
      var trailer := Trailer(offset, dumped, full);
      PageOfBody(AllPending(bs), page[..offset], trailer);
      CopyText(page, offset, trailer);
      length := offset + |trailer|;
    }
  }

  /** The cursors when the page closes at record j of CPU `cpu`. */
  lemma ClosedCursors(log: Log, bs: seq<seq<Entry>>, cpu: nat, j: nat, cursors: seq<u64>)
    requires log.Shape() && bs == Backlogs(log)
    requires cpu < |bs| && j < |bs[cpu]| && Fit(AllPending(bs)) == |Pending(bs, cpu)| + j
    requires cursors == CursorsAt(log, cpu + 1)[cpu := bs[cpu][j].seqNum]
    ensures cursors == AfterDump(log).cursors
  {
    CursorsWhenClosed(log, bs, cpu, j);
    assert cursors == CursorsAt(log, cpu)[cpu := bs[cpu][j].seqNum];
  }

  method CopyText(page: array<char>, at: nat, text: string)
    requires at + |text| <= page.Length
    modifies page
    ensures page[..] == old(page[..at]) + text + old(page[at + |text|..])
  {
    forall i | 0 <= i < |text| {
      page[at + i] := text[i];
    }
  }

  /**
   * `log_add_msg_to_configfs`; its requires is the source's BUG_ON. The message is written
   * whole, or cut at the limit and marked; the page is full once the limit is met.
   */
  method AddMessage(page: array<char>, msg: string, offset: nat) returns (full: bool, end: nat)
    requires page.Length == PAGE_4KB
    requires offset < FULL
    modifies page
    ensures full <==> offset + |msg| >= FULL
    ensures offset <= end <= FULL + MAX_ELLIPSIS_SIZE
    ensures page[..end] == if full then LastText(old(page[..offset]), msg) else old(page[..offset]) + msg
    ensures forall k | end <= k < page.Length :: page[k] == old(page[k])
  {
    var copy := Min(|msg|, FULL - offset);
    CopyText(page, offset, msg[..copy]);
    end := offset + copy;
    if copy != |msg| {
      CopyText(page, end, ELLIPSIS);
      end := end + MAX_ELLIPSIS_SIZE;
      return true, end;
    }
    return end >= FULL, end;
  }
}
