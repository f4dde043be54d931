/** Without appends, the driver taken apart makes the dump of the code: same page, same cursors. */
module LogAlone {
  import opened LogRing
  import LogReader
  import opened LogText
  import opened LogPage
  import opened LogDump
  import opened LogMachine

  /** A step made n times. */
  ghost function Times<W>(step: W -> W, w: W, n: nat): W
    decreases n
  {
    if n == 0 then w else Times(step, step(w), n - 1)
  }

  lemma {:induction false} TimesConcat<W>(step: W -> W, w: W, a: nat, b: nat)
    ensures Times(step, w, a + b) == Times(step, Times(step, w, a), b)
    decreases a
  {
    if a == 0 {
    } else {
      TimesConcat(step, step(w), a - 1, b);
    }
  }

  /** The driver goes on alone by one step. */
  ghost function Alone(w: World): World {
    if w.Shape() then Going(w) else w
  }

  /** The driver alone gets from w to w'. */
  ghost predicate Leads(w: World, w': World) {
    exists n: nat :: Times(Alone, w, n) == w'
  }

  lemma LeadsOn(w: World)
    requires w.Shape()
    ensures Leads(w, w) && Leads(w, Going(w))
  {
    assert Times(Alone, w, 0) == w;
    assert Times(Alone, w, 1) == Times(Alone, Going(w), 0);
  }

  lemma LeadsFurther(a: World, b: World, c: World)
    requires Leads(a, b) && Leads(b, c)
    ensures Leads(a, c)
  {
    var m: nat :| Times(Alone, a, m) == b;
    var n: nat :| Times(Alone, b, n) == c;
    TimesConcat(Alone, a, m, n);
  }

  /** What a dump of this log in progress has when it enters CPU `cpu` with its page open. */
  ghost predicate AtCpu(w: World, log: Log, pages: seq<string>, cpu: nat)
    requires log.Shape()
  {
    var bs := Backlogs(log);
    && w.Shape() && |w.hist| == |bs| && cpu <= |bs| && w.pages == pages
    && w.driver == Entering(cpu, Pending(bs, cpu))
    && w.log == log.(cursors := CursorsAt(log, cpu))
  }

  /** The same when it is over. */
  ghost predicate Done(w: World, log: Log, pages: seq<string>)
    requires log.Shape()
  {
    w.Shape() && w.driver == Idle && w.log == AfterDump(log) && w.pages == pages + [DumpText(log)]
  }

  /** The driver has stopped reading, and has read what a reader left alone reads. */
  ghost predicate ReadAtOnce(w: World, w': World)
    requires w.Shape() && w.driver.Reading?
  {
    var d, d' := w.driver, w'.driver;
    && w'.Shape() && w' == w.(driver := d') && d'.Reading? && !d'.reader.Active()
    && d' == d.(reader := d'.reader, heads := d'.heads)
    && d'.reader == LogReader.RunReader(w.log.regions[d.cpu], d.start, d.reader, LOGS_PER_CPU)
  }

  lemma GoingPasses(w: World)
    requires w.Shape() && w.driver.Reading?
    ensures Going(w) == if w.driver.reader.Active() then Pass(w) else PrintRead(w)
  {
  }

  lemma PassOn(w: World, w': World)
    requires w.Shape() && w.driver.Reading? && w.driver.reader.Active() && ReadAtOnce(Pass(w), w')
    ensures ReadAtOnce(w, w')
  {
  }

  /** Left alone, the reader collects what it would collect at once. */
  lemma {:induction false} AloneReads(w: World) returns (w': World)
    requires w.Shape() && w.driver.Reading?
    ensures Leads(w, w') && ReadAtOnce(w, w')
    decreases if w.driver.reader.broke then 0 else w.driver.reader.count + 1
  {
    LeadsOn(w);
    if w.driver.reader.Active() {
      GoingPasses(w);
      w' := AloneReads(Pass(w));
      PassOn(w, w');
      LeadsFurther(w, Pass(w), w');
    } else {
      w' := w;
    }
  }

  /** A page that closes on some records is the page of any more that follow them. */
  lemma ClosesEarly(items: seq<Item>, all: seq<Item>)
    requires items <= all && Fit(items) < |items|
    ensures Fit(all) == Fit(items) && Page(all) == Page(items)
  {
    var k := Fit(items);
    assert all[..k] == items[..k] && all[..k + 1] == items[..k + 1];
    FitsUnique(all, k, Fit(all));
  }

  /** What printing leaves for the log, the driver and the pages. */
  lemma PrintLeaves(w: World)
    requires w.Shape() && w.driver.Reading?
    ensures var d, w' := w.driver, PrintRead(w);
            var t, all := Taken(d), Offered(d);
            if Fit(all) == |all| then
              w'.log == w.log && w'.driver == Entering(d.cpu + 1, all) && w'.pages == w.pages
            else
              && t < |d.reader.out| && w'.driver == Idle && w'.pages == w.pages + [Page(all)]
              && w'.log == w.log.(cursors := w.log.cursors[d.cpu := d.reader.out[t].seqNum])
  {
    PrintCases(w);
  }

  /** The dump has read all there was on a CPU. */
  ghost predicate HasRead(w: World, log: Log, pages: seq<string>, cpu: nat)
    requires log.Shape()
  {
    var bs := Backlogs(log);
    && w.Shape() && |w.hist| == |bs| && cpu < |bs| && w.pages == pages
    && w.driver.Reading? && w.driver.cpu == cpu && w.driver.items == Pending(bs, cpu)
    && !w.driver.reader.Active() && w.driver.reader.out == bs[cpu]
    && w.log == log.(cursors := CursorsAt(log, cpu + 1))
  }

  /** A page that closes at a record of a CPU, seen from the whole dump. */
  lemma ClosesDump(log: Log, bs: seq<seq<Entry>>, cpu: nat, t: nat, all: seq<Item>)
    requires log.Shape() && bs == Backlogs(log) && cpu < |bs| && all == Pending(bs, cpu + 1)
    requires Fit(all) < |all| && Fit(all) == |Pending(bs, cpu)| + t && t < |bs[cpu]|
    ensures Page(all) == DumpText(log) && Fit(AllPending(bs)) == Fit(all)
  {
    PendingGrows(bs, cpu + 1, |bs|);
    ClosesEarly(all, AllPending(bs));
  }

  lemma ClosesCursors(log: Log, bs: seq<seq<Entry>>, cpu: nat, t: nat)
    requires log.Shape() && bs == Backlogs(log) && cpu < |bs| && t < |bs[cpu]|
    requires Fit(AllPending(bs)) == |Pending(bs, cpu)| + t
    ensures log.(cursors := CursorsAt(log, cpu + 1)[cpu := bs[cpu][t].seqNum]) == AfterDump(log)
  {
    CursorsWhenClosed(log, bs, cpu, t);
    assert CursorsAt(log, cpu + 1)[cpu := bs[cpu][t].seqNum] == CursorsAt(log, cpu)[cpu := bs[cpu][t].seqNum];
  }

  lemma PrintAlone(w: World, log: Log, pages: seq<string>, cpu: nat)
    requires log.Shape() && HasRead(w, log, pages, cpu)
    ensures AtCpu(PrintRead(w), log, pages, cpu + 1) || Done(PrintRead(w), log, pages)
  {
    PrintLeaves(w);
    PrintCases(w);
    var all := Offered(w.driver);
    assert all == Pending(Backlogs(log), cpu + 1);
    if Fit(all) < |all| {
      ClosesDump(log, Backlogs(log), cpu, Taken(w.driver), all);
      ClosesCursors(log, Backlogs(log), cpu, Taken(w.driver));
    }
  }

  lemma LookMoves(log: Log, cpu: nat)
    requires log.Shape() && cpu < |log.regions|
    ensures CursorsAt(log, cpu)[cpu := Head(log.regions[cpu])] == CursorsAt(log, cpu + 1)
    ensures CursorsAt(log, cpu)[cpu] == log.cursors[cpu]
  {
  }

  /** A look finds nothing and goes on, or starts a read of the backlog. */
  lemma LookAlone(w: World, log: Log, pages: seq<string>, cpu: nat)
    requires log.Shape() && AtCpu(w, log, pages, cpu) && cpu < |w.hist|
    ensures AtCpu(Going(w), log, pages, cpu + 1) || Starts(Going(w), log, pages, cpu)
  {
    var bs, head := Backlogs(log), Head(log.regions[cpu]);
    LookMoves(log, cpu);
    var n := ToRead(head, log.cursors[cpu]);
    if n == 0 || head == 0 {
      assert bs[cpu] == [];
      NothingPending(bs, cpu);
    }
  }

  /** The dump has started the read of a CPU's backlog. */
  ghost predicate Starts(w: World, log: Log, pages: seq<string>, cpu: nat)
    requires log.Shape()
  {
    var bs, d := Backlogs(log), w.driver;
    && w.Shape() && |w.hist| == |bs| && cpu < |bs| && w.pages == pages
    && w.log == log.(cursors := CursorsAt(log, cpu + 1))
    && d.Reading? && d.cpu == cpu && d.items == Pending(bs, cpu)
    && LogReader.RunReader(log.regions[cpu], d.start, d.reader, LOGS_PER_CPU).out == bs[cpu]
  }

  lemma StartedIsRead(w: World, w': World, log: Log, pages: seq<string>, cpu: nat)
    requires log.Shape() && Starts(w, log, pages, cpu) && ReadAtOnce(w, w')
    ensures HasRead(w', log, pages, cpu)
  {
  }

  lemma CpuAlone(w: World, log: Log, pages: seq<string>, cpu: nat) returns (w': World)
    requires log.Shape() && AtCpu(w, log, pages, cpu) && cpu < |log.regions|
    ensures w'.Shape() && Leads(w, w')
    ensures AtCpu(w', log, pages, cpu + 1) || Done(w', log, pages)
  {
    LookAlone(w, log, pages, cpu);
    LeadsOn(w);
    w' := Going(w);
    if Starts(w', log, pages, cpu) {
      var read := AloneReads(w');
      StartedIsRead(w', read, log, pages, cpu);
      PrintAlone(read, log, pages, cpu);
      GoingPasses(read);
      LeadsOn(read);
      LeadsFurther(w, w', read);
      w' := PrintRead(read);
      LeadsFurther(w, read, w');
    }
  }

  lemma EndAlone(w: World, log: Log, pages: seq<string>) returns (w': World)
    requires log.Shape() && AtCpu(w, log, pages, |log.regions|)
    ensures w'.Shape() && Leads(w, w') && Done(w', log, pages)
  {
    OpenCountsAll(AllPending(Backlogs(log)));
    CursorsWhenOpen(log);
    LeadsOn(w);
    w' := Going(w);
  }

  lemma {:induction false} RestAlone(w: World, log: Log, pages: seq<string>, cpu: nat) returns (w': World)
    requires log.Shape() && w.Shape() && AtCpu(w, log, pages, cpu) && cpu <= |log.regions|
    ensures w'.Shape() && Leads(w, w') && Done(w', log, pages)
    decreases |log.regions| - cpu
  {
    if cpu == |log.regions| {
      w' := EndAlone(w, log, pages);
    } else {
      var next := CpuAlone(w, log, pages, cpu);
      w' := next;
      if !Done(next, log, pages) {
        w' := RestAlone(next, log, pages, cpu + 1);
        LeadsFurther(w, next, w');
      }
    }
  }

  /**
   * From one idle moment to the next, the driver left alone makes exactly the dump of the code:
   * one more page, which is the dump's, and the cursors the dump leaves.
   */
  lemma DumpAlone(w: World) returns (w': World)
    requires w.Shape() && w.driver == Idle
    ensures Leads(w, w')
    ensures w'.driver == Idle && w'.log == AfterDump(w.log) && w'.pages == w.pages + [DumpText(w.log)]
  {
    assert CursorsAt(w.log, 0) == w.log.cursors;
    LeadsOn(w);
    w' := RestAlone(Going(w), w.log, w.pages, 0);
    LeadsFurther(w, Going(w), w');
  }
}
