/**
 * What a reader of the pages has in hand: the pages of a whole run, taken apart line by line and
 * CPU by CPU, are the ledger of counted records. And what a page may show besides.
 */
module LogLedger {
  import opened Words
  import opened LogRing
  import opened LogText
  import opened LogPage
  import opened LogDump
  import opened Ledgers
  import opened LogRuns

  // ---- Pages of a run ----

  /** The pages the dumps of a run leave, in order. */
  ghost function Pages(w: World, steps: seq<Step>): seq<string>
    requires Runnable(w, steps)
    decreases |steps|
  {
    if steps == [] then []
    else
      var front := steps[..|steps| - 1];
      Pages(w, front) + if steps[|steps| - 1].Dump? then [DumpText(Run(w, front).log)] else []
  }

  /** The lines of one CPU, in order: those whose first number is the CPU's. */
  function RowsOf(rows: seq<seq<nat>>, cpu: nat): seq<seq<nat>> {
    if rows == [] then []
    else
      var last := rows[|rows| - 1];
      RowsOf(rows[..|rows| - 1], cpu) + if last != [] && last[0] == cpu then [last] else []
  }

  /** What the pages say was counted on one CPU. */
  function ReadOut(pages: seq<string>, cpu: nat): seq<seq<nat>> {
    if pages == [] then []
    else
      var last := pages[|pages| - 1];
      ReadOut(pages[..|pages| - 1], cpu) + if |last| >= 5 then RowsOf(ReadPage(last).1, cpu) else []
  }

  lemma {:induction false} RowsConcat(a: seq<seq<nat>>, b: seq<seq<nat>>, cpu: nat)
    ensures RowsOf(a + b, cpu) == RowsOf(a, cpu) + RowsOf(b, cpu)
  {
    if b == [] {
      assert a + b == a;
    } else {
      RowsConcat(a, b[..|b| - 1], cpu);
      assert (a + b)[..|a + b| - 1] == a + b[..|b| - 1];
    }
  }

  lemma {:induction false} RowsOfTagged(tag: u32, entries: seq<Entry>, cpu: nat)
    ensures RowsOf(ShownAll(Tagged(tag, entries)), cpu) == if tag == cpu then ShownAll(Tagged(tag, entries)) else []
  {
    if entries == [] {
    } else {
      var n := |entries| - 1;
      RowsOfTagged(tag, entries[..n], cpu);
      assert ShownAll(Tagged(tag, entries))[..n] == ShownAll(Tagged(tag, entries[..n]));
      assert Shown(Item(tag, entries[n]))[0] == tag;
    }
  }

  lemma ShownConcat(a: seq<Item>, b: seq<Item>)
    ensures ShownAll(a + b) == ShownAll(a) + ShownAll(b)
  {
  }

  lemma RowsOfNext(before: seq<Item>, tag: u32, entries: seq<Entry>, cpu: nat)
    ensures RowsOf(ShownAll(before + Tagged(tag, entries)), cpu)
         == RowsOf(ShownAll(before), cpu) + if tag == cpu then ShownAll(Tagged(tag, entries)) else []
  {
    ShownConcat(before, Tagged(tag, entries));
    RowsConcat(ShownAll(before), ShownAll(Tagged(tag, entries)), cpu);
    RowsOfTagged(tag, entries, cpu);
  }

  lemma RowsOfLast(bs: seq<seq<Entry>>, n: nat, cpu: u32)
    requires n < |bs| < TWO_32
    ensures RowsOf(ShownAll(Pending(bs, n + 1)), cpu)
         == RowsOf(ShownAll(Pending(bs, n)), cpu) + if n == cpu then ShownAll(Tagged(cpu, bs[n])) else []
  {
    RowsOfNext(Pending(bs, n), n, bs[n], cpu);
  }

  lemma {:induction false} RowsOfPending(bs: seq<seq<Entry>>, n: nat, cpu: u32)
    requires n <= |bs| < TWO_32
    ensures RowsOf(ShownAll(Pending(bs, n)), cpu) == if cpu < n then ShownAll(Tagged(cpu, bs[cpu])) else []
  {
    if n == 0 {
    } else {
      RowsOfPending(bs, n - 1, cpu);
      RowsOfLast(bs, n - 1, cpu);
    }
  }

  /** One page, read by one who knows only the format, gives what the dump counted on a CPU. */
  lemma PageShowsCounted(log: Log, cpu: u32)
    requires log.Shape() && cpu < |log.regions|
    ensures var bs := Backlogs(log);
            && |DumpText(log)| >= 5
            && RowsOf(ReadPage(DumpText(log)).1, cpu) == ShownAll(Tagged(cpu, bs[cpu][..CountedOf(bs, cpu)]))
  {
    var bs := Backlogs(log);
    PageReadsBack(AllPending(bs));
    DumpTakesPrefix(bs);
    RowsOfPending(CountedPart(bs), |bs|, cpu);
  }

  lemma TaggedConcat(cpu: u32, a: seq<Entry>, b: seq<Entry>)
    ensures ShownAll(Tagged(cpu, a + b)) == ShownAll(Tagged(cpu, a)) + ShownAll(Tagged(cpu, b))
  {
  }

  lemma StepCounts(w: World, step: Step, cpu: nat)
    requires w.Shape() && Ready(w, step) && cpu < |w.hist|
    ensures Next(w, step).counted[cpu]
         == w.counted[cpu] + var bs := Backlogs(w.log); if step.Dump? then bs[cpu][..CountedOf(bs, cpu)] else []
  {
  }

  /**
   * The pages of a run are the ledger: for every CPU, the lines a reader finds counted on the
   * pages, one page after the other, show exactly the records counted over the run, in order.
   */
  lemma {:induction false} PagesAreLedger(cpus: nat, steps: seq<Step>, cpu: u32)
    requires cpu < cpus < TWO_32 && Runnable(Start(cpus), steps)
    ensures cpu < |Run(Start(cpus), steps).counted|
    ensures ReadOut(Pages(Start(cpus), steps), cpu) == ShownAll(Tagged(cpu, Run(Start(cpus), steps).counted[cpu]))
  {
    StartInv(cpus);
    RunKeepsInv(Start(cpus), steps);
    if steps == [] {
      assert Run(Start(cpus), steps).counted[cpu] == [];
    } else {
      var front, step := steps[..|steps| - 1], steps[|steps| - 1];
      RunKeepsInv(Start(cpus), front);
      PagesAreLedger(cpus, front, cpu);
      var w, pages := Run(Start(cpus), front), Pages(Start(cpus), front);
      StepCounts(w, step, cpu);
      if step.Dump? {
        var bs := Backlogs(w.log);
        PageShowsCounted(w.log, cpu);
        TaggedConcat(cpu, w.counted[cpu], bs[cpu][..CountedOf(bs, cpu)]);
        assert (pages + [DumpText(w.log)])[..|pages|] == pages;
      } else {
        assert w.counted[cpu] + [] == w.counted[cpu];
        assert pages + [] == pages;
      }
    }
  }

  /** A ledger of genuine records, as a reader sees it: number by number what was appended. */
  ghost predicate ShowsHistory(rows: seq<seq<nat>>, cpu: nat, counted: seq<Entry>, hist: seq<Event>) {
    && |rows| == |counted|
    && forall j | 0 <= j < |rows| ::
         var k := counted[j].seqNum;
         k < |hist| && rows[j] == [cpu, k, hist[k].reason, hist[k].qualification, hist[k].rip, hist[k].gva]
  }

  lemma LedgerShowsHistory(cpu: u32, counted: seq<Entry>, hist: seq<Event>, end: nat)
    requires Genuine(counted, hist, end)
    ensures ShowsHistory(ShownAll(Tagged(cpu, counted)), cpu, counted, hist)
  {
  }

  /**
   * Over any run, the line found counted for number k of a CPU shows the CPU, k, and what was
   * appended as number k: reason, qualification, instruction pointer and address, in this order.
   */
  lemma PagesShowHistory(cpus: nat, steps: seq<Step>, cpu: u32)
    requires cpu < cpus < TWO_32 && Runnable(Start(cpus), steps)
    ensures var w, rows := Run(Start(cpus), steps), ReadOut(Pages(Start(cpus), steps), cpu);
            && w.Shape() && cpu < |w.hist| && |rows| == |w.counted[cpu]|
            && forall j | 0 <= j < |rows| ::
                 var k, hist := w.counted[cpu][j].seqNum, w.hist[cpu];
                 k < |hist| && rows[j] == [cpu, k, hist[k].reason, hist[k].qualification, hist[k].rip, hist[k].gva]
  {
    PagesAreLedger(cpus, steps, cpu);
    WholeRunDelivery(cpus, steps, cpu);
    var w := Run(Start(cpus), steps);
    LedgerShowsHistory(cpu, w.counted[cpu], w.hist[cpu], w.log.cursors[cpu]);
  }

  // ---- The record that fills a page ----

  /** The record that fills the page heads what the dump leaves. */
  lemma LeftHead(bs: seq<seq<Entry>>)
    requires |bs| < TWO_32 && Fit(AllPending(bs)) < |AllPending(bs)|
    ensures AllPending(LeftPart(bs)) != []
    ensures AllPending(LeftPart(bs))[0] == AllPending(bs)[Fit(AllPending(bs))]
  {
    DumpTakesPrefix(bs);
  }

  /** The first pending record is printed whole. */
  lemma FirstPrinted(items: seq<Item>)
    requires items != []
    ensures Line(items[0]) <= Page(items)
  {
    BodyStart(items);
    var k := Fit(items);
    BodyBounds(items);
    FirstLine(items[..k]);
  }

  lemma FirstLine(items: seq<Item>)
    requires items != []
    ensures Line(items[0]) <= Concat(Lines(items))
  {
    var ls := Lines(items);
    assert ls == [ls[0]] + ls[1..];
    ConcatSplit([ls[0]], ls[1..]);
    assert [ls[0]][..0] == [] && Concat([ls[0]]) == ls[0];
  }

  lemma PrintedAgain(w: World)
    requires Inv(w) && Fit(AllPending(Backlogs(w.log))) < |AllPending(Backlogs(w.log))|
    ensures Inv(Next(w, Dump))
    ensures var all := AllPending(Backlogs(w.log)); Line(all[Fit(all)]) <= DumpText(Next(w, Dump).log)
  {
    BacklogsAfterDump(w);
    LeftHead(Backlogs(w.log));
    FirstPrinted(AllPending(LeftPart(Backlogs(w.log))));
  }

  /**
   * The record that fills a page does not count, and the next dump prints it first. So it is
   * printed whole twice if and only if its line ends exactly at the limit.
   */
  lemma PrintedTwiceExactly(w: World)
    requires Inv(w) && Fit(AllPending(Backlogs(w.log))) < |AllPending(Backlogs(w.log))|
    ensures ShowsNext(AllPending(Backlogs(w.log))) <==> MeetsLimit(AllPending(Backlogs(w.log)))
    ensures Inv(Next(w, Dump))
    ensures var all := AllPending(Backlogs(w.log)); Line(all[Fit(all)]) <= DumpText(Next(w, Dump).log)
  {
    PrintedAgain(w);
    ShowsNextExactly(AllPending(Backlogs(w.log)));
  }
}
