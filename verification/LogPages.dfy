/** The pages of a run with appends at any moment show what it counted. */
module LogPages {
  import opened Words
  import opened LogRing
  import opened LogText
  import opened LogPage
  import opened LogDump
  import opened LogLedger
  import opened LogMachine

  /** Finished pages and the page in progress show what was counted on a CPU. */
  ghost predicate PagesShow(w: World, cpu: u32)
    requires w.Shape() && cpu < |w.hist|
  {
    Show(w.pages, PageItems(w.driver), w.counted[cpu], cpu)
  }

  ghost predicate Show(pages: seq<string>, items: seq<Item>, counted: seq<Entry>, cpu: u32) {
    ReadOut(pages, cpu) + RowsOf(ShownAll(items), cpu) == ShownAll(Tagged(cpu, counted))
  }

  /** A page that is finished shows what it counts. */
  lemma OnePageMore(pages: seq<string>, items: seq<Item>, counted: seq<Entry>, cpu: u32)
    requires Show(pages, items[..Fit(items)], counted, cpu)
    ensures Show(pages + [Page(items)], [], counted, cpu)
  {
    PageReadsBack(items);
    assert (pages + [Page(items)])[..|pages|] == pages;
  }

  /** A page that shows what was counted goes on to do so with more records. */
  lemma ShowsMore(pages: seq<string>, items: seq<Item>, counted: seq<Entry>, at: u32, taken: seq<Entry>, cpu: u32)
    requires Show(pages, items, counted, cpu)
    ensures Show(pages, items + Tagged(at, taken), if at == cpu then counted + taken else counted, cpu)
  {
    RowsOfNext(items, at, taken, cpu);
    TaggedConcat(cpu, counted, taken);
  }

  lemma OfferedPart(d: Driver, t: nat)
    requires d.Reading? && d.cpu < TWO_32 && t <= |d.reader.out|
    ensures Offered(d)[..|d.items| + t] == d.items + Tagged(d.cpu, d.reader.out[..t])
  {
  }

  /** The records read, as far as they count, on the page that takes them. */
  lemma PageTakes(pages: seq<string>, d: Driver, counted: seq<Entry>, cpu: u32)
    requires d.Reading? && d.cpu < TWO_32 && OpenPage(d.items) && Show(pages, d.items, counted, cpu)
    ensures var t, all := Taken(d), Offered(d);
            var counted' := if d.cpu == cpu then counted + d.reader.out[..t] else counted;
            if Fit(all) == |all| then Show(pages, all, counted', cpu) else Show(pages + [Page(all)], [], counted', cpu)
  {
    var t, all := Taken(d), Offered(d);
    OpenTakes(d.items, Tagged(d.cpu, d.reader.out));
    OfferedPart(d, t);
    ShowsMore(pages, d.items, counted, d.cpu, d.reader.out[..t], cpu);
    if Fit(all) == |all| {
      assert all[..|all|] == all;
    } else {
      OnePageMore(pages, all, if d.cpu == cpu then counted + d.reader.out[..t] else counted, cpu);
    }
  }

  lemma PrintShows(w: World, cpu: u32)
    requires w.Shape() && cpu < |w.hist| && w.driver.Reading? && PagesShow(w, cpu)
    ensures PagesShow(PrintRead(w), cpu)
  {
    PrintEffect(w, cpu);
    PageTakes(w.pages, w.driver, w.counted[cpu], cpu);
  }

  lemma NextShows(w: World, step: Step, cpu: u32)
    requires w.Shape() && Ready(w, step) && cpu < |w.hist| && PagesShow(w, cpu)
    ensures PagesShow(Next(w, step), cpu)
  {
    if step.Go? {
      match w.driver
      case Idle =>
      case Entering(at, items) =>
        if at == |w.hist| {
          OpenCountsAll(items);
          OnePageMore(w.pages, items, w.counted[cpu], cpu);
        } else {
          EnterCountsNone(w, at, items, cpu);
        }
      case Reading(_, _, _, reader, _, _, _) =>
        if !reader.Active() {
          PrintShows(w, cpu);
        }
    }
  }

  /**
   * The pages are the ledger, whatever the writer does: after any run, the lines found counted on
   * the finished pages and on the page in progress, split by CPU, show exactly the records counted.
   */
  lemma {:induction false} LivePagesAreLedger(cpus: nat, steps: seq<Step>, cpu: u32)
    requires cpu < cpus < TWO_32 && Runnable(Start(cpus), steps)
    ensures cpu < |Run(Start(cpus), steps).hist| && PagesShow(Run(Start(cpus), steps), cpu)
  {
    if steps == [] {
      assert Run(Start(cpus), steps).counted[cpu] == [];
    } else {
      LivePagesAreLedger(cpus, steps[..|steps| - 1], cpu);
      NextShows(Run(Start(cpus), steps[..|steps| - 1]), steps[|steps| - 1], cpu);
    }
  }

  /** At an idle moment of any run, the line found counted for number k shows what was appended as number k. */
  lemma LivePagesShowHistory(cpus: nat, steps: seq<Step>, cpu: u32)
    requires cpu < cpus < TWO_32 && Runnable(Start(cpus), steps) && Run(Start(cpus), steps).driver == Idle
    ensures var w := Run(Start(cpus), steps);
            var rows := ReadOut(w.pages, cpu);
            && cpu < |w.hist| && |rows| == |w.counted[cpu]|
            && forall j | 0 <= j < |rows| ::
                 var k, hist := w.counted[cpu][j].seqNum, w.hist[cpu];
                 k < |hist| && rows[j] == [cpu, k, hist[k].reason, hist[k].qualification, hist[k].rip, hist[k].gva]
  {
    LivePagesAreLedger(cpus, steps, cpu);
    LiveDelivery(cpus, steps, cpu);
    var w := Run(Start(cpus), steps);
    assert ReadOut(w.pages, cpu) + [] == ReadOut(w.pages, cpu);
    LedgerShowsHistory(cpu, w.counted[cpu], w.hist[cpu], |w.hist[cpu]|);
  }
}
