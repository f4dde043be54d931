/** When a run with appends at any moment skips nothing: exactly, and by what each step can see. */
module LogSkips {
  import opened Words
  import opened LogRing
  import LogReader
  import opened LogText
  import opened LogDump
  import opened LogLive
  import opened Ledgers
  import opened LogMachine
  import opened LogCounts

  lemma EmptyHasNone(s: seq<Entry>)
    ensures s == [] <==> forall k: nat :: !Has(s, k)
  {
    if s != [] {
      assert Has(s, s[0].seqNum);
    }
  }

  /** Every number the cursor of CPU i went past while the ring held it had been met by a counted pass. */
  ghost predicate HeldAreMet(w: World, steps: seq<Step>, i: nat)
    requires Runnable(w, steps)
  {
    forall k: nat | PassedHeld(w, steps, i, k) :: Met(w, steps, i, k)
  }

  /**
   * Over any run nothing of a CPU is skipped, if and only if every number that the cursor went
   * past while the ring held it had been met by a counted pass.
   */
  lemma SkippedExactly(cpus: nat, steps: seq<Step>, i: nat)
    requires i < cpus < TWO_32 && Runnable(Start(cpus), steps)
    ensures i < |Run(Start(cpus), steps).hist|
    ensures Run(Start(cpus), steps).skipped[i] == []
       <==> HeldAreMet(Start(cpus), steps, i)
  {
    StartInv(cpus);
    RunKeepsInv(Start(cpus), steps);
    var skipped := Run(Start(cpus), steps).skipped[i];
    EmptyHasNone(skipped);
    if skipped == [] {
      forall k: nat | PassedHeld(Start(cpus), steps, i, k)
        ensures Met(Start(cpus), steps, i, k)
      {
        SkippedNumber(cpus, steps, i, k);
      }
    }
    if HeldAreMet(Start(cpus), steps, i) {
      forall k: nat
        ensures !Has(skipped, k)
      {
        SkippedNumber(cpus, steps, i, k);
      }
    }
  }

  /**
   * What a caller can see of a step that skips nothing: a look at the CPU finds its count not
   * truncated; a page closes at a record whose pass was not overtaken, or does not close.
   */
  ghost predicate Careful(w: World, step: Step, i: nat)
    requires w.Shape() && i < |w.hist|
  {
    match w.driver
    case Idle => true
    case Entering(cpu, _) => step.Go? && cpu == i ==> Untruncated(Head(w.log.regions[i]), w.log.cursors[i])
    case Reading(cpu, _, start, reader, base, count, heads) =>
      step.Go? && cpu == i && !reader.Active() ==>
        && count == Min(start - base, LOGS_PER_CPU) && count <= start
        && (Taken(w.driver) >= |heads| || !Overtaken(ReadOf(w), start, count, Taken(w.driver)))
  }

  lemma HasRecord(counted: seq<Entry>, taken: seq<Entry>, e: Entry)
    requires e in taken
    ensures Has(counted + taken, e.seqNum)
  {
    var j :| 0 <= j < |taken| && taken[j] == e;
    assert (counted + taken)[|counted| + j].seqNum == e.seqNum;
  }

  lemma CarefulPrint(w: World, k: nat)
    requires Inv(w) && w.driver.Reading? && !w.driver.reader.Active() && Careful(w, Go, w.driver.cpu)
    requires PassesHeld(w, Go, w.driver.cpu, k)
    ensures Has(PrintRead(w).counted[w.driver.cpu], k)
  {
    var d := w.driver;
    var s, t, hist := ReadOf(w), Taken(d), w.hist[d.cpu];
    StoppedIsOver(w);
    PrintGoesTo(w, d.cpu);
    NothingSkipped(s, d.start, d.count, t, k);
    HasRecord(w.counted[d.cpu], s.reader.out[..t], Record(k, hist[k]));
  }

  /** Every held number that a careful step takes the cursor past is counted. */
  lemma CarefulStep(w: World, step: Step, i: nat)
    requires Inv(w) && Ready(w, step) && i < |w.hist| && Careful(w, step, i)
    ensures forall k: nat | PassesHeld(w, step, i, k) :: Has(Next(w, step).counted[i], k)
  {
    if step.Go? && w.driver.Reading? && !w.driver.reader.Active() && w.driver.cpu == i {
      forall k: nat | PassesHeld(w, step, i, k)
        ensures Has(Next(w, step).counted[i], k)
      {
        CarefulPrint(w, k);
      }
    } else {
      CarefulElse(w, step, i);
    }
  }

  lemma NothingNew(head: u64, cursor: u64)
    requires cursor <= head && Untruncated(head, cursor) && ToRead(head, cursor) == 0
    ensures cursor == head
  {
    ToReadOf(head, cursor);
  }

  lemma CarefulLook(w: World, cpu: nat, items: seq<Item>, i: nat)
    requires Inv(w) && w.driver == Entering(cpu, items) && cpu < |w.hist| && i < |w.hist| && Careful(w, Go, i)
    ensures From(Enter(w, cpu, items), i) == From(w, i)
  {
    assert CpuInv(w, i);
    EnterGoesTo(w, cpu, items, i);
    if cpu == i && ToRead(Head(w.log.regions[i]), w.log.cursors[i]) == 0 {
      NothingNew(Head(w.log.regions[i]), w.log.cursors[i]);
    }
  }

  lemma CarefulElse(w: World, step: Step, i: nat)
    requires Inv(w) && Ready(w, step) && i < |w.hist| && Careful(w, step, i)
    requires !(step.Go? && w.driver.Reading? && !w.driver.reader.Active() && w.driver.cpu == i)
    ensures From(Next(w, step), i) == From(w, i)
  {
    if step.Go? && w.driver.Reading? && !w.driver.reader.Active() {
      PrintGoesTo(w, i);
    } else if step.Go? && w.driver.Entering? && w.driver.cpu < |w.hist| {
      CarefulLook(w, w.driver.cpu, w.driver.items, i);
    }
  }

  /** Every step of the run is careful for CPU i. */
  ghost predicate AllCareful(w: World, steps: seq<Step>, i: nat)
    requires Runnable(w, steps)
    decreases |steps|
  {
    if steps == [] then true
    else
      var front := steps[..|steps| - 1];
      AllCareful(w, front, i) && i < |Run(w, front).hist| && Careful(Run(w, front), steps[|steps| - 1], i)
  }

  lemma CarefulKeepsNone(w: World, step: Step, i: nat)
    requires Inv(w) && Ready(w, step) && i < |w.hist| && Careful(w, step, i) && w.skipped[i] == []
    ensures Next(w, step).skipped[i] == []
  {
    CarefulStep(w, step, i);
    EmptyHasNone(Next(w, step).skipped[i]);
    forall k: nat
      ensures !Has(Next(w, step).skipped[i], k)
    {
      SkipStep(w, step, i, k);
    }
  }

  /** A run skips nothing whose looks find no count truncated and whose pages close at no overtaken pass. */
  lemma {:induction false} CarefulSkipsNothing(cpus: nat, steps: seq<Step>, i: nat)
    requires i < cpus < TWO_32 && Runnable(Start(cpus), steps) && AllCareful(Start(cpus), steps, i)
    ensures i < |Run(Start(cpus), steps).hist| && Run(Start(cpus), steps).skipped[i] == []
  {
    StartInv(cpus);
    RunKeepsInv(Start(cpus), steps);
    if steps == [] {
    } else {
      var front := steps[..|steps| - 1];
      RunKeepsInv(Start(cpus), front);
      CarefulSkipsNothing(cpus, front, i);
      CarefulKeepsNone(Run(Start(cpus), front), steps[|steps| - 1], i);
    }
  }
}
