/**
 * Which records a run with appends at any moment counts, skips and loses: for every number, by
 * the heads that the passes of the reader saw and the moves of the cursor.
 */
module LogCounts {
  import opened Words
  import opened LogRing
  import LogReader
  import opened LogText
  import opened LogDump
  import opened LogLive
  import opened Ledgers
  import opened LogMachine

  // ---- Counted ----

  /** The step prints records of CPU i, and one of the passes it counts met number k. */
  ghost predicate Counts(w: World, step: Step, i: nat, k: nat)
    requires w.Shape()
  {
    && step.Go? && w.driver.Reading? && w.driver.cpu == i && !w.driver.reader.Active()
    && w.driver.count <= w.driver.start && Taken(w.driver) <= |w.driver.heads|
    && MetBy(ReadOf(w), w.driver.start, w.driver.count, Taken(w.driver), k)
  }

  lemma TakenHas(s: LogReader.Live, h: nat, c: nat, t: nat, k: nat)
    requires ReadOver(s, h, c) && t <= c
    ensures Has(s.reader.out[..t], k) <==> MetBy(s, h, c, t, k)
  {
    forall j | 0 <= j < t
      ensures s.reader.out[..t][j].seqNum == k <==> Meets(s, h, c, j, k)
    {
      MetIsRead(s, h, c, j, k);
    }
    if MetBy(s, h, c, t, k) {
      var j :| 0 <= j < t && Meets(s, h, c, j, k);
      assert s.reader.out[..t][j].seqNum == k;
    }
  }

  /** A step counts exactly the numbers that its counted passes met. */
  lemma CountStep(w: World, step: Step, i: nat, k: nat)
    requires Inv(w) && Ready(w, step) && i < |w.hist|
    ensures Has(Next(w, step).counted[i], k) <==> Has(w.counted[i], k) || Counts(w, step, i, k)
  {
    if step.Go? && w.driver.Reading? && !w.driver.reader.Active() {
      var d := w.driver;
      PrintEffect(w, i);
      if d.cpu == i {
        StoppedIsOver(w);
        HasConcat(w.counted[i], d.reader.out[..Taken(d)], k);
        TakenHas(ReadOf(w), d.start, d.count, Taken(d), k);
      }
    } else if step.Go? && w.driver.Entering? && w.driver.cpu < |w.hist| {
      EnterCountsNone(w, w.driver.cpu, w.driver.items, i);
    }
  }

  /** Some counted pass of the run met number k of CPU i. */
  ghost predicate Met(w: World, steps: seq<Step>, i: nat, k: nat)
    requires Runnable(w, steps)
    decreases |steps|
  {
    if steps == [] then false
    else
      var front := steps[..|steps| - 1];
      Met(w, front, i, k) || Counts(Run(w, front), steps[|steps| - 1], i, k)
  }

  /** Over any run a number has been counted if and only if a counted pass met it. */
  lemma {:induction false} CountedExactly(cpus: nat, steps: seq<Step>, i: nat, k: nat)
    requires i < cpus < TWO_32 && Runnable(Start(cpus), steps)
    ensures i < |Run(Start(cpus), steps).hist|
    ensures Has(Run(Start(cpus), steps).counted[i], k) <==> Met(Start(cpus), steps, i, k)
  {
    StartInv(cpus);
    RunKeepsInv(Start(cpus), steps);
    if steps == [] {
    } else {
      var front := steps[..|steps| - 1];
      RunKeepsInv(Start(cpus), front);
      CountedExactly(cpus, front, i, k);
      CountStep(Run(Start(cpus), front), steps[|steps| - 1], i, k);
    }
  }

  // ---- Passed by the cursor ----

  /** The step takes the cursor of CPU i past number k while the ring holds it. */
  ghost predicate PassesHeld(w: World, step: Step, i: nat, k: nat)
    requires Ready(w, step) && i < |w.hist|
  {
    From(w, i) <= k < From(Next(w, step), i) && |w.hist[i]| - LOGS_PER_CPU <= k
  }

  /** Some step of the run does. */
  ghost predicate PassedHeld(w: World, steps: seq<Step>, i: nat, k: nat)
    requires Runnable(w, steps)
    decreases |steps|
  {
    if steps == [] then false
    else
      var front := steps[..|steps| - 1];
      || PassedHeld(w, front, i, k)
      || (i < |Run(w, front).hist| && PassesHeld(Run(w, front), steps[|steps| - 1], i, k))
  }

  /** What a step leaves skipped: nothing more, or what is off the counted list of what it goes past. */
  lemma SkippedBy(w: World, step: Step, i: nat)
    requires Inv(w) && Ready(w, step) && i < |w.hist|
    ensures var w' := Next(w, step);
            var from, end := From(w, i), From(w', i);
            && from <= end <= |w.hist[i]| + 1
            && (from == end ==> w'.skipped[i] == w.skipped[i])
            && (from < end ==>
                  && end <= |w.hist[i]| < TWO_64
                  && w'.skipped[i] == w.skipped[i] + Off(w.hist[i], Held(w.hist[i], from, end), end, w'.counted[i]))
  {
    assert CpuInv(w, i);
    if step.Go? && w.driver.Reading? && !w.driver.reader.Active() {
      PrintGoesTo(w, i);
    } else if step.Go? && w.driver.Entering? && w.driver.cpu < |w.hist| {
      EnterGoesTo(w, w.driver.cpu, w.driver.items, i);
    }
  }

  lemma PrintGoesTo(w: World, i: nat)
    requires Inv(w) && w.driver.Reading? && !w.driver.reader.Active() && i < |w.hist|
    ensures var d, w' := w.driver, PrintRead(w);
            if i != d.cpu then From(w', i) == From(w, i) && w'.skipped[i] == w.skipped[i]
            else
              && From(w', i) == CursorLeft(ReadOf(w), d.start, Taken(d))
              && d.base <= From(w', i) <= |w.hist[i]| < TWO_64
              && w'.counted[i] == w.counted[i] + d.reader.out[..Taken(d)]
              && w'.skipped[i] == w.skipped[i]
                   + Off(w.hist[i], Held(w.hist[i], d.base, From(w', i)), From(w', i), w'.counted[i])
  {
    PrintCases(w);
    StoppedIsOver(w);
    LiveCursor(ReadOf(w), w.driver.start, w.driver.count, Taken(w.driver));
  }

  lemma EnterGoesTo(w: World, cpu: nat, items: seq<Item>, i: nat)
    requires Inv(w) && w.driver == Entering(cpu, items) && cpu < |w.hist| && i < |w.hist|
    ensures var w' := Enter(w, cpu, items);
            && From(w, i) <= From(w', i) <= |w.hist[i]| < TWO_64
            && (From(w', i) == From(w, i) ==> w'.skipped[i] == w.skipped[i])
            && (From(w', i) > From(w, i) ==>
                  i == cpu && ToRead(|w.hist[i]|, w.log.cursors[i]) == 0 && From(w', i) == |w.hist[i]|
                  && w'.skipped[i] == w.skipped[i]
                       + Off(w.hist[i], Held(w.hist[i], From(w, i), From(w', i)), From(w', i), w'.counted[i]))
  {
    assert CpuInv(w, i);
    assert w.skipped[i] + [] == w.skipped[i];
  }

  /** A step skips exactly the numbers it passes held and has not counted by then. */
  lemma SkipStep(w: World, step: Step, i: nat, k: nat)
    requires Inv(w) && Ready(w, step) && i < |w.hist|
    ensures Has(Next(w, step).skipped[i], k)
       <==> Has(w.skipped[i], k) || (PassesHeld(w, step, i, k) && !Has(Next(w, step).counted[i], k))
  {
    assert CpuInv(w, i);
    SkippedBy(w, step, i);
    var from, end := From(w, i), From(Next(w, step), i);
    if from < end {
      OffGrows(w.skipped[i], w.hist[i], Held(w.hist[i], from, end), end, Next(w, step).counted[i]);
    }
  }

  /** What a step counts is not behind the cursor, and the cursor does not go back. */
  lemma NotBehind(w: World, step: Step, i: nat, k: nat)
    requires Inv(w) && Ready(w, step) && i < |w.hist|
    ensures Counts(w, step, i, k) ==> From(w, i) <= k
    ensures From(w, i) <= From(Next(w, step), i)
  {
    SkippedBy(w, step, i);
    if Counts(w, step, i, k) {
      var d := w.driver;
      StoppedIsOver(w);
      CountedRead(ReadOf(w), d.start, d.count, Taken(d), d.base);
      TakenHas(ReadOf(w), d.start, d.count, Taken(d), k);
    }
  }

  lemma {:induction false} HeldIsBehind(cpus: nat, steps: seq<Step>, i: nat, k: nat)
    requires i < cpus < TWO_32 && Runnable(Start(cpus), steps)
    ensures i < |Run(Start(cpus), steps).hist|
    ensures PassedHeld(Start(cpus), steps, i, k) ==> k < From(Run(Start(cpus), steps), i)
  {
    StartInv(cpus);
    RunKeepsInv(Start(cpus), steps);
    if steps == [] {
    } else {
      var front := steps[..|steps| - 1];
      RunKeepsInv(Start(cpus), front);
      HeldIsBehind(cpus, front, i, k);
      NotBehind(Run(Start(cpus), front), steps[|steps| - 1], i, k);
    }
  }

  lemma {:induction false} SkippedNumber(cpus: nat, steps: seq<Step>, i: nat, k: nat)
    requires i < cpus < TWO_32 && Runnable(Start(cpus), steps)
    ensures i < |Run(Start(cpus), steps).hist|
    ensures Has(Run(Start(cpus), steps).skipped[i], k)
       <==> PassedHeld(Start(cpus), steps, i, k) && !Met(Start(cpus), steps, i, k)
  {
    StartInv(cpus);
    RunKeepsInv(Start(cpus), steps);
    if steps == [] {
    } else {
      var front, step := steps[..|steps| - 1], steps[|steps| - 1];
      RunKeepsInv(Start(cpus), front);
      SkippedNumber(cpus, front, i, k);
      HeldIsBehind(cpus, front, i, k);
      CountedExactly(cpus, steps, i, k);
      NotBehind(Run(Start(cpus), front), step, i, k);
      SkipStep(Run(Start(cpus), front), step, i, k);
    }
  }

  /**
   * The fate of every number over any run. It has been counted if and only if a counted pass met
   * it; it is skipped if and only if none did and the cursor went past it while the ring held it;
   * it is lost if and only if none did and the cursor went past it when it had been overwritten.
   */
  lemma FateExactly(cpus: nat, steps: seq<Step>, i: nat, k: nat)
    requires i < cpus < TWO_32 && Runnable(Start(cpus), steps)
    ensures var w := Run(Start(cpus), steps);
            var met, held := Met(Start(cpus), steps, i, k), PassedHeld(Start(cpus), steps, i, k);
            && i < |w.hist|
            && (Has(w.counted[i], k) <==> met)
            && (Has(w.skipped[i], k) <==> held && !met)
            && (Has(w.lost[i], k) <==> k < From(w, i) && !held && !met)
  {
    var w := Run(Start(cpus), steps);
    CountedExactly(cpus, steps, i, k);
    SkippedNumber(cpus, steps, i, k);
    HeldIsBehind(cpus, steps, i, k);
    LiveDelivery(cpus, steps, i);
    if k < From(w, i) {
      assert OnOne(w.counted[i], w.lost[i], w.skipped[i], k);
    }
  }
}
