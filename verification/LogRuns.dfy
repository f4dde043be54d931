/**
 * Whole runs of appends and dumps. The log is a bounded queue of records per CPU: an append
 * drops the oldest record of a full queue, a dump removes the records it counts, and with them
 * any older ones that the 32-bit count of new records hides from it. What was counted, lost
 * and missed accounts for every record, each exactly once.
 */
module LogRuns {
  import opened Words
  import opened LogRing
  import LogReader
  import opened LogPage
  import opened LogDump
  import opened Ledgers

  datatype Step = Append(cpu: nat, ev: Event) | Dump

  /**
   * The log with the bookkeeping of a run, per CPU: every event appended, every record a dump
   * counted, every record an append destroyed while no dump had passed it, and every record a
   * dump passed without counting it.
   */
  datatype World = World(log: Log, hist: seq<seq<Event>>, counted: seq<seq<Entry>>, lost: seq<seq<Entry>>,
                         missed: seq<seq<Entry>>)
  {
    ghost predicate Shape() {
      log.Shape() && |hist| == |counted| == |lost| == |missed| == |log.regions|
    }
  }

  ghost function Start(cpus: nat): (w: World)
    requires cpus < TWO_32
    ensures w.Shape()
  {
    var none := seq(cpus, _ => []);
    World(EmptyLog(cpus), seq(cpus, _ => []), none, none, none)
  }

  /** The record an append to this region is about to destroy, if it is still to be dumped. */
  ghost function Victim(region: seq<Entry>, cursor: u64): seq<Entry>
    requires |region| == ENTRIES_PER_CPU
  {
    var slot := region[SeqToIndex(Head(region), LOGS_PER_CPU)];
    if slot.valid != 0 && slot.seqNum >= cursor then [slot] else []
  }

  /** The records in memory from the cursor on, in front of the last n of them. */
  ghost function Passed(region: seq<Entry>, cursor: u64, n: nat): seq<Entry>
    requires |region| == ENTRIES_PER_CPU
  {
    var all := LogReader.ReadLogs(region, Head(region), Max(0, Head(region) - cursor), LOGS_PER_CPU);
    all[..Max(0, |all| - n)]
  }

  ghost predicate Fitting(w: World, step: Step) {
    w.Shape() && (step.Append? ==> step.cpu < |w.hist|)
  }

  ghost function Next(w: World, step: Step): (w': World)
    requires Fitting(w, step)
    ensures w'.Shape() && |w'.hist| == |w.hist|
  {
    match step
    case Append(cpu, ev) =>
      w.(log := AfterAdd(w.log, cpu, ev),
         hist := w.hist[cpu := w.hist[cpu] + [ev]],
         lost := w.lost[cpu := w.lost[cpu] + Victim(w.log.regions[cpu], w.log.cursors[cpu])])
    case Dump =>
      var bs := Backlogs(w.log);
      w.(log := AfterDump(w.log),
         counted := seq(|bs|, i requires 0 <= i < |bs| => w.counted[i] + bs[i][..CountedOf(bs, i)]),
         missed := seq(|bs|, i requires 0 <= i < |bs| => w.missed[i] + MissedOf(w.log, bs, i)))
  }

  /** What a dump passes without counting it, on CPU i. */
  ghost function MissedOf(log: Log, bs: seq<seq<Entry>>, i: nat): seq<Entry>
    requires log.Shape() && i < |bs| == |log.regions|
  {
    if Unreached(bs, i) then [] else Passed(log.regions[i], log.cursors[i], |bs[i]|)
  }

  /** What a run assumes of a step: fewer than 2^64 records per CPU. */
  ghost predicate Ready(w: World, step: Step) {
    Fitting(w, step) && (step.Append? ==> |w.hist[step.cpu]| + 1 < TWO_64)
  }

  // ---- The invariant of one CPU ----

  /** The first record still due. */
  ghost function DueFrom(hist: seq<Event>, cursor: nat): nat {
    Max(cursor, |hist| - LOGS_PER_CPU)
  }

  /**
   * Counted, lost and missed records are each in ascending order and genuine, lost ones are at
   * least a ring behind the head, the others behind the cursor, and every number below the first
   * one due is on exactly one of the lists.
   */
  ghost predicate Accounted(cursor: nat, hist: seq<Event>, counted: seq<Entry>, lost: seq<Entry>, missed: seq<Entry>) {
    && Ascending(counted) && Genuine(counted, hist, cursor)
    && Ascending(lost) && Genuine(lost, hist, Max(0, |hist| - LOGS_PER_CPU))
    && Ascending(missed) && Genuine(missed, hist, cursor)
    && forall k | 0 <= k < DueFrom(hist, cursor) :: OnOne(counted, lost, missed, k)
  }

  ghost predicate CpuInv(w: World, i: nat)
    requires w.Shape() && i < |w.hist|
  {
    && HoldsTail(w.log.regions[i], w.hist[i], LOGS_PER_CPU)
    && w.log.cursors[i] <= |w.hist[i]|
    && Accounted(w.log.cursors[i], w.hist[i], w.counted[i], w.lost[i], w.missed[i])
  }

  ghost predicate Inv(w: World) {
    w.Shape() && forall i | 0 <= i < |w.hist| :: CpuInv(w, i)
  }

  lemma StartInv(cpus: nat)
    requires cpus < TWO_32
    ensures Inv(Start(cpus))
  {
    EmptyHoldsNothing(LOGS_PER_CPU);
    var w := Start(cpus);
    forall i | 0 <= i < cpus
      ensures CpuInv(w, i)
    {
      assert w.log.regions[i] == EmptyRegion(LOGS_PER_CPU) && w.log.cursors[i] == 0;
      assert w.hist[i] == [] && w.counted[i] == [] && w.lost[i] == [] && w.missed[i] == [];
    }
  }

  /** An append destroys an undumped record exactly when a ring's worth is due: the oldest one due. */
  lemma VictimIsOldestDue(region: seq<Entry>, cursor: u64, hist: seq<Event>)
    requires HoldsTail(region, hist, LOGS_PER_CPU) && cursor <= |hist|
    ensures Victim(region, cursor)
         == if |Due(hist, cursor)| == LOGS_PER_CPU then [Due(hist, cursor)[0]] else []
  {
    var h := |hist|;
    if h >= LOGS_PER_CPU {
      ModAdd(h - LOGS_PER_CPU, 1, LOGS_PER_CPU);
      assert region[SeqToIndex(h - LOGS_PER_CPU, LOGS_PER_CPU)] == Record(h - LOGS_PER_CPU, hist[h - LOGS_PER_CPU]);
    } else {
      ModUnique(h, 0, h, LOGS_PER_CPU);
    }
  }

  /** What a dump passes is what is due in front of what it reads. */
  lemma PassedIsDue(region: seq<Entry>, cursor: u64, hist: seq<Event>, n: nat)
    requires HoldsTail(region, hist, LOGS_PER_CPU) && cursor <= |hist|
    requires n <= |Due(hist, cursor)|
    ensures Passed(region, cursor, n) == Due(hist, cursor)[..|Due(hist, cursor)| - n]
  {
    LogReader.ExactWindow(region, hist, |hist| - cursor, LOGS_PER_CPU);
  }

  lemma AppendAccounts(cursor: nat, hist: seq<Event>, ev: Event, counted: seq<Entry>,
                       lost: seq<Entry>, missed: seq<Entry>, victim: seq<Entry>)
    requires cursor <= |hist| && |hist| + 1 < TWO_64
    requires Accounted(cursor, hist, counted, lost, missed)
    requires victim == if |Due(hist, cursor)| == LOGS_PER_CPU then [Due(hist, cursor)[0]] else []
    ensures Accounted(cursor, hist + [ev], counted, lost + victim, missed)
  {
    var longer, from := hist + [ev], DueFrom(hist, cursor);
    GenuineLonger(counted, hist, ev, cursor, cursor);
    GenuineLonger(missed, hist, ev, cursor, cursor);
    GenuineLonger(lost, hist, ev, Max(0, |hist| - LOGS_PER_CPU), Max(0, |longer| - LOGS_PER_CPU));
    if victim == [] {
      assert lost + victim == lost;
      assert DueFrom(longer, cursor) == from;
    } else {
      assert victim == Window(longer, from, from + 1);
      GenuineLonger(lost, hist, ev, from, from);
      ListGrows(lost, longer, from, from, from + 1);
      forall k | 0 <= k < DueFrom(longer, cursor)
        ensures OnOne(counted, lost + victim, missed, k)
      {
        if k == from {
          assert !Has(counted, k) && !Has(missed, k);
        } else {
          assert OnOne(counted, lost, missed, k);
        }
      }
    }
  }

  /** A dump that passes d records and counts the next t. */
  lemma DumpAccounts(cursor: nat, hist: seq<Event>, counted: seq<Entry>, lost: seq<Entry>, missed: seq<Entry>,
                     d: nat, t: nat)
    requires cursor <= |hist| < TWO_64
    requires Accounted(cursor, hist, counted, lost, missed)
    requires d + t <= |Due(hist, cursor)|
    ensures var from := DueFrom(hist, cursor);
            && from + d + t <= |hist| < TWO_64
            && Accounted(from + d + t, hist, counted + Window(hist, from + d, from + d + t), lost,
                         missed + Window(hist, from, from + d))
  {
    var from := DueFrom(hist, cursor);
    var counted', missed' := counted + Window(hist, from + d, from + d + t), missed + Window(hist, from, from + d);
    ListGrows(counted, hist, cursor, from + d, from + d + t);
    ListGrows(missed, hist, cursor, from, from + d);
    forall k | 0 <= k < from + d + t
      ensures OnOne(counted', lost, missed', k)
    {
      if k < from {
        assert OnOne(counted, lost, missed, k);
      } else {
        assert !Has(counted, k) && !Has(lost, k) && !Has(missed, k);
      }
    }
  }

  // ---- Refinement of the bounded queues ----

  /**
   * Per CPU: the records due, oldest first, how many were appended since the cursor, the next
   * number, and the three ledgers.
   */
  datatype Queues = Queues(due: seq<seq<Entry>>, behind: seq<nat>, next: seq<nat>, counted: seq<seq<Entry>>,
                           lost: seq<seq<Entry>>, missed: seq<seq<Entry>>)
  {
    ghost predicate Shape() {
      && |due| == |behind| == |next| == |counted| == |lost| == |missed| < TWO_32
      && forall i | 0 <= i < |due| :: |due[i]| == Min(behind[i], LOGS_PER_CPU)
    }
  }

  /** The newest records due, as many as the 32-bit count lets a dump see. */
  ghost function Visible(due: seq<Entry>, behind: nat): seq<Entry>
    requires |due| == Min(behind, LOGS_PER_CPU)
  {
    due[|due| - Min(behind % 0x1_0000_0000, LOGS_PER_CPU)..]
  }

  ghost function AllVisible(q: Queues): (bs: seq<seq<Entry>>)
    requires q.Shape()
    ensures |bs| == |q.due|
  {
    seq(|q.due|, i requires 0 <= i < |q.due| => Visible(q.due[i], q.behind[i]))
  }

  /** The records due from CPU i. */
  ghost function DueOf(w: World, i: nat): seq<Entry>
    requires Inv(w) && i < |w.hist|
  {
    assert CpuInv(w, i);
    Due(w.hist[i], w.log.cursors[i])
  }

  ghost function BehindOf(w: World, i: nat): nat
    requires Inv(w) && i < |w.hist|
  {
    assert CpuInv(w, i);
    |w.hist[i]| - w.log.cursors[i]
  }

  lemma BehindIs(w: World, i: nat)
    requires Inv(w) && i < |w.hist|
    ensures BehindOf(w, i) == |w.hist[i]| - w.log.cursors[i]
  {
    assert CpuInv(w, i);
  }

  ghost function Abstract(w: World): (q: Queues)
    requires Inv(w)
    ensures q.Shape() && |q.due| == |w.hist|
  {
    Queues(seq(|w.hist|, i requires 0 <= i < |w.hist| => DueOf(w, i)),
           seq(|w.hist|, i requires 0 <= i < |w.hist| => BehindOf(w, i)),
           seq(|w.hist|, i requires 0 <= i < |w.hist| => |w.hist[i]|),
           w.counted, w.lost, w.missed)
  }

  /** One queue after a dump that sees the records b of it: those not seen go, and t of those seen. */
  ghost function DueAfter(q: Queues, bs: seq<seq<Entry>>, i: nat): seq<Entry>
    requires q.Shape() && i < |bs| == |q.due|
  {
    if Unreached(bs, i) then q.due[i] else bs[i][CountedOf(bs, i)..]
  }

  ghost function BehindAfter(q: Queues, bs: seq<seq<Entry>>, i: nat): nat
    requires q.Shape() && i < |bs| == |q.due|
  {
    if Unreached(bs, i) then q.behind[i] else |bs[i]| - CountedOf(bs, i)
  }

  ghost function MissedAfter(q: Queues, bs: seq<seq<Entry>>, i: nat): seq<Entry>
    requires q.Shape() && i < |bs| == |q.due|
  {
    q.missed[i] + if Unreached(bs, i) then [] else q.due[i][..Max(0, |q.due[i]| - |bs[i]|)]
  }

  ghost function QueueDump(q: Queues, bs: seq<seq<Entry>>): Queues
    requires q.Shape() && |bs| == |q.due|
  {
    q.(due := seq(|bs|, i requires 0 <= i < |bs| => DueAfter(q, bs, i)),
       behind := seq(|bs|, i requires 0 <= i < |bs| => BehindAfter(q, bs, i)),
       counted := seq(|bs|, i requires 0 <= i < |bs| => q.counted[i] + bs[i][..CountedOf(bs, i)]),
       missed := seq(|bs|, i requires 0 <= i < |bs| => MissedAfter(q, bs, i)))
  }

  /**
   * An append enqueues, and drops the oldest record of a full queue. A dump that reaches a CPU
   * dequeues what it cannot see and what it counts; one that does not leaves the queue alone.
   */
  ghost function QueueStep(q: Queues, step: Step): Queues
    requires q.Shape() && (step.Append? ==> step.cpu < |q.due| && q.next[step.cpu] + 1 < TWO_64)
  {
    match step
    case Append(c, ev) =>
      var grown := q.due[c] + [Record(q.next[c], ev)];
      var full := |q.due[c]| == LOGS_PER_CPU;
      q.(due := q.due[c := if full then grown[1..] else grown],
         behind := q.behind[c := q.behind[c] + 1],
         next := q.next[c := q.next[c] + 1],
         lost := if full then q.lost[c := q.lost[c] + [q.due[c][0]]] else q.lost)
    case Dump => QueueDump(q, AllVisible(q))
  }

  lemma DueAfterAppend(hist: seq<Event>, cursor: nat, ev: Event)
    requires cursor <= |hist| && |hist| + 1 < TWO_64
    ensures var due := Due(hist, cursor);
            var grown := due + [Record(|hist|, ev)];
            Due(hist + [ev], cursor) == if |due| == LOGS_PER_CPU then grown[1..] else grown
  {
  }

  lemma AppendKeepsInv(w: World, c: nat, ev: Event)
    requires Inv(w) && Ready(w, Append(c, ev))
    ensures Inv(Next(w, Append(c, ev)))
    ensures Victim(w.log.regions[c], w.log.cursors[c])
         == if |DueOf(w, c)| == LOGS_PER_CPU then [DueOf(w, c)[0]] else []
  {
    assert CpuInv(w, c);
    var region, cursor, hist := w.log.regions[c], w.log.cursors[c], w.hist[c];
    AddKeepsTail(region, hist, ev, LOGS_PER_CPU);
    VictimIsOldestDue(region, cursor, hist);
    AppendAccounts(cursor, hist, ev, w.counted[c], w.lost[c], w.missed[c], Victim(region, cursor));
    forall i | 0 <= i < |w.hist|
      ensures CpuInv(Next(w, Append(c, ev)), i)
    {
      assert CpuInv(w, i);
    }
  }

  lemma AppendDue(w: World, c: nat, ev: Event, i: nat)
    requires Inv(w) && Ready(w, Append(c, ev)) && Inv(Next(w, Append(c, ev)))
    requires i < |w.hist|
    ensures DueOf(Next(w, Append(c, ev)), i) == QueueStep(Abstract(w), Append(c, ev)).due[i]
    ensures BehindOf(Next(w, Append(c, ev)), i) == QueueStep(Abstract(w), Append(c, ev)).behind[i]
  {
    assert CpuInv(w, i);
    if i == c {
      DueAfterAppend(w.hist[c], w.log.cursors[c], ev);
    }
  }

  lemma AppendStep(w: World, c: nat, ev: Event)
    requires Inv(w) && Ready(w, Append(c, ev))
    ensures Inv(Next(w, Append(c, ev)))
    ensures Abstract(Next(w, Append(c, ev))) == QueueStep(Abstract(w), Append(c, ev))
  {
    AppendKeepsInv(w, c, ev);
    var q, q' := Abstract(Next(w, Append(c, ev))), QueueStep(Abstract(w), Append(c, ev));
    forall i | 0 <= i < |w.hist|
      ensures q.due[i] == q'.due[i] && q.behind[i] == q'.behind[i]
    {
      AppendDue(w, c, ev, i);
    }
    assert q.due == q'.due && q.behind == q'.behind;
    assert q.next == q'.next;
    assert w.lost[c] + [] == w.lost[c];
    assert q.lost == q'.lost;
  }

  /** What a dump reads from a CPU is what the queue lets it see: a window up to the head. */
  lemma VisibleWindow(hist: seq<Event>, cursor: nat)
    requires cursor <= |hist| < TWO_64
    ensures var count := Min((|hist| - cursor) % 0x1_0000_0000, LOGS_PER_CPU);
            && count <= |Due(hist, cursor)| == Min(|hist| - cursor, LOGS_PER_CPU)
            && Visible(Due(hist, cursor), |hist| - cursor) == Window(hist, |hist| - count, |hist|)
  {
  }

  lemma RegionReadsVisible(region: seq<Entry>, hist: seq<Event>, cursor: u64)
    requires HoldsTail(region, hist, LOGS_PER_CPU) && cursor <= |hist|
    ensures var b, behind := Backlog(region, cursor), |hist| - cursor;
            && |b| == Min(behind % 0x1_0000_0000, LOGS_PER_CPU) <= |Due(hist, cursor)| == Min(behind, LOGS_PER_CPU)
            && b == Visible(Due(hist, cursor), behind) == Window(hist, |hist| - |b|, |hist|)
  {
    BacklogWindow(region, hist, cursor);
    VisibleWindow(hist, cursor);
  }

  lemma CpuReadsVisible(w: World, i: nat)
    requires Inv(w) && i < |w.hist|
    ensures Backlogs(w.log)[i] == Visible(DueOf(w, i), BehindOf(w, i))
    ensures |Backlogs(w.log)[i]| == Min(BehindOf(w, i) % 0x1_0000_0000, LOGS_PER_CPU) <= |DueOf(w, i)|
    ensures |DueOf(w, i)| <= |w.hist[i]| < TWO_64
    ensures Backlogs(w.log)[i] == Window(w.hist[i], |w.hist[i]| - |Backlogs(w.log)[i]|, |w.hist[i]|)
    ensures |DueOf(w, i)| == Min(BehindOf(w, i), LOGS_PER_CPU)
  {
    assert CpuInv(w, i);
    RegionReadsVisible(w.log.regions[i], w.hist[i], w.log.cursors[i]);
  }

  lemma DumpReadsVisible(w: World)
    requires Inv(w)
    ensures Backlogs(w.log) == AllVisible(Abstract(w))
  {
    forall i | 0 <= i < |w.hist|
      ensures Backlogs(w.log)[i] == AllVisible(Abstract(w))[i]
    {
      CpuReadsVisible(w, i);
    }
  }

  /** A window of t records behind the first d of a window. */
  lemma WindowPart(hist: seq<Event>, from: nat, d: nat, t: nat)
    requires from + d + t <= |hist| < TWO_64
    ensures Window(hist, from + d, |hist|)[..t] == Window(hist, from + d, from + d + t)
    ensures Window(hist, from + d, |hist|)[t..] == Window(hist, from + d + t, |hist|)
    ensures Window(hist, from, |hist|)[..d] == Window(hist, from, from + d)
  {
  }

  /** A dump that reads b from a CPU, passes over `passed` and counts the first t of b. */
  ghost predicate Takes(cursor: nat, cursor': nat, hist: seq<Event>, b: seq<Entry>, t: nat, passed: seq<Entry>)
    requires cursor <= |hist| < TWO_64
    requires t <= |b| <= |Due(hist, cursor)|
  {
    && cursor' == |hist| - |b| + t
    && Due(hist, cursor') == b[t..]
    && passed == Due(hist, cursor)[..|Due(hist, cursor)| - |b|]
  }

  /** What a dump that reaches CPU i, or does not, makes of it. */
  ghost predicate Dumped(w: World, bs: seq<seq<Entry>>, i: nat)
    requires Inv(w) && i < |w.hist| == |bs| < TWO_32 && |bs[i]| <= |DueOf(w, i)|
  {
    assert CpuInv(w, i);
    var cursor', t, passed := NextCursor(w.log, bs, i), CountedOf(bs, i), MissedOf(w.log, bs, i);
    && cursor' <= |w.hist[i]| < TWO_64
    && Accounted(cursor', w.hist[i], w.counted[i] + bs[i][..t], w.lost[i], w.missed[i] + passed)
    && (if Unreached(bs, i) then cursor' == w.log.cursors[i] && t == 0 && passed == []
        else Takes(w.log.cursors[i], cursor', w.hist[i], bs[i], t, passed))
  }

  lemma DumpUnreached(w: World, bs: seq<seq<Entry>>, i: nat)
    requires Inv(w) && i < |w.hist| == |bs| < TWO_32 && |bs[i]| <= |DueOf(w, i)|
    requires Unreached(bs, i)
    ensures Dumped(w, bs, i)
  {
    assert CpuInv(w, i);
    assert w.counted[i] + bs[i][..0] == w.counted[i] && w.missed[i] + [] == w.missed[i];
  }

  lemma DumpCounts(cursor: nat, cursor': nat, hist: seq<Event>, counted: seq<Entry>,
                   lost: seq<Entry>, missed: seq<Entry>, b: seq<Entry>, t: nat, passed: seq<Entry>)
    requires cursor <= |hist| < TWO_64 && Accounted(cursor, hist, counted, lost, missed)
    requires t <= |b| <= |Due(hist, cursor)| && b == Window(hist, |hist| - |b|, |hist|)
    requires cursor' == |hist| - |b| + t
    requires passed == Due(hist, cursor)[..|Due(hist, cursor)| - |b|]
    ensures Accounted(cursor', hist, counted + b[..t], lost, missed + passed)
    ensures Takes(cursor, cursor', hist, b, t, passed)
  {
    BacklogParts(cursor, hist, b, t);
    DumpAccounts(cursor, hist, counted, lost, missed, |Due(hist, cursor)| - |b|, t);
  }

  /** The parts of what is due that a dump passes, counts and leaves. */
  lemma BacklogParts(cursor: nat, hist: seq<Event>, b: seq<Entry>, t: nat)
    requires cursor <= |hist| < TWO_64
    requires t <= |b| <= |Due(hist, cursor)| && b == Window(hist, |hist| - |b|, |hist|)
    ensures var from, d := DueFrom(hist, cursor), |Due(hist, cursor)| - |b|;
            && from + d == |hist| - |b|
            && Due(hist, cursor)[..d] == Window(hist, from, from + d)
            && b[..t] == Window(hist, from + d, from + d + t)
            && b[t..] == Due(hist, from + d + t)
  {
    var from, d := DueFrom(hist, cursor), |Due(hist, cursor)| - |b|;
    WindowPart(hist, from, d, t);
    WindowPart(hist, from, 0, d);
  }

  /** The cursor of a CPU the dump reaches: behind what it counted. */
  lemma CursorReached(log: Log, bs: seq<seq<Entry>>, i: nat, hist: seq<Event>)
    requires log.Shape() && i < |bs| == |log.regions| && !Unreached(bs, i)
    requires |bs[i]| <= |hist| < TWO_64 && Head(log.regions[i]) == |hist|
    requires bs[i] == Window(hist, |hist| - |bs[i]|, |hist|)
    ensures NextCursor(log, bs, i) == |hist| - |bs[i]| + CountedOf(bs, i)
  {
  }

  lemma MissedReached(w: World, bs: seq<seq<Entry>>, i: nat)
    requires Inv(w) && i < |w.hist| == |bs| < TWO_32 && |bs[i]| <= |DueOf(w, i)|
    requires !Unreached(bs, i)
    ensures MissedOf(w.log, bs, i) == DueOf(w, i)[..|DueOf(w, i)| - |bs[i]|]
  {
    assert CpuInv(w, i);
    PassedIsDue(w.log.regions[i], w.log.cursors[i], w.hist[i], |bs[i]|);
  }

  lemma CpuTakes(w: World, i: nat, cursor': nat, b: seq<Entry>, t: nat, passed: seq<Entry>)
    requires Inv(w) && i < |w.hist| && w.log.cursors[i] <= |w.hist[i]| < TWO_64
    requires t <= |b| <= |DueOf(w, i)| && b == Window(w.hist[i], |w.hist[i]| - |b|, |w.hist[i]|)
    requires cursor' == |w.hist[i]| - |b| + t
    requires passed == DueOf(w, i)[..|DueOf(w, i)| - |b|]
    ensures Accounted(cursor', w.hist[i], w.counted[i] + b[..t], w.lost[i], w.missed[i] + passed)
    ensures Takes(w.log.cursors[i], cursor', w.hist[i], b, t, passed)
  {
    assert CpuInv(w, i);
    DumpCounts(w.log.cursors[i], cursor', w.hist[i], w.counted[i], w.lost[i], w.missed[i], b, t, passed);
  }

  lemma DumpReached(w: World, bs: seq<seq<Entry>>, i: nat)
    requires Inv(w) && i < |w.hist| == |bs| < TWO_32 && |bs[i]| <= |DueOf(w, i)|
    requires |bs[i]| <= |w.hist[i]| < TWO_64 && w.log.cursors[i] <= |w.hist[i]| == Head(w.log.regions[i])
    requires !Unreached(bs, i) && bs[i] == Window(w.hist[i], |w.hist[i]| - |bs[i]|, |w.hist[i]|)
    ensures Dumped(w, bs, i)
  {
    MissedReached(w, bs, i);
    CursorReached(w.log, bs, i, w.hist[i]);
    CpuTakes(w, i, NextCursor(w.log, bs, i), bs[i], CountedOf(bs, i), MissedOf(w.log, bs, i));
  }

  lemma DumpEither(w: World, bs: seq<seq<Entry>>, i: nat)
    requires Inv(w) && i < |w.hist| == |bs| < TWO_32 && |bs[i]| <= |DueOf(w, i)|
    requires |bs[i]| <= |w.hist[i]| < TWO_64 && bs[i] == Window(w.hist[i], |w.hist[i]| - |bs[i]|, |w.hist[i]|)
    ensures Dumped(w, bs, i)
  {
    if Unreached(bs, i) {
      DumpUnreached(w, bs, i);
    } else {
      assert CpuInv(w, i);
      DumpReached(w, bs, i);
    }
  }

  lemma DumpOne(w: World, i: nat)
    requires Inv(w) && i < |w.hist|
    ensures |Backlogs(w.log)[i]| <= |DueOf(w, i)|
    ensures Dumped(w, Backlogs(w.log), i)
  {
    CpuReadsVisible(w, i);
    DumpEither(w, Backlogs(w.log), i);
  }

  lemma DumpKeepsInv(w: World)
    requires Inv(w)
    ensures Inv(Next(w, Dump))
  {
    forall i | 0 <= i < |w.hist|
      ensures CpuInv(Next(w, Dump), i)
    {
      assert CpuInv(w, i);
      DumpOne(w, i);
    }
  }

  lemma DumpDue(w: World, i: nat)
    requires Inv(w) && Inv(Next(w, Dump))
    requires i < |w.hist|
    ensures var q, bs := Abstract(w), Backlogs(w.log);
            && DueOf(Next(w, Dump), i) == DueAfter(q, bs, i)
            && BehindOf(Next(w, Dump), i) == BehindAfter(q, bs, i)
            && Next(w, Dump).missed[i] == MissedAfter(q, bs, i)
  {
    DumpOne(w, i);
  }

  lemma DumpStep(w: World)
    requires Inv(w)
    ensures Inv(Next(w, Dump))
    ensures Abstract(Next(w, Dump)) == QueueStep(Abstract(w), Dump)
    ensures DumpText(w.log) == Page(AllPending(AllVisible(Abstract(w))))
  {
    DumpKeepsInv(w);
    DumpReadsVisible(w);
    var q, q' := Abstract(Next(w, Dump)), QueueStep(Abstract(w), Dump);
    forall i | 0 <= i < |w.hist|
      ensures q.due[i] == q'.due[i] && q.behind[i] == q'.behind[i] && q.missed[i] == q'.missed[i]
    {
      DumpDue(w, i);
    }
    assert q.due == q'.due && q.behind == q'.behind && q.missed == q'.missed;
    assert q.next == q'.next;
    assert q.counted == q'.counted;
  }

  /** Every step of the log is the same step of the bounded queues, and keeps the accounts. */
  lemma Simulation(w: World, step: Step)
    requires Inv(w) && Ready(w, step)
    ensures Inv(Next(w, step))
    ensures Abstract(Next(w, step)) == QueueStep(Abstract(w), step)
    ensures step.Dump? ==> DumpText(w.log) == Page(AllPending(AllVisible(Abstract(w))))
  {
    match step
    case Append(c, ev) => AppendStep(w, c, ev);
    case Dump => DumpStep(w);
  }

  // ---- Runs ----

  ghost predicate Runnable(w: World, steps: seq<Step>)
    decreases |steps|, 0
  {
    if steps == [] then w.Shape()
    else Runnable(w, steps[..|steps| - 1]) && Ready(Run(w, steps[..|steps| - 1]), steps[|steps| - 1])
  }

  ghost function Run(w: World, steps: seq<Step>): (w': World)
    requires Runnable(w, steps)
    decreases |steps|, 1
  {
    if steps == [] then w else Next(Run(w, steps[..|steps| - 1]), steps[|steps| - 1])
  }

  lemma RunOneMore(w: World, steps: seq<Step>, step: Step)
    requires Runnable(w, steps) && Ready(Run(w, steps), step)
    ensures Runnable(w, steps + [step]) && Run(w, steps + [step]) == Next(Run(w, steps), step)
  {
    assert (steps + [step])[..|steps + [step]| - 1] == steps;
  }

  lemma {:induction false} RunKeepsInv(w: World, steps: seq<Step>)
    requires Inv(w) && Runnable(w, steps)
    ensures Inv(Run(w, steps)) && |Run(w, steps).hist| == |w.hist|
  {
    if steps == [] {
    } else {
      var front := steps[..|steps| - 1];
      RunKeepsInv(w, front);
      Simulation(Run(w, front), steps[|steps| - 1]);
    }
  }

  /** All numbers below the first one due were counted, exactly when none was lost or missed. */
  lemma CompleteExactly(cursor: nat, hist: seq<Event>, counted: seq<Entry>, lost: seq<Entry>, missed: seq<Entry>)
    requires cursor <= |hist| < TWO_64 && Accounted(cursor, hist, counted, lost, missed)
    ensures var from := DueFrom(hist, cursor);
            counted == Window(hist, 0, from) <==> lost == [] && missed == []
  {
    var from := DueFrom(hist, cursor);
    if counted == Window(hist, 0, from) {
      forall k | 0 <= k < from
        ensures !Has(lost, k) && !Has(missed, k)
      {
        assert OnOne(counted, lost, missed, k);
        HasWindow(hist, 0, from, k);
      }
      NothingElse(lost, hist, Max(0, |hist| - LOGS_PER_CPU));
      NothingElse(missed, hist, cursor);
    }
    if lost == [] && missed == [] {
      forall k | 0 <= k < from
        ensures Has(counted, k)
      {
        assert OnOne(counted, lost, missed, k);
      }
      AscendingAndComplete(counted, from);
    }
  }

  /**
   * Whole-run delivery. After any run of appends and dumps the counted records of a CPU are
   * strictly ascending, each carries what was appended under its number, and every number
   * before the first one still due was counted, overwritten or passed, exactly one of them. The
   * counted records are 0, 1, 2, ... up to the first one due, without a gap, if and only if
   * none was overwritten undumped or passed.
   */
  lemma WholeRunDelivery(cpus: nat, steps: seq<Step>, i: nat)
    requires i < cpus < TWO_32 && Runnable(Start(cpus), steps)
    ensures var w := Run(Start(cpus), steps);
            && w.Shape() && i < |w.hist| && w.log.cursors[i] <= |w.hist[i]| < TWO_64
            && Accounted(w.log.cursors[i], w.hist[i], w.counted[i], w.lost[i], w.missed[i])
            && (w.counted[i] == Window(w.hist[i], 0, DueFrom(w.hist[i], w.log.cursors[i]))
                <==> w.lost[i] == [] && w.missed[i] == [])
  {
    StartInv(cpus);
    RunKeepsInv(Start(cpus), steps);
    var w := Run(Start(cpus), steps);
    assert CpuInv(w, i);
    CompleteExactly(w.log.cursors[i], w.hist[i], w.counted[i], w.lost[i], w.missed[i]);
  }

  /** A dump passes no record of CPU i: it does not reach it, or its count is not truncated. */
  ghost predicate Sees(w: World, i: nat)
    requires w.Shape() && i < |w.hist|
  {
    Unreached(Backlogs(w.log), i) || Untruncated(|w.hist[i]|, w.log.cursors[i])
  }

  /** A dump reads as many records as are due exactly when its count is not truncated. */
  lemma SeesAllDue(w: World, i: nat)
    requires Inv(w) && i < |w.hist|
    ensures w.log.cursors[i] <= |w.hist[i]|
    ensures |Backlogs(w.log)[i]| == |DueOf(w, i)| <==> Untruncated(|w.hist[i]|, w.log.cursors[i])
  {
    assert CpuInv(w, i);
    CpuReadsVisible(w, i);
    CountSurvives(BehindOf(w, i));
  }

  lemma MissedStep(w: World, step: Step, i: nat)
    requires Inv(w) && Ready(w, step) && i < |w.hist|
    ensures Next(w, step).missed[i] == [] <==> w.missed[i] == [] && (step.Dump? ==> Sees(w, i))
  {
    if step.Dump? {
      DumpOne(w, i);
      SeesAllDue(w, i);
    }
  }

  /** No dump of the run passes a record of CPU i. */
  ghost predicate AllSeen(w: World, steps: seq<Step>, i: nat)
    requires Runnable(w, steps) && i < |w.hist|
    decreases |steps|
  {
    if steps == [] then true
    else
      var front := steps[..|steps| - 1];
      && AllSeen(w, front, i)
      && i < |Run(w, front).hist|
      && (steps[|steps| - 1].Dump? ==> Sees(Run(w, front), i))
  }

  /**
   * Exactly when nothing is missed over a run: every dump that reached the CPU found it fewer
   * than 2^32 records behind, or so far behind that the low 32 bits still fill the ring.
   */
  lemma {:induction false} MissedExactly(cpus: nat, steps: seq<Step>, i: nat)
    requires i < cpus < TWO_32 && Runnable(Start(cpus), steps)
    ensures i < |Run(Start(cpus), steps).missed|
    ensures Run(Start(cpus), steps).missed[i] == [] <==> AllSeen(Start(cpus), steps, i)
  {
    StartInv(cpus);
    RunKeepsInv(Start(cpus), steps);
    if steps == [] {
    } else {
      var front := steps[..|steps| - 1];
      RunKeepsInv(Start(cpus), front);
      MissedExactly(cpus, front, i);
      MissedStep(Run(Start(cpus), front), steps[|steps| - 1], i);
    }
  }

  // ---- Draining ----

  /** Of every backlog the part among the first k pending, and the rest. */
  ghost function Firsts(bs: seq<seq<Entry>>, k: nat): (r: seq<seq<Entry>>)
    requires |bs| < TWO_32
    ensures |r| == |bs|
  {
    seq(|bs|, i requires 0 <= i < |bs| => bs[i][..CountedBy(bs, i, k)])
  }

  ghost function Rests(bs: seq<seq<Entry>>, k: nat): (r: seq<seq<Entry>>)
    requires |bs| < TWO_32
    ensures |r| == |bs|
  {
    seq(|bs|, i requires 0 <= i < |bs| => bs[i][CountedBy(bs, i, k)..])
  }

  /** The part of every backlog that a dump counts, and the part it leaves. */
  ghost function CountedPart(bs: seq<seq<Entry>>): (r: seq<seq<Entry>>)
    requires |bs| < TWO_32
    ensures |r| == |bs|
  {
    Firsts(bs, Fit(AllPending(bs)))
  }

  ghost function LeftPart(bs: seq<seq<Entry>>): (r: seq<seq<Entry>>)
    requires |bs| < TWO_32
    ensures |r| == |bs|
  {
    Rests(bs, Fit(AllPending(bs)))
  }

  /** Cutting two lists at one place: only the second is cut, or only the first. */
  lemma SplitBoth<T>(front: seq<T>, last: seq<T>, k: nat, t: nat)
    requires k <= |front| && t <= |last| && (k < |front| ==> t == 0)
    ensures (front + last)[..k + t] == front[..k] + last[..t]
    ensures (front + last)[k + t..] == front[k..] + last[t..]
  {
  }

  lemma TaggedParts(cpu: u32, entries: seq<Entry>, t: nat)
    requires t <= |entries|
    ensures Tagged(cpu, entries[..t]) == Tagged(cpu, entries)[..t]
    ensures Tagged(cpu, entries[t..]) == Tagged(cpu, entries)[t..]
  {
  }

  lemma {:induction false} FirstsOfPending(bs: seq<seq<Entry>>, i: nat, k: nat)
    requires i <= |bs| < TWO_32
    ensures Pending(Firsts(bs, k), i) == Pending(bs, i)[..Min(k, |Pending(bs, i)|)]
  {
    if i == 0 {
    } else {
      var t, cut := CountedBy(bs, i - 1, k), Min(k, |Pending(bs, i - 1)|);
      FirstsOfPending(bs, i - 1, k);
      CountedCases(bs, i - 1, k);
      TaggedParts(i - 1, bs[i - 1], t);
      SplitBoth(Pending(bs, i - 1), Tagged(i - 1, bs[i - 1]), cut, t);
      assert Firsts(bs, k)[i - 1] == bs[i - 1][..t];
    }
  }

  lemma {:induction false} RestsOfPending(bs: seq<seq<Entry>>, i: nat, k: nat)
    requires i <= |bs| < TWO_32
    ensures Pending(Rests(bs, k), i) == Pending(bs, i)[Min(k, |Pending(bs, i)|)..]
  {
    if i == 0 {
    } else {
      var t, cut := CountedBy(bs, i - 1, k), Min(k, |Pending(bs, i - 1)|);
      RestsOfPending(bs, i - 1, k);
      CountedCases(bs, i - 1, k);
      TaggedParts(i - 1, bs[i - 1], t);
      SplitBoth(Pending(bs, i - 1), Tagged(i - 1, bs[i - 1]), cut, t);
      assert Rests(bs, k)[i - 1] == bs[i - 1][t..];
    }
  }

  /**
   * The records counted for each CPU are together, in the order printed, the records the page
   * says are counted; what is left for each CPU is together the rest, in order.
   */
  lemma DumpTakesPrefix(bs: seq<seq<Entry>>)
    requires |bs| < TWO_32
    ensures AllPending(CountedPart(bs)) == AllPending(bs)[..Fit(AllPending(bs))]
    ensures AllPending(LeftPart(bs)) == AllPending(bs)[Fit(AllPending(bs))..]
  {
    FirstsOfPending(bs, |bs|, Fit(AllPending(bs)));
    RestsOfPending(bs, |bs|, Fit(AllPending(bs)));
  }

  /** Number of records the dumps have yet to print. */
  ghost function TotalPending(w: World): nat
    requires w.Shape()
  {
    |AllPending(Backlogs(w.log))|
  }

  lemma {:induction false} PendingSize(bs: seq<seq<Entry>>, i: nat, most: nat)
    requires i <= |bs| < TWO_32
    requires forall k | 0 <= k < |bs| :: |bs[k]| <= most
    ensures |Pending(bs, i)| <= most * i
    ensures |Pending(bs, i)| == 0 ==> forall k | 0 <= k < i :: bs[k] == []
  {
    if i == 0 {
    } else {
      PendingSize(bs, i - 1, most);
      assert most * i == most * (i - 1) + most;
    }
  }

  lemma TotalBound(w: World)
    requires Inv(w)
    ensures TotalPending(w) <= 203 * |w.hist|
    ensures TotalPending(w) == 0 ==> forall i | 0 <= i < |w.hist| :: Backlogs(w.log)[i] == []
  {
    forall i | 0 <= i < |w.hist|
      ensures |Backlogs(w.log)[i]| <= 203
    {
      assert CpuInv(w, i);
      DumpOne(w, i);
    }
    PendingSize(Backlogs(w.log), |w.hist|, 203);
  }

  lemma ShortQueueVisible(due: seq<Entry>)
    requires |due| <= LOGS_PER_CPU
    ensures Visible(due, |due|) == due
  {
  }

  lemma UnreachedCountsNone(bs: seq<seq<Entry>>, i: nat)
    requires i < |bs| < TWO_32
    ensures Unreached(bs, i) ==> CountedOf(bs, i) == 0 && bs[i][CountedOf(bs, i)..] == bs[i]
  {
  }

  /** What a queue shows after a dump: what the dump did not count of what it showed before. */
  lemma VisibleAfterDump(q: Queues, bs: seq<seq<Entry>>, i: nat)
    requires q.Shape() && i < |bs| == |q.due| && bs[i] == Visible(q.due[i], q.behind[i])
    ensures |DueAfter(q, bs, i)| == Min(BehindAfter(q, bs, i), LOGS_PER_CPU)
    ensures Visible(DueAfter(q, bs, i), BehindAfter(q, bs, i)) == bs[i][CountedOf(bs, i)..]
  {
    UnreachedCountsNone(bs, i);
    ShortQueueVisible(bs[i][CountedOf(bs, i)..]);
  }

  /** With the writer idle, a dump finds what the one before left. */
  lemma BacklogsAfterDump(w: World)
    requires Inv(w)
    ensures Inv(Next(w, Dump)) && Backlogs(Next(w, Dump).log) == LeftPart(Backlogs(w.log))
  {
    DumpStep(w);
    DumpReadsVisible(w);
    DumpReadsVisible(Next(w, Dump));
    forall i | 0 <= i < |w.hist|
      ensures Backlogs(Next(w, Dump).log)[i] == LeftPart(Backlogs(w.log))[i]
    {
      VisibleAfterDump(Abstract(w), Backlogs(w.log), i);
    }
  }

  /** One dump leaves nothing to print, or at least 42 records less. */
  lemma DumpShortens(w: World)
    requires Inv(w)
    ensures TotalPending(Next(w, Dump)) == 0 || TotalPending(Next(w, Dump)) + 42 <= TotalPending(w)
  {
    BacklogsAfterDump(w);
    DumpTakesPrefix(Backlogs(w.log));
    BodyBounds(AllPending(Backlogs(w.log)));
  }

  ghost function Dumps(n: nat): (steps: seq<Step>)
    ensures |steps| == n
  {
    seq(n, _ => Dump)
  }

  /** Counted records followed by those to be printed: the same list before and after. */
  ghost predicate Conserved(w: World, w': World)
    requires w.Shape() && w'.Shape() && |w'.hist| == |w.hist|
  {
    forall i | 0 <= i < |w.hist| :: w'.counted[i] + Backlogs(w'.log)[i] == w.counted[i] + Backlogs(w.log)[i]
  }

  lemma JoinParts(before: seq<Entry>, b: seq<Entry>, t: nat)
    requires t <= |b|
    ensures (before + b[..t]) + b[t..] == before + b
  {
  }

  /** Two dumps in a row print what there was to print, in order, neither losing nor repeating any of it. */
  lemma DumpConserves(w: World)
    requires Inv(w)
    ensures Conserved(w, Next(w, Dump))
  {
    BacklogsAfterDump(w);
    var bs, w' := Backlogs(w.log), Next(w, Dump);
    forall i | 0 <= i < |w.hist|
      ensures w'.counted[i] + Backlogs(w'.log)[i] == w.counted[i] + bs[i]
    {
      JoinParts(w.counted[i], bs[i], CountedOf(bs, i));
    }
  }

  /** What n dumps come to: nothing is pending or at least 42 records less per dump, and none is lost. */
  ghost predicate Progressed(w: World, w': World, n: nat)
    requires Inv(w)
  {
    && Inv(w') && |w'.hist| == |w.hist|
    && (TotalPending(w') == 0 || TotalPending(w') + 42 * n <= TotalPending(w))
    && Conserved(w, w')
  }

  lemma OneDumpProgresses(w: World, v: World, n: nat)
    requires Inv(w) && Progressed(w, v, n)
    ensures Progressed(w, Next(v, Dump), n + 1)
  {
    DumpShortens(v);
    DumpKeepsInv(v);
    DumpConserves(v);
  }

  lemma NoDumps(w: World)
    requires Inv(w)
    ensures Runnable(w, Dumps(0)) && Run(w, Dumps(0)) == w && Progressed(w, w, 0)
  {
    assert Dumps(0) == [];
  }

  lemma OneMoreDump(w: World, n: nat)
    requires Inv(w) && Runnable(w, Dumps(n)) && Inv(Run(w, Dumps(n)))
    ensures Runnable(w, Dumps(n + 1)) && Run(w, Dumps(n + 1)) == Next(Run(w, Dumps(n)), Dump)
  {
    RunOneMore(w, Dumps(n), Dump);
    assert Dumps(n + 1) == Dumps(n) + [Dump];
  }

  lemma DumpsMore(w: World, n: nat)
    requires Inv(w) && Runnable(w, Dumps(n)) && Progressed(w, Run(w, Dumps(n)), n)
    ensures Runnable(w, Dumps(n + 1)) && Progressed(w, Run(w, Dumps(n + 1)), n + 1)
  {
    OneDumpProgresses(w, Run(w, Dumps(n)), n);
    OneMoreDump(w, n);
  }

  lemma {:induction false} DumpsProgress(w: World, n: nat)
    requires Inv(w)
    ensures Runnable(w, Dumps(n)) && Progressed(w, Run(w, Dumps(n)), n)
  {
    if n == 0 {
      NoDumps(w);
    } else {
      DumpsProgress(w, n - 1);
      DumpsMore(w, n - 1);
    }
  }

  /**
   * Draining: with the writer idle, five dumps per CPU count everything there was to print, each
   * CPU's records in order, whatever state the run has reached.
   */
  lemma Drain(w: World)
    requires Inv(w)
    ensures Runnable(w, Dumps(5 * |w.hist|))
    ensures var w' := Run(w, Dumps(5 * |w.hist|));
            && w'.Shape() && |w'.hist| == |w.hist|
            && forall i | 0 <= i < |w.hist| :: w'.counted[i] == w.counted[i] + Backlogs(w.log)[i]
  {
    var n := 5 * |w.hist|;
    DumpsProgress(w, n);
    TotalBound(w);
    var w' := Run(w, Dumps(n));
    TotalBound(w');
    forall i | 0 <= i < |w.hist|
      ensures w'.counted[i] == w.counted[i] + Backlogs(w.log)[i]
    {
      assert w'.counted[i] + Backlogs(w'.log)[i] == w.counted[i] + Backlogs(w.log)[i];
    }
  }
}
