/**
 * The driver taken apart into its accesses to the shared memory, with appends to any CPU between
 * any two of them: the look at a head, one pass of the reader, and the printing of what was read,
 * which touches no shared memory.
 */
module LogMachine {
  import opened Words
  import opened LogRing
  import LogReader
  import opened LogText
  import opened LogPage
  import opened LogDump
  import opened LogLive
  import opened Ledgers

  type Reader = LogReader.Reader

  /**
   * Where the driver is: in no dump; about to look at a CPU's head; or reading a CPU's records,
   * from the head `start` it saw. `items` are the records the page counts so far. For the record:
   * the cursor before the look, how many records are meant, and the head at each pass.
   */
  datatype Driver =
    | Idle
    | Entering(cpu: nat, items: seq<Item>)
    | Reading(cpu: nat, items: seq<Item>, start: u64, reader: Reader, base: u64, count: nat, heads: seq<nat>)

  datatype Step = Append(cpu: nat, ev: Event) | Go

  /**
   * The log, the driver and its pages, with the bookkeeping of a run, per CPU: every event
   * appended, every record counted, the records that were meant in their places, every record
   * that had been overwritten uncounted when the cursor went past it, and every record that the
   * cursor went past uncounted while the ring held it.
   */
  datatype World = World(log: Log, driver: Driver, pages: seq<string>, hist: seq<seq<Event>>,
                         counted: seq<seq<Entry>>, meant: seq<seq<Entry>>,
                         lost: seq<seq<Entry>>, skipped: seq<seq<Entry>>)
  {
    ghost predicate Shape() {
      && log.Shape()
      && |hist| == |counted| == |meant| == |lost| == |skipped| == |log.regions|
      && match driver
         case Idle => true
         case Entering(cpu, items) => cpu <= |hist| && OpenPage(items)
         case Reading(cpu, items, _, reader, _, _, _) =>
           cpu < |hist| && OpenPage(items) && reader.index <= LOGS_PER_CPU
    }
  }

  /** The page takes more than these records. */
  ghost predicate OpenPage(items: seq<Item>) {
    |Concat(Lines(items))| < FULL
  }

  ghost function Start(cpus: nat): (w: World)
    requires cpus < TWO_32
    ensures w.Shape()
  {
    var none := seq(cpus, _ => []);
    World(EmptyLog(cpus), Idle, [], seq(cpus, _ => []), none, none, none, none)
  }

  // ---- Steps ----

  /** The records from..to-1 that are not on a list. */
  ghost function Off(hist: seq<Event>, from: nat, to: nat, list: seq<Entry>): seq<Entry> {
    if !(from < to <= |hist| < TWO_64) then []
    else Off(hist, from, to - 1, list) + if Has(list, to - 1) then [] else [Record(to - 1, hist[to - 1])]
  }

  /** The first record the ring still holds when the cursor goes from `from` to `to`. */
  ghost function Held(hist: seq<Event>, from: nat, to: nat): nat {
    Max(from, Min(to, |hist| - LOGS_PER_CPU))
  }

  /** The cursor of CPU i has gone from `from` to `to`, and these records were counted where those were meant. */
  ghost function Settle(w: World, i: nat, from: nat, to: nat, taken: seq<Entry>, meant: seq<Entry>): (w': World)
    requires w.Shape() && i < |w.hist|
    ensures w'.Shape() && w'.driver == w.driver && |w'.hist| == |w.hist|
  {
    var hist, counted := w.hist[i], w.counted[i] + taken;
    var held := Held(hist, from, to);
    w.(counted := w.counted[i := counted],
       meant := w.meant[i := w.meant[i] + meant],
       lost := w.lost[i := w.lost[i] + Off(hist, from, held, counted)],
       skipped := w.skipped[i := w.skipped[i] + Off(hist, held, to, counted)])
  }

  ghost function WithCursor(w: World, i: nat, cursor: u64): (w': World)
    requires w.Shape() && i < |w.hist|
    ensures w'.Shape() && w'.driver == w.driver && |w'.hist| == |w.hist|
  {
    w.(log := w.log.(cursors := w.log.cursors[i := cursor]))
  }

  /** The look at a head: the cursor moves to it, and the read starts if there is anything to read. */
  ghost function Enter(w: World, cpu: nat, items: seq<Item>): (w': World)
    requires w.Shape() && cpu < |w.hist| && OpenPage(items)
    ensures w'.Shape() && |w'.hist| == |w.hist|
  {
    var head, was := Head(w.log.regions[cpu]), w.log.cursors[cpu];
    var n := ToRead(head, was);
    var w1 := WithCursor(w, cpu, head);
    if n == 0 || head == 0 then
      Settle(w1, cpu, was, head, [], []).(driver := Entering(cpu + 1, items))
    else
      var reader := LogReader.StartReader(head, AsInt(n), LOGS_PER_CPU);
      w1.(driver := Reading(cpu, items, head, reader, was, LogReader.ClampCount(AsInt(n), LOGS_PER_CPU), []))
  }

  ghost function Pass(w: World): (w': World)
    requires w.Shape() && w.driver.Reading? && w.driver.reader.Active()
    ensures w'.Shape() && |w'.hist| == |w.hist|
  {
    var d, region := w.driver, w.log.regions[w.driver.cpu];
    w.(driver := d.(reader := LogReader.StepReader(region, d.start, d.reader, LOGS_PER_CPU),
                    heads := d.heads + [Head(region)]))
  }

  /** Everything read, with what the page counts already. */
  function Offered(d: Driver): seq<Item>
    requires d.Reading? && d.cpu < TWO_32
  {
    d.items + Tagged(d.cpu, d.reader.out)
  }

  /** How many of the records read are counted. */
  function Taken(d: Driver): (t: nat)
    requires d.Reading? && d.cpu < TWO_32
    ensures t <= |d.reader.out|
  {
    Max(0, Min(Fit(Offered(d)) - |d.items|, |d.reader.out|))
  }

  /** The records a dump meant to count, when it counts t. */
  ghost function MeantBy(w: World, d: Driver, t: nat): seq<Entry>
    requires w.Shape() && d.Reading? && d.cpu < |w.hist|
  {
    var hist, from := w.hist[d.cpu], d.start - d.count;
    if 0 <= from && from + t <= |hist| < TWO_64 then LogRing.Window(hist, from, from + t) else []
  }

  /** Printing: the page takes all that was read, or closes at a record, to which the cursor goes back. */
  ghost function PrintRead(w: World): (w': World)
    requires w.Shape() && w.driver.Reading?
    ensures w'.Shape() && |w'.hist| == |w.hist|
  {
    var d, out := w.driver, w.driver.reader.out;
    var t, all := Taken(d), Offered(d);
    OpenTakes(d.items, Tagged(d.cpu, out));
    if Fit(all) == |all| then
      Settle(w, d.cpu, d.base, w.log.cursors[d.cpu], out, MeantBy(w, d, t)).(driver := Entering(d.cpu + 1, all))
    else
      var w1 := WithCursor(w, d.cpu, out[t].seqNum);
      Settle(w1, d.cpu, d.base, out[t].seqNum, out[..t], MeantBy(w, d, t)).(driver := Idle,
                                                                             pages := w.pages + [Page(all)])
  }

  /** The driver's next access. */
  ghost function Going(w: World): (w': World)
    requires w.Shape()
    ensures w'.Shape() && |w'.hist| == |w.hist|
  {
    match w.driver
    case Idle => w.(driver := Entering(0, []))
    case Entering(cpu, items) =>
      if cpu == |w.hist| then w.(driver := Idle, pages := w.pages + [Page(items)]) else Enter(w, cpu, items)
    case Reading(_, _, _, reader, _, _, _) =>
      if reader.Active() then Pass(w) else PrintRead(w)
  }

  /** An append goes to a CPU of the log, and there are fewer than 2^64 of them per CPU. */
  ghost predicate Ready(w: World, step: Step) {
    w.Shape() && (step.Append? ==> step.cpu < |w.hist| && |w.hist[step.cpu]| + 1 < TWO_64)
  }

  ghost function Next(w: World, step: Step): (w': World)
    requires Ready(w, step)
    ensures w'.Shape() && |w'.hist| == |w.hist|
  {
    match step
    case Append(cpu, ev) => w.(log := AfterAdd(w.log, cpu, ev), hist := w.hist[cpu := w.hist[cpu] + [ev]])
    case Go => Going(w)
  }

  /** An open page counts what it has, and something more exactly up to where it closes. */
  lemma OpenTakes(items: seq<Item>, more: seq<Item>)
    requires OpenPage(items)
    ensures var all := items + more;
            && |items| <= Fit(all) <= |all|
            && (Fit(all) == |all| ==> OpenPage(all))
  {
    var all := items + more;
    assert all[..|items|] == items && all[..|all|] == all;
    if Fit(all) < |items| {
      LinesGrow(all, Fit(all) + 1, |items|);
    }
  }

  /** The records on the page in progress. */
  function PageItems(d: Driver): seq<Item> {
    if d.Idle? then [] else d.items
  }

  /** A page that is open counts all it has. */
  lemma OpenCountsAll(items: seq<Item>)
    requires OpenPage(items)
    ensures Fit(items) == |items| && items[..Fit(items)] == items
  {
    OpenTakes(items, []);
    assert items + [] == items;
  }

  // ---- The invariant ----

  /** The first number not settled yet: the cursor, or the one before the look of a read in progress. */
  ghost function From(w: World, i: nat): nat
    requires w.Shape() && i < |w.hist|
  {
    if w.driver.Reading? && w.driver.cpu == i then w.driver.base else w.log.cursors[i]
  }

  /**
   * Counted records are genuine; the records meant, lost and skipped are in order and in front of
   * `from`; lost ones are out of the ring; and every number in front of `from` is on exactly one
   * of the lists of records counted, lost and skipped.
   */
  ghost predicate Accounted(from: nat, hist: seq<Event>, counted: seq<Entry>, meant: seq<Entry>,
                            lost: seq<Entry>, skipped: seq<Entry>)
  {
    && Genuine(counted, hist, |hist|)
    && |meant| == |counted| && Ascending(meant) && Genuine(meant, hist, from)
    && Ascending(lost) && Genuine(lost, hist, Max(0, Min(from, |hist| - LOGS_PER_CPU)))
    && Ascending(skipped) && Genuine(skipped, hist, from)
    && forall k | 0 <= k < from :: OnOne(counted, lost, skipped, k)
  }

  ghost predicate CpuInv(w: World, i: nat)
    requires w.Shape() && i < |w.hist|
  {
    && HoldsTail(w.log.regions[i], w.hist[i], LOGS_PER_CPU)
    && w.log.cursors[i] <= |w.hist[i]| && From(w, i) <= |w.hist[i]|
    && Accounted(From(w, i), w.hist[i], w.counted[i], w.meant[i], w.lost[i], w.skipped[i])
  }

  /** The read in progress, as a reader against a live writer. */
  ghost function ReadOf(w: World): LogReader.Live
    requires w.Shape() && w.driver.Reading?
  {
    var d := w.driver;
    LogReader.Live(w.log.regions[d.cpu], w.hist[d.cpu], d.reader, d.heads)
  }

  ghost predicate DriverInv(w: World)
    requires w.Shape()
  {
    w.driver.Reading? ==>
      var d := w.driver;
      && LogReader.LiveInv(ReadOf(w), d.start, d.count, LOGS_PER_CPU)
      && w.log.cursors[d.cpu] == d.start && d.base <= d.start - d.count
  }

  ghost predicate Inv(w: World) {
    && w.Shape() && DriverInv(w)
    && forall i | 0 <= i < |w.hist| :: CpuInv(w, i)
  }

  lemma StartInv(cpus: nat)
    requires cpus < TWO_32
    ensures Inv(Start(cpus))
  {
    EmptyHoldsNothing(LOGS_PER_CPU);
    var w := Start(cpus);
    forall i | 0 <= i < cpus
      ensures CpuInv(w, i)
    {
      assert w.log.regions[i] == EmptyRegion(LOGS_PER_CPU) && w.log.cursors[i] == 0 && w.hist[i] == [];
      assert w.counted[i] == w.meant[i] == w.lost[i] == w.skipped[i] == [];
    }
  }

  /** A list grows by what is off another list, behind all it holds. */
  lemma {:induction false} OffGrows(s: seq<Entry>, hist: seq<Event>, from: nat, to: nat, list: seq<Entry>)
    requires from <= to <= |hist| < TWO_64
    requires Ascending(s) && Genuine(s, hist, from)
    ensures Ascending(s + Off(hist, from, to, list)) && Genuine(s + Off(hist, from, to, list), hist, to)
    ensures forall k: nat :: Has(s + Off(hist, from, to, list), k) <==> Has(s, k) || (from <= k < to && !Has(list, k))
  {
    if from == to {
      assert s + [] == s;
    } else {
      OffGrows(s, hist, from, to - 1, list);
      OffNext(s + Off(hist, from, to - 1, list), hist, to, list);
      assert s + Off(hist, from, to, list)
          == (s + Off(hist, from, to - 1, list)) + if Has(list, to - 1) then [] else [Record(to - 1, hist[to - 1])];
    }
  }

  lemma OffNext(s: seq<Entry>, hist: seq<Event>, to: nat, list: seq<Entry>)
    requires 0 < to <= |hist| < TWO_64
    requires Ascending(s) && Genuine(s, hist, to - 1)
    ensures var s' := s + if Has(list, to - 1) then [] else [Record(to - 1, hist[to - 1])];
            && Ascending(s') && Genuine(s', hist, to)
            && forall k: nat :: Has(s', k) <==> Has(s, k) || (k == to - 1 && !Has(list, k))
  {
    if Has(list, to - 1) {
      assert s + [] == s;
    } else {
      ListGrows(s, hist, to - 1, to - 1, to);
      assert [Record(to - 1, hist[to - 1])] == Window(hist, to - 1, to);
    }
  }

  /** Records read for numbers from `from` on change no account in front of it. */
  lemma TakenLater(counted: seq<Entry>, taken: seq<Entry>, from: nat)
    requires forall j | 0 <= j < |taken| :: from <= taken[j].seqNum
    ensures forall k | 0 <= k < from :: Has(counted + taken, k) <==> Has(counted, k)
  {
    forall k | 0 <= k < from
      ensures Has(counted + taken, k) <==> Has(counted, k)
    {
      HasConcat(counted, taken, k);
    }
  }

  /** The accounts after a settlement. */
  lemma SettleAccounts(from: nat, to: nat, hist: seq<Event>, counted: seq<Entry>, meant: seq<Entry>,
                       lost: seq<Entry>, skipped: seq<Entry>, taken: seq<Entry>, first: nat)
    requires Accounted(from, hist, counted, meant, lost, skipped)
    requires from <= first && first + |taken| <= to <= |hist| < TWO_64
    requires Genuine(taken, hist, |hist|) && forall j | 0 <= j < |taken| :: from <= taken[j].seqNum
    ensures var counted', held := counted + taken, Held(hist, from, to);
            Accounted(to, hist, counted', meant + Window(hist, first, first + |taken|),
                      lost + Off(hist, from, held, counted'), skipped + Off(hist, held, to, counted'))
  {
    var counted', held := counted + taken, Held(hist, from, to);
    TakenLater(counted, taken, from);
    ListGrows(meant, hist, from, first, first + |taken|);
    OffGrows(lost, hist, from, held, counted');
    OffGrows(skipped, hist, held, to, counted');
    var lost', skipped' := lost + Off(hist, from, held, counted'), skipped + Off(hist, held, to, counted');
    forall k | 0 <= k < to
      ensures OnOne(counted', lost', skipped', k)
    {
      if k < from {
        assert OnOne(counted, lost, skipped, k);
      } else {
        assert !Has(lost, k) && !Has(skipped, k);
      }
    }
    if held == from {
      assert lost' == lost;
    }
  }

  // ---- Every step keeps the invariant ----

  lemma AccountsLonger(from: nat, hist: seq<Event>, ev: Event, counted: seq<Entry>, meant: seq<Entry>,
                       lost: seq<Entry>, skipped: seq<Entry>)
    requires Accounted(from, hist, counted, meant, lost, skipped) && from <= |hist|
    ensures Accounted(from, hist + [ev], counted, meant, lost, skipped)
  {
    GenuineLonger(counted, hist, ev, |hist|, |hist| + 1);
    GenuineLonger(meant, hist, ev, from, from);
    GenuineLonger(skipped, hist, ev, from, from);
    var end, end' := Min(from, |hist| - LOGS_PER_CPU), Min(from, |hist| + 1 - LOGS_PER_CPU);
    GenuineLonger(lost, hist, ev, Max(0, end), Max(0, end'));
  }

  lemma AppendKeepsInv(w: World, cpu: nat, ev: Event)
    requires Inv(w) && Ready(w, Append(cpu, ev))
    ensures Inv(Next(w, Append(cpu, ev)))
  {
    var w' := Next(w, Append(cpu, ev));
    assert CpuInv(w, cpu);
    AddKeepsTail(w.log.regions[cpu], w.hist[cpu], ev, LOGS_PER_CPU);
    AccountsLonger(From(w, cpu), w.hist[cpu], ev, w.counted[cpu], w.meant[cpu], w.lost[cpu], w.skipped[cpu]);
    forall i | 0 <= i < |w.hist|
      ensures CpuInv(w', i)
    {
      assert CpuInv(w, i);
    }
    if w.driver.Reading? {
      ReadKept(w, cpu, ev);
    }
  }

  lemma ReadKept(w: World, cpu: nat, ev: Event)
    requires Inv(w) && Ready(w, Append(cpu, ev)) && w.driver.Reading?
    ensures DriverInv(Next(w, Append(cpu, ev)))
  {
    if cpu == w.driver.cpu {
      LogReader.LiveWriteKeeps(ReadOf(w), w.driver.start, ev, w.driver.count, LOGS_PER_CPU);
    }
  }

  /** Other CPUs do not see a step of the driver on this one. */
  ghost predicate SameElsewhere(w: World, w': World, cpu: nat)
    requires w.Shape() && w'.Shape() && |w'.hist| == |w.hist|
  {
    w'.hist == w.hist && w'.log.regions == w.log.regions
    && forall i | 0 <= i < |w.hist| && i != cpu ::
         && w'.log.cursors[i] == w.log.cursors[i] && From(w', i) == From(w, i)
         && w'.counted[i] == w.counted[i] && w'.meant[i] == w.meant[i]
         && w'.lost[i] == w.lost[i] && w'.skipped[i] == w.skipped[i]
  }

  lemma KeptElsewhere(w: World, w': World, cpu: nat)
    requires Inv(w) && w'.Shape() && |w'.hist| == |w.hist| && cpu < |w.hist|
    requires SameElsewhere(w, w', cpu) && CpuInv(w', cpu)
    ensures forall i | 0 <= i < |w.hist| :: CpuInv(w', i)
  {
    forall i | 0 <= i < |w.hist|
      ensures CpuInv(w', i)
    {
      assert CpuInv(w, i);
    }
  }

  /** The count of a look: as many as are meant lie between the cursor before it and the head. */
  lemma LookCount(head: u64, was: u64)
    requires was <= head
    ensures var n := ToRead(head, was);
            var c := LogReader.ClampCount(AsInt(n), LOGS_PER_CPU);
            && c <= head - was && c <= LOGS_PER_CPU
            && LogReader.StartReader(head, AsInt(n), LOGS_PER_CPU) == LogReader.StartReader(head, c, LOGS_PER_CPU)
            && LogReader.ClampCount(c, LOGS_PER_CPU) == c
  {
    ToReadOf(head, was);
    ClampOfCount(ToRead(head, was));
  }

  lemma EnterKeepsInv(w: World, cpu: nat, items: seq<Item>)
    requires Inv(w) && w.driver == Entering(cpu, items) && cpu < |w.hist|
    ensures Inv(Enter(w, cpu, items))
  {
    assert CpuInv(w, cpu);
    var w', head, was := Enter(w, cpu, items), Head(w.log.regions[cpu]), w.log.cursors[cpu];
    var n := ToRead(head, was);
    LookCount(head, was);
    if n == 0 || head == 0 {
      SettleAccounts(was, head, w.hist[cpu], w.counted[cpu], w.meant[cpu], w.lost[cpu], w.skipped[cpu], [], was);
      assert w.meant[cpu] + [] == w.meant[cpu] + Window(w.hist[cpu], was, was);
      assert CpuInv(w', cpu);
    } else {
      LogReader.LiveStart(w.log.regions[cpu], w.hist[cpu], LogReader.ClampCount(AsInt(n), LOGS_PER_CPU), LOGS_PER_CPU);
      assert CpuInv(w', cpu);
    }
    KeptElsewhere(w, w', cpu);
  }

  lemma PassKeepsInv(w: World)
    requires Inv(w) && w.driver.Reading? && w.driver.reader.Active()
    ensures Inv(Pass(w))
  {
    LogReader.LiveReadKeeps(ReadOf(w), w.driver.start, w.driver.count, LOGS_PER_CPU);
    assert CpuInv(w, w.driver.cpu);
    assert CpuInv(Pass(w), w.driver.cpu);
    KeptElsewhere(w, Pass(w), w.driver.cpu);
  }

  /** When the reader stops, its read is over. */
  lemma StoppedIsOver(w: World)
    requires Inv(w) && w.driver.Reading? && !w.driver.reader.Active()
    ensures ReadOver(ReadOf(w), w.driver.start, w.driver.count)
    ensures |w.driver.reader.out| == w.driver.count <= w.driver.start <= |w.hist[w.driver.cpu]| < TWO_64
  {
  }

  /** What is counted of a read. */
  lemma CountedRead(s: LogReader.Live, h: nat, c: nat, t: nat, base: nat)
    requires ReadOver(s, h, c) && t <= c && base <= h - c
    ensures Genuine(s.reader.out[..t], s.hist, |s.hist|)
    ensures forall j | 0 <= j < t :: base <= s.reader.out[..t][j].seqNum
    ensures base <= h - c + t <= CursorLeft(s, h, t) <= |s.hist| < TWO_64
  {
    forall j | 0 <= j < t
      ensures var e := s.reader.out[j]; base <= e.seqNum < |s.hist| && e == Record(e.seqNum, s.hist[e.seqNum])
    {
      PassRead(s, h, c, j);
    }
    LiveCursor(s, h, c, t);
  }

  /** The accounts when a read is over that counts t records of it. */
  lemma ReadSettles(s: LogReader.Live, h: nat, c: nat, t: nat, base: nat, counted: seq<Entry>, meant: seq<Entry>,
                    lost: seq<Entry>, skipped: seq<Entry>)
    requires ReadOver(s, h, c) && t <= c && base <= h - c
    requires Accounted(base, s.hist, counted, meant, lost, skipped)
    ensures var cursor, counted' := CursorLeft(s, h, t), counted + s.reader.out[..t];
            var held := Held(s.hist, base, cursor);
            && h - c + t <= cursor <= |s.hist| < TWO_64
            && Accounted(cursor, s.hist, counted', meant + Window(s.hist, h - c, h - c + t),
                         lost + Off(s.hist, base, held, counted'), skipped + Off(s.hist, held, cursor, counted'))
  {
    CountedRead(s, h, c, t, base);
    SettleAccounts(base, CursorLeft(s, h, t), s.hist, counted, meant, lost, skipped, s.reader.out[..t], h - c);
  }

  lemma MeantIs(w: World, t: nat)
    requires w.Shape() && w.driver.Reading? && t <= w.driver.count <= w.driver.start
    requires w.driver.start <= |w.hist[w.driver.cpu]| < TWO_64
    ensures MeantBy(w, w.driver, t)
         == Window(w.hist[w.driver.cpu], w.driver.start - w.driver.count, w.driver.start - w.driver.count + t)
  {
  }

  /** The settlement of a read, from what the page takes of it. */
  lemma PrintSettles(w: World, d: Driver, s: LogReader.Live, counted: seq<Entry>)
    requires Inv(w) && w.driver.Reading? && !w.driver.reader.Active() && d == w.driver && s == ReadOf(w)
    requires counted == w.counted[d.cpu] + d.reader.out[..Taken(d)]
    ensures var i, t, cursor := d.cpu, Taken(d), CursorLeft(s, d.start, Taken(d));
            var held := Held(s.hist, d.base, cursor);
            && t <= d.count <= d.start && d.start - d.count + t <= cursor <= |s.hist| < TWO_64
            && Accounted(cursor, s.hist, counted, w.meant[i] + Window(s.hist, d.start - d.count, d.start - d.count + t),
                         w.lost[i] + Off(s.hist, d.base, held, counted),
                         w.skipped[i] + Off(s.hist, held, cursor, counted))
  {
    assert CpuInv(w, d.cpu);
    StoppedIsOver(w);
    ReadSettles(s, d.start, d.count, Taken(d), d.base,
                w.counted[d.cpu], w.meant[d.cpu], w.lost[d.cpu], w.skipped[d.cpu]);
  }

  /** The cursor and the records counted, in both branches of the printing. */
  lemma PrintCases(w: World)
    requires w.Shape() && w.driver.Reading?
    ensures var d := w.driver;
            var t, all := Taken(d), Offered(d);
            && |d.items| + t == Fit(all) && (Fit(all) == |all| <==> t == |d.reader.out|)
            && d.reader.out[..|d.reader.out|] == d.reader.out
  {
    OpenTakes(w.driver.items, Tagged(w.driver.cpu, w.driver.reader.out));
  }

  lemma PrintKeepsInv(w: World)
    requires Inv(w) && w.driver.Reading? && !w.driver.reader.Active()
    ensures Inv(PrintRead(w))
  {
    var d := w.driver;
    PrintSettles(w, d, ReadOf(w), w.counted[d.cpu] + d.reader.out[..Taken(d)]);
    StoppedIsOver(w);
    MeantIs(w, Taken(d));
    PrintCases(w);
    assert CpuInv(w, d.cpu);
    assert CpuInv(PrintRead(w), d.cpu);
    KeptElsewhere(w, PrintRead(w), d.cpu);
  }

  lemma NextKeepsInv(w: World, step: Step)
    requires Inv(w) && Ready(w, step)
    ensures Inv(Next(w, step))
  {
    match step
    case Append(cpu, ev) => AppendKeepsInv(w, cpu, ev);
    case Go =>
      match w.driver
      case Idle => SameBooks(w, Going(w));
      case Entering(cpu, items) =>
        if cpu == |w.hist| {
          SameBooks(w, Going(w));
        } else {
          EnterKeepsInv(w, cpu, items);
        }
      case Reading(_, _, _, reader, _, _, _) =>
        if reader.Active() {
          PassKeepsInv(w);
        } else {
          PrintKeepsInv(w);
        }
  }

  lemma SameBooks(w: World, w': World)
    requires Inv(w) && !w.driver.Reading? && !w'.driver.Reading? && w'.Shape()
    requires w' == w.(driver := w'.driver, pages := w'.pages)
    ensures Inv(w')
  {
    forall i | 0 <= i < |w.hist|
      ensures CpuInv(w', i)
    {
      assert CpuInv(w, i);
    }
  }

  // ---- Runs ----

  ghost predicate Runnable(w: World, steps: seq<Step>)
    decreases |steps|, 0
  {
    if steps == [] then w.Shape()
    else Runnable(w, steps[..|steps| - 1]) && Ready(Run(w, steps[..|steps| - 1]), steps[|steps| - 1])
  }

  ghost function Run(w: World, steps: seq<Step>): (w': World)
    requires Runnable(w, steps)
    decreases |steps|, 1
  {
    if steps == [] then w else Next(Run(w, steps[..|steps| - 1]), steps[|steps| - 1])
  }

  lemma {:induction false} RunKeepsInv(w: World, steps: seq<Step>)
    requires Inv(w) && Runnable(w, steps)
    ensures Inv(Run(w, steps)) && |Run(w, steps).hist| == |w.hist|
  {
    if steps == [] {
    } else {
      RunKeepsInv(w, steps[..|steps| - 1]);
      NextKeepsInv(Run(w, steps[..|steps| - 1]), steps[|steps| - 1]);
    }
  }

  /**
   * Delivery with appends at any moment. After any run, every record counted on a CPU carries what
   * was appended under its number; and every number the cursor has gone past was counted, or
   * overwritten before it was counted, or skipped while the ring held it, exactly one of them.
   */
  lemma LiveDelivery(cpus: nat, steps: seq<Step>, i: nat)
    requires i < cpus < TWO_32 && Runnable(Start(cpus), steps)
    ensures var w := Run(Start(cpus), steps);
            && i < |w.hist| && From(w, i) <= |w.hist[i]| < TWO_64
            && Accounted(From(w, i), w.hist[i], w.counted[i], w.meant[i], w.lost[i], w.skipped[i])
  {
    StartInv(cpus);
    RunKeepsInv(Start(cpus), steps);
    assert CpuInv(Run(Start(cpus), steps), i);
  }

  /** The step counts records of CPU i, and one of the passes that read them was overtaken. */
  ghost predicate CountsOvertaken(w: World, step: Step, i: nat)
    requires w.Shape()
  {
    && step.Go? && w.driver.Reading? && w.driver.cpu == i && !w.driver.reader.Active()
    && w.driver.count <= w.driver.start && Taken(w.driver) <= |w.driver.heads|
    && exists j | 0 <= j < Taken(w.driver) :: Overtaken(ReadOf(w), w.driver.start, w.driver.count, j)
  }

  /** What printing does to the lists of its CPU, to the page and to the other CPUs. */
  lemma PrintEffect(w: World, i: nat)
    requires w.Shape() && w.driver.Reading? && i < |w.hist|
    ensures var d, w' := w.driver, PrintRead(w);
            var t, all := Taken(d), Offered(d);
            && w'.counted[i] == (if i == d.cpu then w.counted[i] + d.reader.out[..t] else w.counted[i])
            && w'.meant[i] == (if i == d.cpu then w.meant[i] + MeantBy(w, d, t) else w.meant[i])
            && (if Fit(all) == |all| then w'.pages == w.pages && PageItems(w'.driver) == all
                else w'.pages == w.pages + [Page(all)] && PageItems(w'.driver) == [])
  {
    PrintCases(w);
  }

  lemma MeantByPrint(w: World)
    requires Inv(w) && w.driver.Reading? && !w.driver.reader.Active()
    ensures var d, t := w.driver, Taken(w.driver);
            && |MeantBy(w, d, t)| == t
            && (d.reader.out[..t] == MeantBy(w, d, t) <==> !CountsOvertaken(w, Go, d.cpu))
  {
    var d := w.driver;
    StoppedIsOver(w);
    LiveCounts(ReadOf(w), d.start, d.count, Taken(d));
  }

  lemma MeantStep(w: World, step: Step, i: nat)
    requires Inv(w) && Ready(w, step) && i < |w.hist|
    ensures Next(w, step).counted[i] == Next(w, step).meant[i]
       <==> w.counted[i] == w.meant[i] && !CountsOvertaken(w, step, i)
  {
    assert CpuInv(w, i);
    if step.Go? && w.driver.Reading? && !w.driver.reader.Active() {
      PrintEffect(w, i);
      MeantByPrint(w);
      SameEnds(w.counted[i], w.meant[i], w.driver.reader.out[..Taken(w.driver)], MeantBy(w, w.driver, Taken(w.driver)));
    } else if step.Go? && w.driver.Entering? && w.driver.cpu < |w.hist| {
      EnterCountsNone(w, w.driver.cpu, w.driver.items, i);
    }
  }

  lemma EnterCountsNone(w: World, cpu: nat, items: seq<Item>, i: nat)
    requires w.Shape() && cpu < |w.hist| && OpenPage(items) && i < |w.hist|
    ensures Enter(w, cpu, items).counted[i] == w.counted[i] && Enter(w, cpu, items).meant[i] == w.meant[i]
    ensures Enter(w, cpu, items).pages == w.pages && PageItems(Enter(w, cpu, items).driver) == items
  {
    assert w.counted[i] + [] == w.counted[i] && w.meant[i] + [] == w.meant[i];
  }

  lemma SameEnds(a: seq<Entry>, b: seq<Entry>, a': seq<Entry>, b': seq<Entry>)
    requires |a| == |b|
    ensures a + a' == b + b' <==> a == b && a' == b'
  {
    if a + a' == b + b' {
      assert a == (a + a')[..|a|] && b == (b + b')[..|b|];
      assert a' == (a + a')[|a|..] && b' == (b + b')[|b|..];
    }
  }

  ghost predicate NeverOvertaken(w: World, steps: seq<Step>, i: nat)
    requires Runnable(w, steps)
    decreases |steps|
  {
    if steps == [] then true
    else
      var front := steps[..|steps| - 1];
      NeverOvertaken(w, front, i) && !CountsOvertaken(Run(w, front), steps[|steps| - 1], i)
  }

  /**
   * Exactly when a run counts what it means to: the records counted on a CPU are those meant, so
   * strictly ascending, none twice and all in front of the cursor, if and only if no counted pass
   * was ever overtaken by the writer.
   */
  lemma {:induction false} CountedAsMeant(cpus: nat, steps: seq<Step>, i: nat)
    requires i < cpus < TWO_32 && Runnable(Start(cpus), steps)
    ensures var w := Run(Start(cpus), steps);
            && i < |w.hist| && Ascending(w.meant[i]) && Genuine(w.meant[i], w.hist[i], From(w, i))
            && (w.counted[i] == w.meant[i] <==> NeverOvertaken(Start(cpus), steps, i))
  {
    StartInv(cpus);
    RunKeepsInv(Start(cpus), steps);
    assert CpuInv(Run(Start(cpus), steps), i);
    if steps == [] {
    } else {
      var front := steps[..|steps| - 1];
      RunKeepsInv(Start(cpus), front);
      CountedAsMeant(cpus, front, i);
      MeantStep(Run(Start(cpus), front), steps[|steps| - 1], i);
    }
  }
}
