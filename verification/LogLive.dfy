/**
 * One dump while records are appended: what its reader returns, what counts, which cursor it
 * leaves, and what becomes of every record the ring still holds.
 */
module LogLive {
  import opened Words
  import opened LogRing
  import opened LogReader
  import opened LogDump

  /**
   * The read of a dump is over: it started at head h and meant the c numbers in front of it;
   * pass j read the slot of number h - c + j when the head was s.heads[j].
   */
  ghost predicate ReadOver(s: Live, h: nat, c: nat) {
    LiveInv(s, h, c, LOGS_PER_CPU) && |s.heads| == c
  }

  /** The read with appends between its passes, from the head it saw to its end. */
  lemma ReadEnds(region: seq<Entry>, hist: seq<Event>, count: nat, acts: seq<Act>)
    requires HoldsTail(region, hist, LOGS_PER_CPU) && ClampCount(count, LOGS_PER_CPU) <= |hist|
    requires |hist| + Writes(acts) < TWO_64
    ensures var live := Live(region, hist, StartReader(|hist|, count, LOGS_PER_CPU), []);
            var s := LiveRun(live, |hist|, acts, LOGS_PER_CPU);
            && (!s.reader.Active() <==> ReadOver(s, |hist|, ClampCount(count, LOGS_PER_CPU)))
            && |hist| <= |s.hist| == |hist| + Writes(acts)
  {
    LiveStart(region, hist, count, LOGS_PER_CPU);
    LiveRunKeeps(Live(region, hist, StartReader(|hist|, count, LOGS_PER_CPU), []), |hist|, acts,
                 ClampCount(count, LOGS_PER_CPU), LOGS_PER_CPU);
  }

  /** Pass j was overtaken: the head was more than a ring ahead of the number it meant. */
  ghost predicate Overtaken(s: Live, h: nat, c: nat, j: nat)
    requires c <= h && j < |s.heads|
  {
    s.heads[j] > h - c + j + LOGS_PER_CPU
  }

  /**
   * The cursor a dump leaves that counts the first t of the records read: the head it saw, or
   * the number of the record that closed the page, whatever number that pass had meant.
   */
  ghost function CursorLeft(s: Live, h: nat, t: nat): nat {
    if t < |s.reader.out| then s.reader.out[t].seqNum else h
  }

  /** What pass j read, in numbers. */
  lemma PassRead(s: Live, h: nat, c: nat, j: nat)
    requires ReadOver(s, h, c) && j < c
    ensures h - c + j < s.heads[j] <= |s.hist| < TWO_64
    ensures s.reader.out[j].seqNum == NewestOf(h - c + j, s.heads[j], LOGS_PER_CPU) < |s.hist|
    ensures s.reader.out[j] == Record(s.reader.out[j].seqNum, s.hist[s.reader.out[j].seqNum])
    ensures h - c + j <= s.reader.out[j].seqNum < s.heads[j] <= s.reader.out[j].seqNum + LOGS_PER_CPU
    ensures s.reader.out[j].seqNum == h - c + j <==> !Overtaken(s, h, c, j)
    ensures Overtaken(s, h, c, j) ==> h - c + j + LOGS_PER_CPU <= s.reader.out[j].seqNum
  {
    var e, k := s.reader.out[j], h - c + j;
    assert NewestOfSlot(e, k, s.heads[j], s.hist, LOGS_PER_CPU);
    NewestIsRecord(e, k, s.heads[j], s.hist, LOGS_PER_CPU);
    if e.seqNum > k {
      LapsAhead(e.seqNum, k, LOGS_PER_CPU);
    }
  }

  lemma LapsAhead(q: nat, k: nat, n: nat)
    requires 0 < n && q % n == k % n && k < q
    ensures k + n <= q
  {
    if q < k + n {
      ModInjective(q, k, n);
    }
  }

  /** A record in memory is due from a cursor on exactly by its number. */
  lemma InDue(hist: seq<Event>, cursor: nat, q: nat)
    requires cursor <= |hist| < TWO_64 && q < |hist|
    ensures Record(q, hist[q]) in Due(hist, cursor) <==> cursor <= q && |hist| - LOGS_PER_CPU <= q
  {
    var due, from := Due(hist, cursor), Max(cursor, |hist| - LOGS_PER_CPU);
    if from <= q {
      assert due[q - from] == Record(q, hist[q]);
    }
  }

  /**
   * The cursor of a live dump: it is the number the closing pass meant, or the head if nothing
   * closed the page, if and only if the closing pass was not overtaken; else it is past the head.
   */
  lemma LiveCursor(s: Live, h: nat, c: nat, t: nat)
    requires ReadOver(s, h, c) && t <= c
    ensures h - c + t <= CursorLeft(s, h, t) <= |s.hist| < TWO_64
    ensures CursorLeft(s, h, t) == h - c + t <==> t == c || !Overtaken(s, h, c, t)
    ensures CursorLeft(s, h, t) > h - c + t ==> CursorLeft(s, h, t) >= h + t
  {
    if t < c {
      PassRead(s, h, c, t);
    }
  }

  /** The records a live dump counts are those it meant, if and only if no pass it counts was overtaken. */
  lemma LiveCounts(s: Live, h: nat, c: nat, t: nat)
    requires ReadOver(s, h, c) && t <= c
    ensures s.reader.out[..t] == Window(s.hist, h - c, h - c + t)
       <==> forall j | 0 <= j < t :: !Overtaken(s, h, c, j)
  {
    var out := s.reader.out;
    forall j | 0 <= j < t
      ensures out[j] == Record(h - c + j, s.hist[h - c + j]) <==> !Overtaken(s, h, c, j)
    {
      PassRead(s, h, c, j);
    }
    WindowExactly(out[..t], s.hist, h - c, h - c + t);
  }

  lemma WindowExactly(out: seq<Entry>, hist: seq<Event>, from: nat, to: nat)
    requires from <= to <= |hist| < TWO_64 && |out| == to - from
    ensures out == Window(hist, from, to) <==> forall i | 0 <= i < |out| :: out[i] == Record(from + i, hist[from + i])
  {
  }

  /** Pass j met number k: it came to the slot of k when k had been appended, and not a ring ago. */
  ghost predicate Meets(s: Live, h: nat, c: nat, j: nat, k: nat)
    requires c <= h && j < |s.heads|
  {
    (h - c + j) % LOGS_PER_CPU == k % LOGS_PER_CPU && k < s.heads[j] <= k + LOGS_PER_CPU
  }

  /** A pass reads the number it meets and no other. */
  lemma MetIsRead(s: Live, h: nat, c: nat, j: nat, k: nat)
    requires ReadOver(s, h, c) && j < c
    ensures s.reader.out[j].seqNum == k <==> Meets(s, h, c, j, k)
  {
    var e := s.reader.out[j];
    assert NewestOfSlot(e, h - c + j, s.heads[j], s.hist, LOGS_PER_CPU);
    if Meets(s, h, c, j, k) {
      ModInjective(e.seqNum, k, LOGS_PER_CPU);
    }
  }

  /** One of the first t passes met number k. */
  ghost predicate MetBy(s: Live, h: nat, c: nat, t: nat, k: nat)
    requires c <= h && t <= |s.heads|
  {
    exists j | 0 <= j < t :: Meets(s, h, c, j, k)
  }

  /**
   * The fate of a record that the ring still holds when a live dump is over, from the first
   * number the dump meant on: it is counted if and only if a counted pass met it, and due to the
   * next dump if and only if it is not in front of the cursor left. Counted and due, it is
   * counted again; neither, it is skipped.
   */
  lemma LiveFate(s: Live, h: nat, c: nat, t: nat, q: nat)
    requires ReadOver(s, h, c) && t <= c
    requires h - c <= q < |s.hist| && |s.hist| - LOGS_PER_CPU <= q
    ensures CursorLeft(s, h, t) <= |s.hist| < TWO_64
    ensures Record(q, s.hist[q]) in s.reader.out[..t] <==> MetBy(s, h, c, t, q)
    ensures Record(q, s.hist[q]) in Due(s.hist, CursorLeft(s, h, t)) <==> CursorLeft(s, h, t) <= q
  {
    LiveCursor(s, h, c, t);
    InDue(s.hist, CursorLeft(s, h, t), q);
    forall j | 0 <= j < t
      ensures s.reader.out[j] == Record(q, s.hist[q]) <==> Meets(s, h, c, j, q)
    {
      PassRead(s, h, c, j);
      MetIsRead(s, h, c, j, q);
    }
    if j :| 0 <= j < t && Meets(s, h, c, j, q) {
      assert s.reader.out[..t][j] == Record(q, s.hist[q]);
    }
  }

  /** A live dump whose closing pass was not overtaken skips nothing that the ring still holds. */
  lemma NothingSkipped(s: Live, h: nat, c: nat, t: nat, q: nat)
    requires ReadOver(s, h, c) && t <= c
    requires h - c <= q < |s.hist| && |s.hist| - LOGS_PER_CPU <= q
    requires t == c || !Overtaken(s, h, c, t)
    ensures q < CursorLeft(s, h, t) ==> Record(q, s.hist[q]) in s.reader.out[..t]
  {
    LiveCursor(s, h, c, t);
    LiveFate(s, h, c, t, q);
    if q < h - c + t {
      PassRead(s, h, c, q - (h - c));
      assert Meets(s, h, c, q - (h - c), q);
    }
  }

  // ---- Inputs ----

  ghost function Reads(n: nat): (acts: seq<Act>)
    ensures |acts| == n
  {
    seq(n, _ => Read)
  }

  lemma {:induction false} LiveRunConcat(s: Live, start: nat, a: seq<Act>, b: seq<Act>, n: nat)
    requires LiveShape(s, n)
    ensures LiveRun(s, start, a + b, n) == LiveRun(LiveRun(s, start, a, n), start, b, n)
  {
    if b == [] {
      assert a + b == a;
    } else {
      LiveRunConcat(s, start, a, b[..|b| - 1], n);
      assert (a + b)[..|a + b| - 1] == a + b[..|b| - 1];
    }
  }

  lemma OneAct(s: Live, start: nat, act: Act, n: nat)
    requires LiveShape(s, n)
    ensures LiveRun(s, start, [act], n) == LiveStep(s, start, act, n)
  {
    assert [act][..0] == [];
  }

  /** Passes without an append between them see the same head. */
  lemma {:induction false} QuietPasses(s: Live, h: nat, c: nat, m: nat)
    requires LiveInv(s, h, c, LOGS_PER_CPU) && |s.heads| + m <= c
    ensures var s' := LiveRun(s, h, Reads(m), LOGS_PER_CPU);
            && LiveInv(s', h, c, LOGS_PER_CPU) && s'.hist == s.hist
            && s'.heads == s.heads + seq(m, _ => |s.hist|)
  {
    if m == 0 {
      assert Reads(0) == [];
    } else {
      QuietPasses(s, h, c, m - 1);
      assert Reads(m)[..m - 1] == Reads(m - 1);
      LiveReadKeeps(LiveRun(s, h, Reads(m - 1), LOGS_PER_CPU), h, c, LOGS_PER_CPU);
    }
  }

  /** A dump at the start of the read of a whole ring. */
  ghost function WholeRing(region: seq<Entry>, hist: seq<Event>): Live {
    Live(region, hist, StartReader(|hist|, LOGS_PER_CPU, LOGS_PER_CPU), [])
  }

  /** One append before the first pass of 203, none later. */
  lemma AppendThenRead(region: seq<Entry>, hist: seq<Event>, ev: Event)
    requires HoldsTail(region, hist, LOGS_PER_CPU) && LOGS_PER_CPU <= |hist| && |hist| + 1 < TWO_64
    ensures var s := LiveRun(WholeRing(region, hist), |hist|, [Write(ev)] + Reads(203), LOGS_PER_CPU);
            ReadOver(s, |hist|, LOGS_PER_CPU) && s.hist == hist + [ev] && s.heads[0] == |hist| + 1
  {
    LiveStart(region, hist, LOGS_PER_CPU, LOGS_PER_CPU);
    AppendAndRest(WholeRing(region, hist), |hist|, ev, 203);
  }

  /** A first pass that sees one append returns it. */
  lemma FirstPassOvertaken(s: Live, h: nat, hist: seq<Event>, ev: Event)
    requires ReadOver(s, h, LOGS_PER_CPU) && |hist| == h && s.hist == hist + [ev] && s.heads[0] == h + 1
    ensures Record(h, ev) in s.reader.out && Record(h, ev) in Due(s.hist, h)
  {
    PassRead(s, h, LOGS_PER_CPU, 0);
    assert NewestOf(h - LOGS_PER_CPU, h + 1, LOGS_PER_CPU) == h;
    assert s.reader.out[0] == Record(h, ev);
    InDue(s.hist, h, h);
  }

  /** An input: the first pass returns the record just appended; it is counted, and due again. */
  lemma OneAppendOvertakes(region: seq<Entry>, hist: seq<Event>, ev: Event)
    requires HoldsTail(region, hist, LOGS_PER_CPU) && LOGS_PER_CPU <= |hist| && |hist| + 1 < TWO_64
    ensures var h, s := |hist|, LiveRun(WholeRing(region, hist), |hist|, [Write(ev)] + Reads(203), LOGS_PER_CPU);
            && ReadOver(s, h, LOGS_PER_CPU) && s.hist == hist + [ev] && CursorLeft(s, h, LOGS_PER_CPU) == h
            && Record(h, ev) in s.reader.out && Record(h, ev) in Due(s.hist, h)
  {
    AppendThenRead(region, hist, ev);
    var s := LiveRun(WholeRing(region, hist), |hist|, [Write(ev)] + Reads(203), LOGS_PER_CPU);
    FirstPassOvertaken(s, |hist|, hist, ev);
  }

  /** Two appends behind the first pass of 203, none later. */
  ghost function LateAppends(e1: Event, e2: Event): seq<Act> {
    Reads(1) + ([Write(e1)] + ([Write(e2)] + Reads(202)))
  }

  lemma ThenAppend(s: Live, h: nat, ev: Event, rest: seq<Act>)
    requires LiveInv(s, h, LOGS_PER_CPU, LOGS_PER_CPU) && |s.hist| + 1 < TWO_64
    ensures var s' := LiveStep(s, h, Write(ev), LOGS_PER_CPU);
            && LiveInv(s', h, LOGS_PER_CPU, LOGS_PER_CPU) && s'.hist == s.hist + [ev] && s'.heads == s.heads
            && LiveRun(s, h, [Write(ev)] + rest, LOGS_PER_CPU) == LiveRun(s', h, rest, LOGS_PER_CPU)
  {
    LiveRunConcat(s, h, [Write(ev)], rest, LOGS_PER_CPU);
    OneAct(s, h, Write(ev), LOGS_PER_CPU);
    LiveWriteKeeps(s, h, ev, LOGS_PER_CPU, LOGS_PER_CPU);
  }

  /** The rest of a read of 203 passes behind one append. */
  lemma AppendAndRest(s: Live, h: nat, ev: Event, m: nat)
    requires LiveInv(s, h, LOGS_PER_CPU, LOGS_PER_CPU) && |s.hist| + 1 < TWO_64
    requires |s.heads| + m == LOGS_PER_CPU
    ensures var s' := LiveRun(s, h, [Write(ev)] + Reads(m), LOGS_PER_CPU);
            && ReadOver(s', h, LOGS_PER_CPU) && s'.hist == s.hist + [ev]
            && s'.heads == s.heads + seq(m, _ => |s.hist| + 1)
  {
    ThenAppend(s, h, ev, Reads(m));
    QuietPasses(LiveStep(s, h, Write(ev), LOGS_PER_CPU), h, LOGS_PER_CPU, m);
  }

  /** The same behind two appends, when one pass has been made. */
  lemma TwoAppendsAndRest(s: Live, h: nat, e1: Event, e2: Event)
    requires LiveInv(s, h, LOGS_PER_CPU, LOGS_PER_CPU) && |s.hist| + 2 < TWO_64 && |s.heads| == 1
    ensures var s' := LiveRun(s, h, [Write(e1)] + ([Write(e2)] + Reads(202)), LOGS_PER_CPU);
            && ReadOver(s', h, LOGS_PER_CPU) && s'.hist == s.hist + [e1] + [e2]
            && s'.heads == s.heads + seq(202, _ => |s.hist| + 2)
  {
    ThenAppend(s, h, e1, [Write(e2)] + Reads(202));
    var s1 := LiveStep(s, h, Write(e1), LOGS_PER_CPU);
    assert |s1.heads| == 1 && |s1.hist| == |s.hist| + 1;
    AppendAndRest(s1, h, e2, 202);
  }

  lemma ReadAppendRead(region: seq<Entry>, hist: seq<Event>, e1: Event, e2: Event)
    requires HoldsTail(region, hist, LOGS_PER_CPU) && LOGS_PER_CPU <= |hist| && |hist| + 2 < TWO_64
    ensures var s := LiveRun(WholeRing(region, hist), |hist|, LateAppends(e1, e2), LOGS_PER_CPU);
            && ReadOver(s, |hist|, LOGS_PER_CPU) && s.hist == hist + [e1] + [e2]
            && s.heads[0] == |hist| && s.heads[1] == |hist| + 2
  {
    var h, live := |hist|, WholeRing(region, hist);
    LiveStart(region, hist, LOGS_PER_CPU, LOGS_PER_CPU);
    QuietPasses(live, h, LOGS_PER_CPU, 1);
    LiveRunConcat(live, h, Reads(1), [Write(e1)] + ([Write(e2)] + Reads(202)), LOGS_PER_CPU);
    TwoAppendsAndRest(LiveRun(live, h, Reads(1), LOGS_PER_CPU), h, e1, e2);
  }

  lemma SecondPassCloses(s: Live, h: nat, hist: seq<Event>, e1: Event, e2: Event)
    requires ReadOver(s, h, LOGS_PER_CPU) && |hist| == h && s.hist == hist + [e1] + [e2]
    requires s.heads[0] == h && s.heads[1] == h + 2
    ensures CursorLeft(s, h, 1) == h + 1
    ensures Record(h, e1) in Due(s.hist, h) && Record(h, e1) !in s.reader.out[..1]
    ensures Record(h, e1) !in Due(s.hist, h + 1)
  {
    PassRead(s, h, LOGS_PER_CPU, 0);
    PassRead(s, h, LOGS_PER_CPU, 1);
    assert NewestOf(h - LOGS_PER_CPU + 1, h + 2, LOGS_PER_CPU) == h + 1;
    assert s.hist[h] == e1;
    InDue(s.hist, h, h);
    InDue(s.hist, h + 1, h);
    assert s.reader.out[0].seqNum < h;
  }

  /**
   * An input: two appends behind the first pass, and the page closes at the second. The cursor
   * goes past the record appended first, which the ring holds, no dump has counted and none will.
   */
  lemma ClosingPassSkips(region: seq<Entry>, hist: seq<Event>, e1: Event, e2: Event)
    requires HoldsTail(region, hist, LOGS_PER_CPU) && LOGS_PER_CPU <= |hist| && |hist| + 2 < TWO_64
    ensures var h, s := |hist|, LiveRun(WholeRing(region, hist), |hist|, LateAppends(e1, e2), LOGS_PER_CPU);
            && ReadOver(s, h, LOGS_PER_CPU) && s.hist == hist + [e1] + [e2] && CursorLeft(s, h, 1) == h + 1
            && Record(h, e1) in Due(s.hist, h) && Record(h, e1) !in s.reader.out[..1]
            && Record(h, e1) !in Due(s.hist, h + 1)
  {
    ReadAppendRead(region, hist, e1, e2);
    SecondPassCloses(LiveRun(WholeRing(region, hist), |hist|, LateAppends(e1, e2), LOGS_PER_CPU), |hist|, hist, e1, e2);
  }
}
