/**
 * The ring reader of the driver as a step machine: one step per pass of its loop.
 * Run alone it returns an exact window of the history; run against a live writer
 * it returns, for every number it meant to read, the newest record of that slot.
 */
module LogReader {
  import opened Words
  import opened LogRing

  /** The reader's loop variables; `broke` records that the loop was left by its `break`. */
  datatype Reader = Reader(index: nat, count: nat, broke: bool, out: seq<Entry>) {
    predicate Active() {
      count != 0 && !broke
    }
  }

  /**
   * The clamp of the requested count. The parameter is a C int compared with an unsigned
   * long, so every negative count, not only -1, reads as larger than the ring.
   */
  function ClampCount(count: int, n: nat): (c: nat)
    ensures c <= n
    ensures 0 <= count ==> c == Min(count, n)
  {
    if count < 0 || count > n then n else count
  }

  function StartReader(start: nat, count: int, n: nat): Reader
    requires 0 < n
  {
    var c := ClampCount(count, n);
    var index := SeqToIndex(start, n);
    Reader(if index <= c then n - (c - index) else index - c, c, false, [])
  }

  function StepReader(region: seq<Entry>, start: nat, r: Reader, n: nat): Reader
    requires 0 < n && |region| == n + 1
    requires r.Active() && r.index <= n
  {
    var entry := region[r.index];
    var out := if entry.valid != 0 then r.out + [entry] else r.out;
    var index := if r.index >= n then 1 else r.index + 1;
    if index == SeqToIndex(start, n) then
      Reader(index, r.count, true, out)
    else
      Reader(index, r.count - 1, false, out)
  }

  function RunReader(region: seq<Entry>, start: nat, r: Reader, n: nat): Reader
    requires 0 < n && |region| == n + 1 && r.index <= n
    decreases if r.broke then 0 else r.count + 1
  {
    if r.Active() then RunReader(region, start, StepReader(region, start, r, n), n) else r
  }

  /** Everything `read_logs` returns from a region nobody writes meanwhile. */
  function ReadLogs(region: seq<Entry>, start: nat, count: int, n: nat): seq<Entry>
    requires 0 < n && |region| == n + 1
  {
    RunReader(region, start, StartReader(start, count, n), n).out
  }

  /** The reader stands c numbers before its start, modulo the ring, in both wrap branches. */
  lemma StartIndex(start: nat, count: int, n: nat)
    requires 0 < n
    ensures StartReader(start, count, n).index == SeqToIndex(start - ClampCount(count, n), n)
  {
    var c := ClampCount(count, n);
    var q := start / n;
    assert start == q * n + start % n;
    if start % n < c {
      assert start - c == (q - 1) * n + (start % n + n - c);
      ModUnique(start - c, q - 1, start % n + n - c, n);
    } else {
      ModUnique(start - c, q, start % n - c, n);
    }
  }

  /** One pass at the slot of number k: what it collects, where it goes and whether it leaves. */
  lemma StepAt(region: seq<Entry>, hist: seq<Event>, k: int, r: Reader, n: nat)
    requires HoldsTail(region, hist, n)
    requires |hist| - n <= k < |hist|
    requires r.index == SeqToIndex(k, n) && r.count == |hist| - k && !r.broke
    ensures var r' := StepReader(region, |hist|, r, n);
            && r'.out == r.out + (if k < 0 then [] else [Record(k, hist[k])])
            && r'.broke == (k + 1 == |hist|)
            && r'.index == SeqToIndex(k + 1, n)
            && (!r'.broke ==> r'.count == |hist| - (k + 1))
  {
    if k < 0 {
      ModUnique(k, -1, k + n, n);
    }
    ModSucc(k, n);
    ModInjective(k + 1, |hist|, n);
  }

  /**
   * From the slot of number k the loop makes exactly start - k passes, leaves by `break`,
   * and collects the records from k on, skipping the numbers below zero.
   */
  lemma {:induction false} RunFrom(region: seq<Entry>, hist: seq<Event>, k: int, r: Reader, n: nat)
    requires HoldsTail(region, hist, n)
    requires |hist| - n <= k < |hist|
    requires r.index == SeqToIndex(k, n) && r.count == |hist| - k && !r.broke
    ensures RunReader(region, |hist|, r, n).out == r.out + Window(hist, Max(k, 0), |hist|)
    ensures RunReader(region, |hist|, r, n).broke
    decreases |hist| - k
  {
    var h := |hist|;
    var r' := StepReader(region, h, r, n);
    StepAt(region, hist, k, r, n);
    if k + 1 == h {
    } else {
      RunFrom(region, hist, k + 1, r', n);
    }
    if k >= 0 {
      assert Window(hist, k, h) == [Record(k, hist[k])] + Window(hist, k + 1, h);
    }
  }

  /**
   * Exact window: with head h, any count reads exactly the last min(count, n, h) records,
   * in ascending order. The loop is left by its `break`, except when nothing was asked for.
   */
  lemma ExactWindow(region: seq<Entry>, hist: seq<Event>, count: int, n: nat)
    requires HoldsTail(region, hist, n)
    ensures ReadLogs(region, |hist|, count, n)
         == Window(hist, Max(|hist| - ClampCount(count, n), 0), |hist|)
    ensures RunReader(region, |hist|, StartReader(|hist|, count, n), n).broke <==> count != 0
  {
    StartIndex(|hist|, count, n);
    if ClampCount(count, n) != 0 {
      RunFrom(region, hist, |hist| - ClampCount(count, n), StartReader(|hist|, count, n), n);
    }
  }

  // ---- The reader against a live writer ----

  /** One action of either party; an append is one action, as is one pass of the reader's loop. */
  datatype Act = Write(ev: Event) | Read

  /** `heads` is the head of the ring at each pass the reader has made. */
  datatype Live = Live(region: seq<Entry>, hist: seq<Event>, reader: Reader, heads: seq<nat>)

  ghost predicate LiveShape(s: Live, n: nat) {
    0 < n && |s.region| == n + 1 && s.reader.index <= n
  }

  function Writes(acts: seq<Act>): nat {
    if acts == [] then 0 else Writes(acts[..|acts| - 1]) + if acts[|acts| - 1].Write? then 1 else 0
  }

  ghost function LiveStep(s: Live, start: nat, act: Act, n: nat): (s': Live)
    requires LiveShape(s, n)
    ensures LiveShape(s', n)
  {
    match act
    case Write(ev) => s.(region := AddRecord(s.region, ev, n), hist := s.hist + [ev])
    case Read =>
      if s.reader.Active() then
        s.(reader := StepReader(s.region, start, s.reader, n), heads := s.heads + [Head(s.region)])
      else s
  }

  ghost function LiveRun(s: Live, start: nat, acts: seq<Act>, n: nat): (s': Live)
    requires LiveShape(s, n)
    ensures LiveShape(s', n)
  {
    if acts == [] then s
    else LiveStep(LiveRun(s, start, acts[..|acts| - 1], n), start, acts[|acts| - 1], n)
  }

  /**
   * `e` is the newest record of k's slot at a moment when the head was `head`: a record of k's
   * residue, no older than k, with what was appended under its own number; and it is record k
   * itself exactly when the slot had not been taken over by then.
   */
  ghost predicate NewestOfSlot(e: Entry, k: nat, head: nat, hist: seq<Event>, n: nat)
    requires 0 < n
  {
    && k <= e.seqNum < head <= |hist|
    && head <= e.seqNum + n
    && e.seqNum % n == k % n
    && e == Record(e.seqNum, hist[e.seqNum])
    && (e.seqNum == k <==> head <= k + n)
  }

  /** The largest number of k's residue below the head. */
  lemma NewestNumber(k: nat, head: nat, n: nat) returns (q: nat)
    requires 0 < n && k < head
    ensures k <= q < head <= q + n && q % n == k % n
    ensures q == k <==> head <= k + n
  {
    var x := head - 1 - k;
    var laps := x / n;
    q := k + laps * n;
    assert x == laps * n + x % n;
    ModAdd(k, laps, n);
    SmallMultiple(laps, n);
  }

  /** The number of the newest record of k's slot when the head is `head`. */
  function NewestOf(k: nat, head: nat, n: nat): nat
    requires 0 < n && k < head
  {
    k + (head - 1 - k) / n * n
  }

  /** That a record is the newest of a slot says which record it is. */
  lemma NewestIsRecord(e: Entry, k: nat, head: nat, hist: seq<Event>, n: nat)
    requires 0 < n && NewestOfSlot(e, k, head, hist, n)
    ensures e.seqNum == NewestOf(k, head, n) < |hist| && e == Record(e.seqNum, hist[e.seqNum])
  {
    var laps := (head - 1 - k) / n;
    assert head - 1 - k == laps * n + (head - 1 - k) % n;
    ModAdd(k, laps, n);
    ModInjective(e.seqNum, k + laps * n, n);
  }

  lemma SlotOfNumber(region: seq<Entry>, hist: seq<Event>, k: nat, n: nat)
    requires HoldsTail(region, hist, n) && k < |hist|
    ensures NewestOfSlot(region[SeqToIndex(k, n)], k, |hist|, hist, n)
  {
    var q := NewestNumber(k, |hist|, n);
    assert region[SeqToIndex(q, n)] == Record(q, hist[q]);
  }

  ghost predicate LiveInv(s: Live, start: nat, c: nat, n: nat) {
    && LiveShape(s, n)
    && HoldsTail(s.region, s.hist, n)
    && c <= start <= |s.hist| && c <= n
    && |s.heads| == |s.reader.out| <= c
    && var done := |s.heads|;
    && (if done < c then
          s.reader.index == SeqToIndex(start - c + done, n) && s.reader.count == c - done && !s.reader.broke
        else !s.reader.Active())
    && (forall i | 0 <= i < done :: NewestOfSlot(s.reader.out[i], start - c + i, s.heads[i], s.hist, n))
  }

  lemma LiveStart(region: seq<Entry>, hist: seq<Event>, count: nat, n: nat)
    requires HoldsTail(region, hist, n) && ClampCount(count, n) <= |hist|
    ensures LiveInv(Live(region, hist, StartReader(|hist|, count, n), []), |hist|, ClampCount(count, n), n)
  {
    StartIndex(|hist|, count, n);
  }

  lemma LiveWriteKeeps(s: Live, start: nat, ev: Event, c: nat, n: nat)
    requires LiveInv(s, start, c, n) && |s.hist| + 1 < TWO_64
    ensures LiveInv(LiveStep(s, start, Write(ev), n), start, c, n)
  {
    AddKeepsTail(s.region, s.hist, ev, n);
  }

  lemma LiveReadKeeps(s: Live, start: nat, c: nat, n: nat)
    requires LiveInv(s, start, c, n)
    ensures LiveInv(LiveStep(s, start, Read, n), start, c, n)
  {
    var done := |s.heads|;
    if done < c {
      var k := start - c + done;
      SlotOfNumber(s.region, s.hist, k, n);
      ModSucc(k, n);
      ModInjective(k + 1, start, n);
    }
  }

  lemma {:induction false} LiveRunKeeps(s: Live, start: nat, acts: seq<Act>, c: nat, n: nat)
    requires LiveInv(s, start, c, n)
    requires |s.hist| + Writes(acts) < TWO_64
    ensures LiveInv(LiveRun(s, start, acts, n), start, c, n)
    ensures |LiveRun(s, start, acts, n).hist| == |s.hist| + Writes(acts)
  {
    if acts == [] {
    } else {
      var front := acts[..|acts| - 1];
      LiveRunKeeps(s, start, front, c, n);
      match acts[|acts| - 1]
      case Write(ev) => LiveWriteKeeps(LiveRun(s, start, front, n), start, ev, c, n);
      case Read => LiveReadKeeps(LiveRun(s, start, front, n), start, c, n);
    }
  }

  lemma {:induction false} LiveRunSays(s: Live, start: nat, acts: seq<Act>, c: nat, n: nat)
    requires LiveInv(s, start, c, n)
    requires |s.hist| + Writes(acts) < TWO_64
    ensures var s' := LiveRun(s, start, acts, n);
            && |s'.heads| == |s'.reader.out| <= c
            && (s'.reader.Active() <==> |s'.reader.out| < c)
            && forall i | 0 <= i < |s'.reader.out| ::
                 NewestOfSlot(s'.reader.out[i], start - c + i, s'.heads[i], s'.hist, n)
  {
    LiveRunKeeps(s, start, acts, c, n);
  }

  /**
   * Reader against a live writer. The reader starts at the head it saw and asks for at most
   * that many records; appends may fall between any two of its passes. Each pass returns the
   * newest record of the slot it reads: for the i-th number it meant to read, that very record
   * exactly when the head had not passed it by a whole ring at that moment.
   */
  lemma {:induction false} ReaderAgainstWriter(region: seq<Entry>, hist: seq<Event>, count: nat, acts: seq<Act>, n: nat)
    requires HoldsTail(region, hist, n)
    requires ClampCount(count, n) <= |hist|
    requires |hist| + Writes(acts) < TWO_64
    ensures var c := ClampCount(count, n);
            var s := LiveRun(Live(region, hist, StartReader(|hist|, count, n), []), |hist|, acts, n);
            && |s.heads| == |s.reader.out| <= c
            && (s.reader.Active() <==> |s.reader.out| < c)
            && forall i | 0 <= i < |s.reader.out| ::
                 NewestOfSlot(s.reader.out[i], |hist| - c + i, s.heads[i], s.hist, n)
  {
    var c, reader := ClampCount(count, n), StartReader(|hist|, count, n);
    LiveStart(region, hist, count, n);
    LiveRunSays(Live(region, hist, reader, []), |hist|, acts, c, n);
  }
}
