/** A run whose last record ends exactly at the limit of the page. */
module LogLimit {
  import opened Words
  import opened LogRing
  import opened Numerals
  import opened LogText
  import opened LogPage
  import opened LogDump
  import opened LogRuns
  import opened LogLedger

  /** An event that takes twenty characters and its sequence number behind the first digit. */
  const EVENT: Event := Event(0, 0, 0, 0x1_0000_0000)

  ghost function Appends(n: nat): (steps: seq<Step>)
    ensures |steps| == n
  {
    seq(n, _ => Append(0, EVENT))
  }

  ghost function History(n: nat): (hist: seq<Event>)
    ensures |hist| == n
  {
    seq(n, _ => EVENT)
  }

  /** One CPU, n appends and no dump. */
  ghost predicate Undumped(w: World, n: nat) {
    Inv(w) && w.hist == [History(n)] && w.log.cursors == [0]
  }

  lemma AppendOne(w: World, n: nat)
    requires Undumped(w, n) && n + 1 < TWO_64
    ensures Ready(w, Append(0, EVENT)) && Undumped(Next(w, Append(0, EVENT)), n + 1)
  {
    assert History(n + 1) == History(n) + [EVENT];
    Simulation(w, Append(0, EVENT));
  }

  lemma AppendsStart()
    ensures Runnable(Start(1), Appends(0)) && Undumped(Run(Start(1), Appends(0)), 0)
  {
    StartInv(1);
    assert Appends(0) == [] && History(0) == [];
  }

  lemma AppendsMore(w: World, n: nat)
    requires n + 1 < TWO_64 && Runnable(w, Appends(n)) && Undumped(Run(w, Appends(n)), n)
    ensures Runnable(w, Appends(n + 1)) && Undumped(Run(w, Appends(n + 1)), n + 1)
  {
    AppendOne(Run(w, Appends(n)), n);
    RunOneMore(w, Appends(n), Append(0, EVENT));
    assert Appends(n + 1) == Appends(n) + [Append(0, EVENT)];
  }

  lemma {:induction false} AppendsRun(n: nat)
    requires n < TWO_64
    ensures Runnable(Start(1), Appends(n))
    ensures Undumped(Run(Start(1), Appends(n)), n)
  {
    if n == 0 {
      AppendsStart();
    } else {
      AppendsRun(n - 1);
      AppendsMore(Start(1), n - 1);
    }
  }

  /** The records a dump finds, with the CPU they are printed for. */
  ghost function Found(n: nat): (items: seq<Item>)
    requires n <= LOGS_PER_CPU
    ensures |items| == n
  {
    Tagged(0, Window(History(n), 0, n))
  }

  lemma BacklogFound(w: World, n: nat)
    requires n <= LOGS_PER_CPU
    requires Undumped(w, n)
    ensures |Backlogs(w.log)| == 1 && Backlogs(w.log)[0] == Window(History(n), 0, n)
  {
    CpuReadsVisible(w, 0);
    BehindIs(w, 0);
    ShortCount(n);
  }

  lemma ShortCount(n: nat)
    ensures n <= LOGS_PER_CPU ==> Min(n % 0x1_0000_0000, LOGS_PER_CPU) == n
  {
  }

  lemma PendingOne(bs: seq<seq<Entry>>)
    requires |bs| == 1
    ensures AllPending(bs) == Tagged(0, bs[0])
  {
    assert Pending(bs, 0) == [];
    assert Pending(bs, 1) == Pending(bs, 0) + Tagged(0, bs[0]);
  }

  lemma PendingIsFound(n: nat)
    requires n <= LOGS_PER_CPU
    ensures Runnable(Start(1), Appends(n)) && Inv(Run(Start(1), Appends(n)))
    ensures AllPending(Backlogs(Run(Start(1), Appends(n)).log)) == Found(n)
  {
    AppendsRun(n);
    BacklogFound(Run(Start(1), Appends(n)), n);
    PendingOne(Backlogs(Run(Start(1), Appends(n)).log));
  }

  function Digits(k: nat): nat {
    if k < 10 then 1 else if k < 100 then 2 else 3
  }

  lemma SmallPowers()
    ensures Pow(10, 1) == 10 && Pow(10, 2) == 100 && Pow(10, 3) == 1000
    ensures Pow(16, 1) == 16 && Pow(16, 8) == 0x1_0000_0000 && Pow(16, 9) == 0x10_0000_0000
  {
    assert Pow(10, 1) == 10;
    assert Pow(16, 1) == 16;
    assert Pow(16, 4) == 0x1_0000;
    assert Pow(16, 8) == 0x1_0000 * Pow(16, 4);
  }

  lemma NumeralDigits(k: nat)
    requires k < 1000
    ensures |Numeral(k, 10)| == Digits(k)
  {
    SmallPowers();
    NumeralLength(k, 10, 1);
    NumeralLength(k, 10, 2);
    NumeralLength(k, 10, 3);
  }

  lemma EventDigits()
    ensures |Numeral(0x1_0000_0000, 16)| == 9
  {
    SmallPowers();
    NumeralLength(0x1_0000_0000, 16, 8);
    NumeralLength(0x1_0000_0000, 16, 9);
  }

  lemma LineDigits(k: nat)
    requires k < 1000
    ensures |Line(Item(0, Record(k, EVENT)))| == 19 + Digits(k)
  {
    var fs := Fields(Item(0, Record(k, EVENT)));
    NumeralDigits(k);
    EventDigits();
    assert fs[6..] == [];
    assert |Print(fs[5..])| == 10 by { assert fs[5..][1..] == fs[6..]; }
    assert |Print(fs[4..])| == 12 by { assert fs[4..][1..] == fs[5..]; }
    assert |Print(fs[3..])| == 14 by { assert fs[3..][1..] == fs[4..]; }
    assert |Print(fs[2..])| == 16 by { assert fs[2..][1..] == fs[3..]; }
    assert |Print(fs[1..])| == 17 + Digits(k) by { assert fs[1..][1..] == fs[2..]; }
  }

  /** The length of the first k lines. */
  function Length(k: nat): nat {
    if k <= 10 then 20 * k else if k <= 100 then 21 * k - 10 else 22 * k - 110
  }

  lemma {:induction false} LinesLength(n: nat, k: nat)
    requires k <= n <= LOGS_PER_CPU
    ensures |Concat(Lines(Found(n)[..k]))| == Length(k)
  {
    if k == 0 {
    } else {
      LinesLength(n, k - 1);
      LinesPrefix(Found(n), k - 1);
      LineDigits(k - 1);
      assert Found(n)[k - 1] == Item(0, Record(k - 1, EVENT));
    }
  }

  lemma FoundMeetsLimit()
    ensures Fit(Found(188)) == 187 && MeetsLimit(Found(188))
    ensures Found(188)[187] == Item(0, Record(187, EVENT))
  {
    LinesLength(188, 187);
    LinesLength(188, 188);
    assert Found(188)[..188] == Found(188);
    FitsUnique(Found(188), 187, Fit(Found(188)));
  }

  lemma CountedOfFound(w: World)
    requires Inv(w) && AllPending(Backlogs(w.log)) == Found(188)
    ensures |AllPending(CountedPart(Backlogs(w.log)))| == 187
  {
    FoundMeetsLimit();
    DumpTakesPrefix(Backlogs(w.log));
  }

  /**
   * After 188 appends of this event the lines sum to exactly the limit: the dump prints all 188
   * records whole, counts 187 of them, and the next dump prints the last one again.
   */
  lemma ExactlyAtTheLimit()
    ensures Runnable(Start(1), Appends(188)) && Inv(Run(Start(1), Appends(188)))
    ensures var w := Run(Start(1), Appends(188));
            && AllPending(Backlogs(w.log)) == Found(188)
            && ShowsNext(Found(188)) && Fit(Found(188)) == 187 == |AllPending(CountedPart(Backlogs(w.log)))|
            && Line(Item(0, Record(187, EVENT))) <= DumpText(Next(w, Dump).log)
  {
    PendingIsFound(188);
    FoundMeetsLimit();
    PrintedTwiceExactly(Run(Start(1), Appends(188)));
    CountedOfFound(Run(Start(1), Appends(188)));
  }
}
