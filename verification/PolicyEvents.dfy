/** One register event of the handler, whatever the hypervisor's calls answer. */
module PolicyEvents {
  import opened Words
  import opened Resources
  import opened PolicyTable
  import opened Enforcement
  import opened Counters
  import opened MsrPolicy
  import opened PolicyHandler

  /** The value the policies want after a write. */
  function Wanted(h: Handler, reg: Reg, ev: CrEvent): bv64 {
    WantedValue(reg, h.table.slots, ev.current, ev.operand, CountEvent(h.TallyOf(reg)))
  }

  /**
   * Exactly when an event is enforced: the registers are read and the operand is rewritten, or
   * the policies ask for a redirect, or they have nothing against the requested value.
   */
  lemma EventEnforced(h: Handler, reg: Reg, ev: CrEvent)
    requires Inv(h.table)
    ensures var policies, after := AsMap(h.table.slots), Carried(CrAnswer(h, reg, ev), ev.current);
            && Enforced(policies, reg, ev.current, ev.operand, Wanted(h, reg, ev))
            && (Enforced(policies, reg, ev.current, ev.operand, after)
                <==> || (ev.readable && (ev.writable || Wanted(h, reg, ev) == ev.current))
                     || Wanted(h, reg, ev) == ev.operand)
  {
    var policies := AsMap(h.table.slots);
    JudgeEnforces(reg, h.table.slots, ev.current, ev.operand, ev.writable, CountEvent(h.TallyOf(reg)));
    if !ev.readable {
      EnforcedExactly(policies, reg, ev.current, ev.operand, Wanted(h, reg, ev), ev.operand);
    }
  }

  /**
   * The value r a write event leaves in the register: the enforced one; the operand when the
   * registers cannot be read; and when the operand cannot be rewritten, the current value if the
   * policies want that, else the operand.
   */
  ghost predicate CrOutcome(policies: map<u32, Policy>, reg: Reg, ev: CrEvent, r: bv64) {
    if !ev.readable then r == ev.operand
    else if ev.writable then Enforced(policies, reg, ev.current, ev.operand, r)
    else r == if Enforced(policies, reg, ev.current, ev.operand, ev.current) then ev.current else ev.operand
  }

  lemma EventOutcome(h: Handler, reg: Reg, ev: CrEvent)
    requires Inv(h.table)
    ensures CrOutcome(AsMap(h.table.slots), reg, ev, Carried(CrAnswer(h, reg, ev), ev.current))
  {
    if ev.readable {
      var tally, policies := CountEvent(h.TallyOf(reg)), AsMap(h.table.slots);
      JudgeEnforces(reg, h.table.slots, ev.current, ev.operand, ev.writable, tally);
      CarriedValue(reg, h.table.slots, ev.current, ev.operand, ev.writable, tally);
      EnforcedExactly(policies, reg, ev.current, ev.operand, Wanted(h, reg, ev), ev.current);
    }
  }

  lemma OutcomeUnique(policies: map<u32, Policy>, reg: Reg, ev: CrEvent, r: bv64, r': bv64)
    requires CrOutcome(policies, reg, ev, r) && CrOutcome(policies, reg, ev, r')
    ensures r == r'
  {
    if ev.readable && ev.writable {
      EnforcedUnique(policies, reg, ev.current, ev.operand, r, r');
    }
  }

  /** The response the policies want to a write of a model-specific register. */
  function WantedResponse(policies: map<u32, Policy>, ev: MsrEvent): Response {
    LookupMsr(policies, ev.Register(), ev.Value())
  }

  lemma MsrOutcome(h: Handler, ev: MsrEvent)
    requires Inv(h.table)
    ensures MsrAnswer(h, ev) == if ev.Told() then WantedResponse(AsMap(h.table.slots), ev) else Allow
  {
    if ev.Told() {
      assert ev.Register() == ev.rcx;
      ScanIsLookup(h.table.slots, ev.rcx, ev.Value());
    }
  }

  /**
   * Exactly when an event for a model-specific register is answered as the policies want: its
   * registers are read and the high half of RCX, which the processor ignores, is zero; or the
   * policies let the value through.
   */
  lemma MsrEventEnforced(h: Handler, ev: MsrEvent)
    requires Inv(h.table)
    ensures MsrAnswer(h, ev) == WantedResponse(AsMap(h.table.slots), ev)
       <==> ev.Told() || WantedResponse(AsMap(h.table.slots), ev) == Allow
  {
    MsrOutcome(h, ev);
  }

  /**
   * Under a sticky policy the register gets another value if and only if the event writes that
   * register, carries another value, and cannot be read or has the high half of RCX not zero.
   */
  lemma StickyMsrEvent(h: Handler, ev: MsrEvent, id: u32)
    requires Inv(h.table) && MsrOf(id) != IA32_MSR_INVALID
    requires id in AsMap(h.table.slots) && AsMap(h.table.slots)[id].Sticky()
    ensures var other := ev.Register() == MsrOf(id) && ev.Value() != AsMap(h.table.slots)[id].sticky;
            other && MsrAnswer(h, ev) == Allow <==> other && !ev.Told()
  {
    MsrInverse(id);
    MsrOutcome(h, ev);
  }

  /** What an event that applies n policies does to the counters. */
  ghost predicate Counted(h: Handler, h': Handler, reg: Reg, n: nat, logs: bool) {
    var other := if reg.CR0? then CR4 else CR0;
    && h'.TallyOf(reg).events == h.TallyOf(reg).events + 1
    && h'.TallyOf(reg).Outcomes() == h.TallyOf(reg).Outcomes() + n
    && h'.TallyOf(other) == h.TallyOf(other)
    && AccessSum(h'.table.slots) == AccessSum(h.table.slots) + n
    && h'.logged == h.logged + if logs then 1 else 0
  }

  ghost predicate SomeLogs(h: Handler, ids: set<u32>)
    requires ids <= AsMap(h.table.slots).Keys
  {
    exists id :: id in ids && AsMap(h.table.slots)[id].Logs()
  }

  lemma ScanConservation(h: Handler, reg: Reg, ev: CrEvent, changed: set<u32>)
    requires Inv(h.table)
    requires changed == ChangedResources(AsMap(h.table.slots), reg, ev.current ^ ev.operand)
    ensures var c := CrScan(h, reg, ev);
            && c.tally.Outcomes() == h.TallyOf(reg).Outcomes() + |changed|
            && c.tally.events == h.TallyOf(reg).events + 1
            && (c.log <==> SomeLogs(h, changed))
            && AccessSum(Touch(reg, ev.current ^ ev.operand, h.table.slots)) == AccessSum(h.table.slots) + |changed|
  {
    var diff, slots := ev.current ^ ev.operand, h.table.slots;
    var start := Ctx(ev.operand, false, CountEvent(h.TallyOf(reg)));
    EventCounts(reg, slots, diff, start);
    EventLogs(reg, slots, diff, start);
    ScanCounts(Rules(reg, slots), diff, |slots|, start);
    ScanIsCrScan(h, reg, ev, slots, start.tally, diff);
  }

  lemma CountedByScan(h: Handler, reg: Reg, diff: bv64, c: Ctx, n: nat)
    requires c.tally.Outcomes() == h.TallyOf(reg).Outcomes() + n && c.tally.events == h.TallyOf(reg).events + 1
    requires AccessSum(Touch(reg, diff, h.table.slots)) == AccessSum(h.table.slots) + n
    ensures Counted(h, AfterScan(h, reg, diff, c), reg, n, c.log)
  {
  }

  /**
   * Conservation, for every event: the number of changed bits with a policy, none if the event
   * cannot be read, is added to the outcomes of its own register and to the access counts, and
   * the logger is called once if one of those policies has the log action, else never.
   */
  lemma EventConservation(h: Handler, reg: Reg, ev: CrEvent, changed: set<u32>)
    requires Inv(h.table)
    requires changed
          == if ev.readable then ChangedResources(AsMap(h.table.slots), reg, ev.current ^ ev.operand) else {}
    ensures Counted(h, AfterCr(h, reg, ev), reg, |changed|, SomeLogs(h, changed))
  {
    if Idle(ev) {
      WhenIdle(h, reg, ev);
      NothingChanged(AsMap(h.table.slots), reg, ev.current ^ ev.operand);
      assert changed == {};
    } else {
      ScanConservation(h, reg, ev, changed);
      CountedByScan(h, reg, ev.current ^ ev.operand, CrScan(h, reg, ev), |changed|);
      WhenScanned(h, reg, ev);
    }
  }

  lemma NothingChanged(policies: map<u32, Policy>, reg: Reg, diff: bv64)
    ensures diff == 0 ==> ChangedResources(policies, reg, diff) == {}
  {
  }
}
