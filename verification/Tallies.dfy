/**
 * Every counter an event moves: which outcome, whose access count, whether the logger is called,
 * in terms of the write actions and sticky values of the policies.
 */
module Tallies {
  import opened Words
  import opened Resources
  import opened PolicyTable
  import opened Enforcement
  import opened Counters
  import opened MsrPolicy
  import opened PolicyHandler
  import opened PolicyEvents

  // ---- Outcomes of a fold ----

  datatype Outcome = Allowed | Skipped | StickyAllowed | StickySkipped

  /** What a policy that applies comes to, when the bit asked for is `req`. */
  predicate Comes(o: Outcome, p: Policy, req: bool) {
    match o
    case Allowed => p.writeAction & 0x80 == 0 && p.writeAction & 0x02 == 0
    case Skipped => p.writeAction & 0x80 == 0 && p.writeAction & 0x02 != 0
    case StickyAllowed => p.writeAction & 0x80 != 0 && req == (p.sticky & 1 != 0)
    case StickySkipped => p.writeAction & 0x80 != 0 && req != (p.sticky & 1 != 0)
  }

  lemma ComesSays(p: Policy, req: bool)
    ensures Comes(Allowed, p, req) <==> !p.Sticky() && !p.Skip()
    ensures Comes(Skipped, p, req) <==> !p.Sticky() && p.Skip()
    ensures Comes(StickyAllowed, p, req) <==> p.Sticky() && req == p.StickyOne()
    ensures Comes(StickySkipped, p, req) <==> p.Sticky() && req != p.StickyOne()
    ensures p.Logs() <==> p.writeAction & 0x01 != 0
  {
  }

  /** The counter of an outcome. */
  function Part(t: Tally, o: Outcome): nat {
    match o
    case Allowed => t.allow
    case Skipped => t.skip
    case StickyAllowed => t.stickyAllow
    case StickySkipped => t.stickySkip
  }

  /** The rules that apply and come to this outcome. */
  ghost function Coming(rules: seq<Rule>, diff: bv64, req: bv64, o: Outcome): (flags: seq<bool>)
    ensures |flags| == |rules|
  {
    seq(|rules|, i requires 0 <= i < |rules| =>
      rules[i].Hits(diff) && Comes(o, rules[i].policy, Has(req, rules[i].mask)))
  }

  lemma ProcessCounts(rule: Rule, diff: bv64, c: Ctx, o: Outcome, req: bool)
    requires Has(c.value, rule.mask) == req
    ensures Part(Process(rule, diff, c).tally, o)
         == Part(c.tally, o) + if rule.Hits(diff) && Comes(o, rule.policy, req) then 1 else 0
  {
    ComesSays(rule.policy, req);
  }

  lemma {:induction false} ScanComes(rules: seq<Rule>, diff: bv64, k: nat, c: Ctx, req: bv64, o: Outcome)
    requires k <= |rules| && Separate(rules) && c.value == req
    ensures Part(Scan(rules, diff, k, c).tally, o) == Part(c.tally, o) + Trues(Coming(rules, diff, req, o), k)
  {
    if k == 0 {
    } else {
      ScanComes(rules, diff, k - 1, c, req, o);
      ScanLeaves(rules, diff, k - 1, c, rules[k - 1].mask);
      ProcessCounts(rules[k - 1], diff, Scan(rules, diff, k - 1, c), o, Has(req, rules[k - 1].mask));
    }
  }

  /** The changed resources whose policy comes to this outcome. */
  ghost function ComingIds(policies: map<u32, Policy>, reg: Reg, diff: bv64, req: bv64, o: Outcome): set<u32> {
    set id | id in ChangedResources(policies, reg, diff) && Comes(o, policies[id], Has(req, Mask(reg, id)))
  }

  lemma ComingSlot(reg: Reg, slots: seq<Slot>, diff: bv64, req: bv64, o: Outcome, i: nat)
    requires Unique(slots) && i < |slots|
    ensures Coming(Rules(reg, slots), diff, req, o)[i]
       <==> slots[i].Used() && slots[i].id in ComingIds(AsMap(slots), reg, diff, req, o)
  {
    AppliedSlot(reg, slots[i], diff);
    if slots[i].Used() {
      SlotInMap(slots, i);
    }
  }

  lemma ComingHits(reg: Reg, slots: seq<Slot>, diff: bv64, req: bv64, o: Outcome)
    requires Unique(slots)
    ensures var flags := Coming(Rules(reg, slots), diff, req, o);
            && HitIds(slots, flags, |slots|) == ComingIds(AsMap(slots), reg, diff, req, o)
            && forall i | 0 <= i < |slots| && flags[i] :: slots[i].Used()
  {
    var flags, coming := Coming(Rules(reg, slots), diff, req, o), ComingIds(AsMap(slots), reg, diff, req, o);
    forall i | 0 <= i < |slots|
      ensures flags[i] <==> slots[i].Used() && slots[i].id in coming
    {
      ComingSlot(reg, slots, diff, req, o, i);
    }
    forall id | id in coming
      ensures id in HitIds(slots, flags, |slots|)
    {
      var i :| 0 <= i < |slots| && slots[i].Used() && slots[i].id == id;
      assert flags[i];
    }
  }

  /** Every outcome is counted once for every changed resource whose policy comes to it. */
  lemma OutcomeCounts(reg: Reg, slots: seq<Slot>, diff: bv64, c: Ctx, o: Outcome)
    requires Unique(slots)
    ensures Part(Scan(Rules(reg, slots), diff, |slots|, c).tally, o)
         == Part(c.tally, o) + |ComingIds(AsMap(slots), reg, diff, c.value, o)|
  {
    UniqueIdsSeparateRules(reg, slots);
    ScanComes(Rules(reg, slots), diff, |slots|, c, c.value, o);
    ComingHits(reg, slots, diff, c.value, o);
    HitIdsSize(slots, Coming(Rules(reg, slots), diff, c.value, o), |slots|);
  }

  // ---- A whole event of a control register ----

  /** The resources an event changes and that have a policy. */
  ghost function Changed(policies: map<u32, Policy>, reg: Reg, ev: CrEvent): set<u32> {
    set id | id in policies && IsEntryOf(reg, id) && ev.readable
             && Has(ev.current, Mask(reg, id)) != Has(ev.operand, Mask(reg, id))
  }

  lemma ChangedId(reg: Reg, id: u32, cur: bv64, req: bv64, diff: bv64)
    requires IsEntryOf(reg, id) && diff == cur ^ req
    ensures Has(Mask(reg, id), diff) <==> Has(cur, Mask(reg, id)) != Has(req, Mask(reg, id))
  {
    MaskIsOwnBit(reg, id);
    DiffBit(cur, req, Mask(reg, id));
  }

  lemma ChangedWords(policies: map<u32, Policy>, reg: Reg, ev: CrEvent, diff: bv64)
    requires diff == ev.current ^ ev.operand
    ensures Changed(policies, reg, ev) == if ev.readable then ChangedResources(policies, reg, diff) else {}
  {
    forall id | id in policies && IsEntryOf(reg, id)
      ensures Has(Mask(reg, id), diff) <==> Has(ev.current, Mask(reg, id)) != Has(ev.operand, Mask(reg, id))
    {
      ChangedId(reg, id, ev.current, ev.operand, diff);
    }
  }

  lemma ChangedIs(policies: map<u32, Policy>, reg: Reg, ev: CrEvent)
    ensures Changed(policies, reg, ev)
         == if ev.readable then ChangedResources(policies, reg, ev.current ^ ev.operand) else {}
  {
    ChangedWords(policies, reg, ev, ev.current ^ ev.operand);
  }

  /** Those among them whose policy comes to this outcome. */
  ghost function Becoming(policies: map<u32, Policy>, reg: Reg, ev: CrEvent, o: Outcome): set<u32> {
    set id | id in Changed(policies, reg, ev) && Comes(o, policies[id], Has(ev.operand, Mask(reg, id)))
  }

  lemma ScannedOutcome(h: Handler, reg: Reg, ev: CrEvent, o: Outcome)
    requires Inv(h.table)
    ensures Part(CrScan(h, reg, ev).tally, o)
         == Part(h.TallyOf(reg), o) + |ComingIds(AsMap(h.table.slots), reg, ev.current ^ ev.operand, ev.operand, o)|
  {
    var start := Ctx(ev.operand, false, CountEvent(h.TallyOf(reg)));
    OutcomeCounts(reg, h.table.slots, ev.current ^ ev.operand, start, o);
    ScanIsCrScan(h, reg, ev, h.table.slots, start.tally, ev.current ^ ev.operand);
  }

  lemma BecomingIs(policies: map<u32, Policy>, reg: Reg, ev: CrEvent, o: Outcome)
    ensures ev.readable ==>
              Becoming(policies, reg, ev, o) == ComingIds(policies, reg, ev.current ^ ev.operand, ev.operand, o)
    ensures Idle(ev) ==> Becoming(policies, reg, ev, o) == {}
  {
    ChangedIs(policies, reg, ev);
    NothingChanged(policies, reg, ev.current ^ ev.operand);
  }

  /** An outcome of a whole event. */
  lemma EventOutcome(h: Handler, reg: Reg, ev: CrEvent, o: Outcome)
    requires Inv(h.table)
    ensures Part(AfterCr(h, reg, ev).TallyOf(reg), o)
         == Part(h.TallyOf(reg), o) + |Becoming(AsMap(h.table.slots), reg, ev, o)|
  {
    BecomingIs(AsMap(h.table.slots), reg, ev, o);
    if Idle(ev) {
      WhenIdle(h, reg, ev);
    } else {
      ScannedOutcome(h, reg, ev, o);
      WhenScanned(h, reg, ev);
    }
  }

  /**
   * Every counter an event of a control register moves: its own register counts the event and,
   * once for every changed resource with a policy, what the policy came to; the other register
   * and the model-specific ones count nothing.
   */
  lemma CrTallies(h: Handler, reg: Reg, ev: CrEvent)
    requires Inv(h.table)
    ensures var policies, h' := AsMap(h.table.slots), AfterCr(h, reg, ev);
            var t, t' := if reg.CR0? then h.cr0 else h.cr4, if reg.CR0? then h'.cr0 else h'.cr4;
            && t'.events == t.events + 1
            && (forall o: Outcome :: Part(t', o) == Part(t, o) + |Becoming(policies, reg, ev, o)|)
            && (if reg.CR0? then h'.cr4 == h.cr4 else h'.cr0 == h.cr0) && h'.msr == h.msr
  {
    OwnTally(h, reg, ev);
    forall o: Outcome
      ensures Part(AfterCr(h, reg, ev).TallyOf(reg), o)
           == Part(h.TallyOf(reg), o) + |Becoming(AsMap(h.table.slots), reg, ev, o)|
    {
      EventOutcome(h, reg, ev, o);
    }
  }

  lemma OwnTally(h: Handler, reg: Reg, ev: CrEvent)
    requires Inv(h.table)
    ensures var h' := AfterCr(h, reg, ev);
            && h'.TallyOf(reg).events == h.TallyOf(reg).events + 1
            && (if reg.CR0? then h'.cr4 == h.cr4 else h'.cr0 == h.cr0) && h'.msr == h.msr
  {
    if Idle(ev) {
      WhenIdle(h, reg, ev);
    } else {
      var start := Ctx(ev.operand, false, CountEvent(h.TallyOf(reg)));
      ScanCounts(Rules(reg, h.table.slots), ev.current ^ ev.operand, |h.table.slots|, start);
      ScanIsCrScan(h, reg, ev, h.table.slots, start.tally, ev.current ^ ev.operand);
      WhenScanned(h, reg, ev);
    }
  }

  lemma LogSays(policies: map<u32, Policy>, ids: set<u32>)
    requires ids <= policies.Keys
    ensures (exists id :: id in ids && policies[id].Logs())
       <==> exists id :: id in ids && policies[id].writeAction & 0x01 != 0
  {
    forall id | id in ids
      ensures policies[id].Logs() <==> policies[id].writeAction & 0x01 != 0
    {
      ComesSays(policies[id], false);
    }
  }

  /** The logger is called once if a changed resource has a policy with 0x01 in its write action, else never. */
  lemma CrLogs(h: Handler, reg: Reg, ev: CrEvent)
    requires Inv(h.table)
    ensures var policies := AsMap(h.table.slots);
            AfterCr(h, reg, ev).logged
            == h.logged + if exists id :: id in Changed(policies, reg, ev) && policies[id].writeAction & 0x01 != 0
                          then 1 else 0
  {
    ChangedIs(AsMap(h.table.slots), reg, ev);
    EventConservation(h, reg, ev, Changed(AsMap(h.table.slots), reg, ev));
    LogSays(AsMap(h.table.slots), Changed(AsMap(h.table.slots), reg, ev));
  }

  lemma TouchedSlot(reg: Reg, slots: seq<Slot>, diff: bv64, i: nat)
    requires Unique(slots) && i < |slots|
    ensures Touch(reg, diff, slots)[i]
         == if slots[i].id in ChangedResources(AsMap(slots), reg, diff)
            then Slot(slots[i].id, slots[i].accessCount + 1, slots[i].policy) else slots[i]
  {
    AppliedSlot(reg, slots[i], diff);
    if slots[i].Used() {
      SlotInMap(slots, i);
    }
  }

  /** One access is counted for every slot of a changed resource, and nothing else in the table moves. */
  lemma CrAccesses(h: Handler, reg: Reg, ev: CrEvent, i: nat)
    requires Inv(h.table) && i < |h.table.slots|
    ensures var slot, h' := h.table.slots[i], AfterCr(h, reg, ev);
            && |h'.table.slots| == |h.table.slots| && h'.table.numEntries == h.table.numEntries
            && h'.table.slots[i]
               == if slot.id in Changed(AsMap(h.table.slots), reg, ev)
                  then Slot(slot.id, slot.accessCount + 1, slot.policy) else slot
  {
    ChangedIs(AsMap(h.table.slots), reg, ev);
    if Idle(ev) {
      WhenIdle(h, reg, ev);
      NothingChanged(AsMap(h.table.slots), reg, ev.current ^ ev.operand);
    } else {
      WhenScanned(h, reg, ev);
      TouchedSlot(reg, h.table.slots, ev.current ^ ev.operand, i);
    }
  }

  // ---- A whole event of a model-specific register ----

  /** What an event for a register with a policy moves, when all is read. */
  lemma MsrTallies(h: Handler, ev: MsrEvent, id: u32, i: nat)
    requires Inv(h.table) && ev.readable && MsrOf(id) == ev.rcx && MsrOf(id) != IA32_MSR_INVALID
    requires i < |h.table.slots| && h.table.slots[i].id == id
    ensures var h', p, t := AfterMsr(h, ev), h.table.slots[i].policy, h.msr;
            var sticky, agrees, skip := p.writeAction & 0x80 != 0, ev.Value() == p.sticky, p.writeAction & 0x02 != 0;
            && h'.msr == Tally(t.events + 1,
                               t.allow + (if !sticky && !skip then 1 else 0),
                               t.skip + (if !sticky && skip then 1 else 0),
                               t.stickyAllow + (if sticky && agrees then 1 else 0),
                               t.stickySkip + (if sticky && !agrees then 1 else 0))
            && h'.logged == h.logged + (if p.writeAction & 0x01 != 0 then 1 else 0)
            && h'.table.slots == h.table.slots[i := Slot(id, h.table.slots[i].accessCount + 1, p)]
            && h' == h.(msr := h'.msr, logged := h'.logged, table := h.table.(slots := h'.table.slots))
  {
    MsrInverse(id);
    SlotInMap(h.table.slots, i);
    FirstIs(h.table.slots, ev.rcx, i);
    ComesSays(h.table.slots[i].policy, ev.Value() == h.table.slots[i].policy.sticky);
    CountSays(h.table.slots[i].policy, ev.Value(), CountEvent(h.msr));
  }

  lemma FirstIs(slots: seq<Slot>, msr: nat, i: nat)
    requires Unique(slots) && i < |slots| && Governs(slots[i], msr) && msr != IA32_MSR_INVALID
    ensures FirstFor(slots, msr, 0) == i
  {
    var k := FirstFor(slots, msr, 0);
    assert k <= i;
    MsrInverse(slots[k].id);
    MsrInverse(slots[i].id);
  }

  lemma CountSays(p: Policy, value: bv64, t: Tally)
    ensures MsrCount(p, value, t)
         == Tally(t.events,
                  t.allow + (if !p.Sticky() && !p.Skip() then 1 else 0),
                  t.skip + (if !p.Sticky() && p.Skip() then 1 else 0),
                  t.stickyAllow + (if p.Sticky() && value == p.sticky then 1 else 0),
                  t.stickySkip + (if p.Sticky() && value != p.sticky then 1 else 0))
  {
  }

  /** Any other event of a model-specific register only counts itself. */
  lemma MsrOnlyCounts(h: Handler, ev: MsrEvent)
    requires ev.readable ==>
               forall i | 0 <= i < |h.table.slots| && MsrOf(h.table.slots[i].id) != IA32_MSR_INVALID ::
                 MsrOf(h.table.slots[i].id) != ev.rcx
    ensures AfterMsr(h, ev) == h.(msr := h.msr.(events := h.msr.events + 1))
  {
  }
}
