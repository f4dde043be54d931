/**
 * The policy handler: the table, the one-way immutable flag and the three event handlers, first
 * as functions on values and then as the code works on them, in place.
 */
module PolicyHandler {
  import opened Words
  import opened Resources
  import opened PolicyTable
  import opened Enforcement
  import opened MsrPolicy

  datatype Handler = Handler(table: Table, immutable: bool, cr0: Tally, cr4: Tally, msr: Tally, logged: nat) {
    function TallyOf(reg: Reg): Tally {
      if reg.CR0? then cr0 else cr4
    }

    function WithTally(reg: Reg, t: Tally): Handler {
      if reg.CR0? then this.(cr0 := t) else this.(cr4 := t)
    }
  }

  /**
   * A write to a control register as the handler meets it: the register, the operand, whether
   * both can be read (a known operand and three successful calls), and whether the operand can
   * be rewritten.
   */
  datatype CrEvent = CrEvent(current: bv64, operand: bv64, readable: bool, writable: bool)

  /** A write to a model-specific register: the three guest registers and whether all reads succeed. */
  datatype MsrEvent = MsrEvent(rax: bv64, rcx: u64, rdx: bv64, readable: bool) {
    /** The register the processor writes: it looks at ECX, the low half of RCX, only. */
    function Register(): u32 { rcx % 0x1_0000_0000 }

    /** The value it writes, from EDX and EAX. */
    function Value(): bv64 { MakeU64(rdx, rax) }

    /** The handler can tell the register: it reads RCX, and finds nothing in its high half. */
    predicate Told() { readable && rcx < 0x1_0000_0000 }
  }

  const NO_EVENTS: Tally := Tally(0, 0, 0, 0, 0)

  function Fresh(): Handler {
    Handler(EmptyTable(), false, NO_EVENTS, NO_EVENTS, NO_EVENTS, 0)
  }

  // ---- Messages ----

  function Enable(h: Handler, msg: Message): Handler {
    if h.immutable then h else h.(table := AddMessage(h.table, msg))
  }

  function Disable(h: Handler, msg: Message): Handler {
    if h.immutable then h else h.(table := DeleteMessage(h.table, msg))
  }

  function MakeImmutable(h: Handler): Handler {
    h.(immutable := true)
  }

  // ---- Events ----

  /** The event has nothing to judge: it cannot be read, or the operand is the current value. */
  predicate Idle(ev: CrEvent) {
    !ev.readable || ev.current ^ ev.operand == 0
  }

  /** The context the scan of an event ends with. */
  function CrScan(h: Handler, reg: Reg, ev: CrEvent): Ctx {
    Scan(Rules(reg, h.table.slots), ev.current ^ ev.operand, |h.table.slots|,
         Ctx(ev.operand, false, CountEvent(h.TallyOf(reg))))
  }

  function CrAnswer(h: Handler, reg: Reg, ev: CrEvent): Answer {
    if !ev.readable then Answer(Allow, ev.operand)
    else Judge(reg, h.table.slots, ev.current, ev.operand, ev.writable, CountEvent(h.TallyOf(reg)))
  }

  function CountEvent(t: Tally): Tally {
    t.(events := t.events + 1)
  }

  /** Counters, access counts and the logger as the context of a scan says. */
  function AfterScan(h: Handler, reg: Reg, diff: bv64, c: Ctx): Handler {
    h.WithTally(reg, c.tally).(table := h.table.(slots := Touch(reg, diff, h.table.slots)),
                               logged := h.logged + if c.log then 1 else 0)
  }

  function AfterCr(h: Handler, reg: Reg, ev: CrEvent): Handler {
    if Idle(ev) then h.WithTally(reg, CountEvent(h.TallyOf(reg)))
    else AfterScan(h, reg, ev.current ^ ev.operand, CrScan(h, reg, ev))
  }

  function MsrAnswer(h: Handler, ev: MsrEvent): Response {
    if !ev.readable then Allow else ScanMsr(h.table.slots, ev.rcx, MakeU64(ev.rdx, ev.rax))
  }

  function AfterMsr(h: Handler, ev: MsrEvent): Handler {
    var tally, k := CountEvent(h.msr), FirstFor(h.table.slots, ev.rcx, 0);
    if !ev.readable || IdOfMsr(ev.rcx) == 0 || k == |h.table.slots| then h.(msr := tally)
    else
      var p := h.table.slots[k].policy;
      h.(msr := MsrCount(p, MakeU64(ev.rdx, ev.rax), tally),
         table := h.table.(slots := TouchMsr(h.table.slots, ev.rcx)),
         logged := h.logged + if p.Logs() then 1 else 0)
  }

  /** Resources the hypervisor is asked to watch. */
  predicate Watched(id: u32) {
    IsEntryOf(CR0, id) || IsEntryOf(CR4, id) || MsrOf(id) != IA32_MSR_INVALID
  }

  // ---- The code ----

  class PolicyHandler {
    const slots: array<Slot>
    var numEntries: nat
    var immutable: bool
    var cr0: Tally
    var cr4: Tally
    var msr: Tally
    var logged: nat

    ghost predicate Shape()
      reads this
    {
      slots.Length == POLICY_MAX_ENTRIES
    }

    ghost function View(): Handler
      reads this, slots
    {
      Handler(Table(slots[..], numEntries), immutable, cr0, cr4, msr, logged)
    }

    /** `policy_initialize`. */
    constructor Initialize()
      ensures Shape() && fresh(slots)
      ensures View() == Fresh()
      ensures slots.Length == 35 && forall i | 0 <= i < 35 :: slots[i].id == 37 && slots[i].accessCount == 0
      ensures numEntries == 0 && !immutable && logged == 0
      ensures cr0 == cr4 == msr == Tally(0, 0, 0, 0, 0)
    {
      slots := new Slot[POLICY_MAX_ENTRIES](_ => Slot(RESOURCE_ID_UNKNOWN, 0, Policy(0, 0, 0, 0, Info(0, 0, 0))));
      numEntries, immutable, logged := 0, false, 0;
      cr0, cr4, msr := NO_EVENTS, NO_EVENTS, NO_EVENTS;
      new;
      assert slots[..] == EmptyTable().slots;
    }

    /** `policy_entry_add`: two scans, for the id and for a free slot. */
    method EntryAdd(e: Slot)
      requires Shape()
      modifies this`numEntries, slots
      ensures View() == old(View()).(table := Insert(old(View()).table, e))
    {
      for i := 0 to slots.Length
        invariant forall j | 0 <= j < i :: slots[j].id != e.id
      {
        if slots[i].id == e.id {
          assert Find(slots[..], e.id) == i;
          slots[i] := e;
          return;
        }
      }
      for i := 0 to slots.Length
        invariant forall j | 0 <= j < i :: slots[j].Used()
      {
        if slots[i].id == RESOURCE_ID_UNKNOWN {
          assert Find(slots[..], RESOURCE_ID_UNKNOWN) == i;
          slots[i] := e;
          numEntries := numEntries + 1;
          return;
        }
      }
    }

    /** `policy_entry_del`. */
    method EntryDel(id: u32)
      requires Shape()
      modifies this`numEntries, slots
      ensures View() == old(View()).(table := Delete(old(View()).table, id))
    {
      for i := 0 to slots.Length
        invariant forall j | 0 <= j < i :: slots[j].id != id
      {
        if slots[i].id == id {
          assert Find(slots[..], id) == i;
          slots[i] := slots[i].(id := RESOURCE_ID_UNKNOWN);
          slots[i] := slots[i].(accessCount := 0);
          if numEntries != 0 {
            numEntries := numEntries - 1;
          }
          return;
        }
      }
    }

    /** `policy_set_monitor`, given how the hypervisor answers. */
    method SetMonitor(id: u32, succeeds: bool) returns (ok: bool)
      ensures ok <==> Watched(id) && succeeds
      ensures Watched(id) <==> 1 <= id <= 29 || 32 <= id <= 35
    {
      if IsEntryOf(CR0, id) || IsEntryOf(CR4, id) {
        return succeeds;
      }
      var register := ResIdToMsr(id);
      return register != IA32_MSR_INVALID && succeeds;
    }

    /** `policy_msg_add`: a monitor that fails does not undo the insert. */
    method MsgAdd(msg: Message, succeeds: bool) returns (ok: bool)
      requires Shape()
      modifies this`numEntries, slots
      ensures View() == old(View()).(table := AddMessage(old(View()).table, msg))
      ensures ok <==> (1 <= msg.id <= 29 || 32 <= msg.id <= 35) && succeeds
    {
      if msg.id == RESOURCE_ID_UNKNOWN {
        return false;
      }
      EntryAdd(Slot(msg.id, 0, msg.policy));
      ok := SetMonitor(msg.id, succeeds);
    }

    /** `policy_msg_del`: the entry goes whatever the monitor answers. */
    method MsgDel(msg: Message, succeeds: bool) returns (ok: bool)
      requires Shape()
      modifies this`numEntries, slots
      ensures View() == old(View()).(table := DeleteMessage(old(View()).table, msg))
      ensures ok <==> (1 <= msg.id <= 29 || 32 <= msg.id <= 35) && succeeds
    {
      if msg.id == RESOURCE_ID_UNKNOWN {
        return false;
      }
      ok := SetMonitor(msg.id, succeeds);
      EntryDel(msg.id);
    }

    /** `handle_msg_policy_enable`. */
    method HandleEnable(msg: Message, succeeds: bool)
      requires Shape()
      modifies this`numEntries, slots
      ensures View() == Enable(old(View()), msg)
    {
      if !immutable {
        var ok := MsgAdd(msg, succeeds);
      }
    }

    /** `handle_msg_policy_disable`. */
    method HandleDisable(msg: Message, succeeds: bool)
      requires Shape()
      modifies this`numEntries, slots
      ensures View() == Disable(old(View()), msg)
    {
      if !immutable {
        var ok := MsgDel(msg, succeeds);
      }
    }

    /** `handle_msg_policy_make_immutable`. */
    method HandleMakeImmutable()
      modifies this`immutable
      ensures View() == MakeImmutable(old(View()))
    {
      if !immutable {
        immutable := true;
      }
    }

    /** `process_cr0_policy` and `process_cr4_policy`, on the context of the event. */
    method ProcessPolicy(reg: Reg, slot: Slot, diff: bv64, c: Ctx) returns (c': Ctx, applied: bool)
      requires slot.Used() && IsEntryOf(reg, slot.id)
      ensures c' == Process(RuleOf(reg, slot), diff, c)
      ensures applied == RuleOf(reg, slot).Hits(diff)
    {
      var mask := ResIdToMask(reg, slot.id);
      c', applied := ApplyRule(Rule(mask, slot.policy), diff, c);
    }

    /** The outcome of a policy whose bit is known. */
    method ApplyRule(rule: Rule, diff: bv64, c: Ctx) returns (c': Ctx, applied: bool)
      ensures c' == Process(rule, diff, c)
      ensures applied == rule.Hits(diff)
    {
      var mask, p, t, flips := rule.mask, rule.policy, c.tally, false;
      if !Has(mask, diff) {
        NoHitNoChange(rule, diff, c);
        return c, false;
      }
      var log := c.log || p.Logs();
      if p.Sticky() {
        if (Has(c.value, mask) && !p.StickyOne()) || (!Has(c.value, mask) && p.StickyOne()) {
          flips := true;
          t := t.(stickySkip := t.stickySkip + 1);
        } else {
          t := t.(stickyAllow := t.stickyAllow + 1);
        }
      } else if p.Skip() {
        flips := true;
        t := t.(skip := t.skip + 1);
      } else {
        t := t.(allow := t.allow + 1);
      }
      return Ctx(FlipIf(c.value, mask, flips), log, t), true;
    }

    /** One pass of the loop over the table: free slots and entries of other registers are passed over. */
    method VisitSlot(reg: Reg, i: nat, diff: bv64, c: Ctx) returns (c': Ctx)
      requires i < slots.Length
      modifies slots
      ensures c' == Process(RuleOf(reg, old(slots[i])), diff, c)
      ensures slots[..] == old(slots[..])[i := TouchOne(reg, diff, old(slots[i]))]
    {
      var slot := slots[i];
      if slot.id == RESOURCE_ID_UNKNOWN || !IsEntryOf(reg, slot.id) {
        NoBitNoHit(RuleOf(reg, slot), diff);
        NoHitNoChange(RuleOf(reg, slot), diff, c);
        return c;
      }
      var applied;
      c', applied := ProcessPolicy(reg, slot, diff, c);
      if applied {
        slots[i] := slot.(accessCount := slot.accessCount + 1);
      }
    }

    /** The loop of `handle_cr0_event` and `handle_cr4_event` over the table. */
    method ScanTable(reg: Reg, diff: bv64, start: Ctx) returns (c: Ctx)
      requires Shape()
      modifies slots
      ensures c == Scan(Rules(reg, old(slots[..])), diff, POLICY_MAX_ENTRIES, start)
      ensures slots[..] == Touch(reg, diff, old(slots[..]))
    {
      ghost var before, touched := slots[..], Touch(reg, diff, slots[..]);
      ghost var rules := Rules(reg, before);
      c := start;
      assert before == touched[..0] + before[0..];
      for i := 0 to slots.Length
        invariant c == Scan(rules, diff, i, start)
        invariant slots[..] == touched[..i] + before[i..]
      {
        assert slots[..][i] == before[i];
        ScanNext(reg, before, diff, i, start);
        Advance(touched, before, i);
        c := VisitSlot(reg, i, diff, c);
      }
    }

    /** Scanning, counting and logging of an event that is not idle. */
    method JudgeEvent(reg: Reg, ev: CrEvent, diff: bv64, tally: Tally, ghost h: Handler) returns (c: Ctx)
      requires Shape() && diff == ev.current ^ ev.operand
      requires tally == CountEvent(h.TallyOf(reg)) && View() == h.WithTally(reg, tally)
      modifies this`cr0, this`cr4, this`logged, slots
      ensures c == CrScan(h, reg, ev)
      ensures View() == AfterScan(h, reg, diff, c)
    {
      ScanIsCrScan(h, reg, ev, slots[..], tally, diff);
      c := ScanTable(reg, diff, Ctx(ev.operand, false, tally));
      SetTally(reg, c.tally);
      if c.log {
        logged := logged + 1;
      }
    }

    /** `handle_cr0_event` and `handle_cr4_event`. */
    method HandleCrEvent(reg: Reg, ev: CrEvent) returns (answer: Answer)
      requires Shape()
      modifies this`cr0, this`cr4, this`logged, slots
      ensures View() == AfterCr(old(View()), reg, ev)
      ensures answer == CrAnswer(old(View()), reg, ev)
    {
      ghost var h := View();
      var tally := CountEvent(if reg.CR0? then cr0 else cr4);
      SetTally(reg, tally);
      if Idle(ev) {
        WhenIdle(h, reg, ev);
        return Answer(Allow, ev.operand);
      }
      var c := JudgeEvent(reg, ev, ev.current ^ ev.operand, tally, h);
      WhenScanned(h, reg, ev);
      answer := Respond(c.value, ev.current, ev.operand, ev.writable);
    }

    method SetTally(reg: Reg, t: Tally)
      modifies this`cr0, this`cr4
      ensures View() == old(View()).WithTally(reg, t)
    {
      if reg.CR0? {
        cr0 := t;
      } else {
        cr4 := t;
      }
    }

    /** `handle_msr_event`: the scan stops at the first slot of the register. */
    method HandleMsrEvent(ev: MsrEvent) returns (response: Response)
      requires Shape()
      modifies this`msr, this`logged, slots
      ensures View() == AfterMsr(old(View()), ev)
      ensures response == MsrAnswer(old(View()), ev)
    {
      ghost var before, h := slots[..], View();
      msr := CountEvent(msr);
      response := Allow;
      if !ev.readable || IdOfMsr(ev.rcx) == 0 {
        return;
      }
      var value := MakeU64(ev.rdx, ev.rax);
      for i := 0 to slots.Length
        invariant slots[..] == before
        invariant FirstFor(before, ev.rcx, i) == FirstFor(before, ev.rcx, 0)
        invariant View() == h.(msr := CountEvent(h.msr)) && response == Allow
      {
        var slot := slots[i];
        var register := ResIdToMsr(slot.id);
        if slot.id != RESOURCE_ID_UNKNOWN && register == ev.rcx {
          assert FirstFor(before, ev.rcx, 0) == i;
          if slot.policy.Logs() {
            logged := logged + 1;
          }
          response := MsrResponse(slot.policy, value);
          msr := MsrCount(slot.policy, value, msr);
          slots[i] := slot.(accessCount := slot.accessCount + 1);
          assert slots[..] == TouchMsr(before, ev.rcx);
          return;
        }
      }
    }
  }

  lemma ScanNext(reg: Reg, slots: seq<Slot>, diff: bv64, i: nat, start: Ctx)
    requires i < |slots|
    ensures Scan(Rules(reg, slots), diff, i + 1, start)
         == Process(RuleOf(reg, slots[i]), diff, Scan(Rules(reg, slots), diff, i, start))
  {
  }

  /** Replacing element i moves the border between two halves by one. */
  lemma Advance<T>(done: seq<T>, todo: seq<T>, i: nat)
    requires i < |done| == |todo|
    ensures done[..i + 1] + todo[i + 1..] == (done[..i] + todo[i..])[i := done[i]]
  {
  }

  lemma NoBitNoHit(rule: Rule, diff: bv64)
    requires rule.mask == 0
    ensures !rule.Hits(diff)
  {
  }

  /** A rule that does not apply leaves the context alone. */
  lemma NoHitNoChange(rule: Rule, diff: bv64, c: Ctx)
    requires !rule.Hits(diff)
    ensures Process(rule, diff, c) == c
  {
  }

  lemma ScanIsCrScan(h: Handler, reg: Reg, ev: CrEvent, slots: seq<Slot>, tally: Tally, diff: bv64)
    requires slots == h.table.slots && tally == CountEvent(h.TallyOf(reg)) && diff == ev.current ^ ev.operand
    ensures Scan(Rules(reg, slots), diff, |slots|, Ctx(ev.operand, false, tally)) == CrScan(h, reg, ev)
  {
  }

  lemma JudgeWhenIdle(reg: Reg, slots: seq<Slot>, ev: CrEvent, t: Tally)
    requires ev.readable && Idle(ev)
    ensures Judge(reg, slots, ev.current, ev.operand, ev.writable, t) == Answer(Allow, ev.operand)
  {
  }

  lemma JudgeWhenScanned(reg: Reg, slots: seq<Slot>, ev: CrEvent, t: Tally)
    requires !Idle(ev)
    ensures Judge(reg, slots, ev.current, ev.operand, ev.writable, t)
         == Respond(WantedValue(reg, slots, ev.current, ev.operand, t), ev.current, ev.operand, ev.writable)
  {
  }

  lemma ScannedValue(h: Handler, reg: Reg, ev: CrEvent)
    ensures CrScan(h, reg, ev).value
         == WantedValue(reg, h.table.slots, ev.current, ev.operand, CountEvent(h.TallyOf(reg)))
  {
  }

  /** An idle event only counts itself, and the operand is let through. */
  lemma WhenIdle(h: Handler, reg: Reg, ev: CrEvent)
    requires Idle(ev)
    ensures AfterCr(h, reg, ev) == h.WithTally(reg, CountEvent(h.TallyOf(reg)))
    ensures CrAnswer(h, reg, ev) == Answer(Allow, ev.operand)
  {
    if ev.readable {
      JudgeWhenIdle(reg, h.table.slots, ev, CountEvent(h.TallyOf(reg)));
    }
  }

  /** State and answer of any other event come from one and the same fold. */
  lemma WhenScanned(h: Handler, reg: Reg, ev: CrEvent)
    requires !Idle(ev)
    ensures AfterCr(h, reg, ev) == AfterScan(h, reg, ev.current ^ ev.operand, CrScan(h, reg, ev))
    ensures CrAnswer(h, reg, ev) == Respond(CrScan(h, reg, ev).value, ev.current, ev.operand, ev.writable)
  {
    ScannedValue(h, reg, ev);
    JudgeWhenScanned(reg, h.table.slots, ev, CountEvent(h.TallyOf(reg)));
  }
}
