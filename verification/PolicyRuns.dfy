/**
 * Runs of the handler and the processor: any interleaving of policy messages and register
 * writes. The handler refines an abstract machine that keeps a bounded map of policies and
 * where a control-register write is one assignment of the enforced value.
 */
module PolicyRuns {
  import opened Words
  import opened Resources
  import opened PolicyTable
  import opened Enforcement
  import Counters
  import opened MsrPolicy
  import opened PolicyHandler
  import opened PolicyEvents

  datatype Step =
    | EnableStep(msg: Message)
    | DisableStep(msg: Message)
    | FreezeStep
    | CrWrite(reg: Reg, operand: bv64, readable: bool, writable: bool)
    | MsrWrite(ev: MsrEvent)
  {
    /** A message about this resource. */
    predicate About(id: u32) {
      (EnableStep? || DisableStep?) && msg.id == id
    }
  }

  /** The guest's registers. */
  datatype Guest = Guest(cr0: bv64, cr4: bv64, msrs: map<u32, bv64>) {
    function Cr(reg: Reg): bv64 {
      if reg.CR0? then cr0 else cr4
    }

    function WithCr(reg: Reg, value: bv64): Guest {
      if reg.CR0? then this.(cr0 := value) else this.(cr4 := value)
    }

    /** The write of the event goes through or not. */
    function WithMsr(ev: MsrEvent, response: Response): Guest {
      if response.Allow? then this.(msrs := msrs[ev.Register() := ev.Value()]) else this
    }
  }

  datatype Machine = Machine(h: Handler, guest: Guest)

  /** The event of a write. */
  function EventOf(guest: Guest, step: Step): CrEvent
    requires step.CrWrite?
  {
    CrEvent(guest.Cr(step.reg), step.operand, step.readable, step.writable)
  }

  /** The processor carries an answer out. */
  function Next(m: Machine, step: Step): Machine {
    match step
    case EnableStep(msg) => m.(h := Enable(m.h, msg))
    case DisableStep(msg) => m.(h := Disable(m.h, msg))
    case FreezeStep => m.(h := MakeImmutable(m.h))
    case CrWrite(reg, _, _, _) =>
      var ev := EventOf(m.guest, step);
      Machine(AfterCr(m.h, reg, ev), m.guest.WithCr(reg, Carried(CrAnswer(m.h, reg, ev), ev.current)))
    case MsrWrite(ev) =>
      Machine(AfterMsr(m.h, ev), m.guest.WithMsr(ev, MsrAnswer(m.h, ev)))
  }

  // ---- The abstract machine ----

  datatype Spec = Spec(policies: map<u32, Policy>, immutable: bool, guest: Guest)

  ghost function Abstract(m: Machine): Spec {
    Spec(AsMap(m.h.table.slots), m.h.immutable, m.guest)
  }

  ghost predicate SpecStep(s: Spec, step: Step, s': Spec) {
    match step
    case EnableStep(msg) =>
      s' == if || s.immutable || msg.id == RESOURCE_ID_UNKNOWN
               || (msg.id !in s.policies && |s.policies| >= POLICY_MAX_ENTRIES)
            then s else s.(policies := s.policies[msg.id := msg.policy])
    case DisableStep(msg) =>
      s' == if s.immutable || msg.id == RESOURCE_ID_UNKNOWN then s else s.(policies := s.policies - {msg.id})
    case FreezeStep =>
      s' == s.(immutable := true)
    case CrWrite(reg, _, _, _) =>
      && s' == s.(guest := s.guest.WithCr(reg, s'.guest.Cr(reg)))
      && CrOutcome(s.policies, reg, EventOf(s.guest, step), s'.guest.Cr(reg))
    case MsrWrite(ev) =>
      var response := if ev.Told() then WantedResponse(s.policies, ev) else Allow;
      s' == s.(guest := s.guest.WithMsr(ev, response))
  }

  /** The abstract machine is deterministic: the policies fix the value of every write. */
  lemma SpecDeterministic(s: Spec, step: Step, a: Spec, b: Spec)
    requires SpecStep(s, step, a) && SpecStep(s, step, b)
    ensures a == b
  {
    if step.CrWrite? {
      OutcomeUnique(s.policies, step.reg, EventOf(s.guest, step), a.guest.Cr(step.reg), b.guest.Cr(step.reg));
    }
  }

  // ---- What events leave alone ----

  /** Slot by slot the same ids and policies; access counts may differ. */
  ghost predicate SamePolicies(a: seq<Slot>, b: seq<Slot>) {
    |a| == |b| && forall i | 0 <= i < |a| :: b[i].id == a[i].id && b[i].policy == a[i].policy
  }

  lemma SameMap(a: seq<Slot>, b: seq<Slot>)
    requires SamePolicies(a, b) && Unique(a)
    ensures Unique(b) && AsMap(b) == AsMap(a)
  {
    assert Unique(b);
    forall i | 0 <= i < |a| && a[i].Used()
      ensures a[i].id in AsMap(b) && AsMap(b)[a[i].id] == AsMap(a)[a[i].id]
    {
      SlotInMap(a, i);
      SlotInMap(b, i);
    }
    forall id | id in Ids(b)
      ensures id in Ids(a)
    {
      var i :| 0 <= i < |b| && b[i].Used() && b[i].id == id;
      assert a[i].Used();
    }
  }

  lemma {:induction false} SameOccupied(a: seq<Slot>, b: seq<Slot>)
    requires SamePolicies(a, b)
    ensures Occupied(b) == Occupied(a)
  {
    if a == [] {
    } else {
      SameOccupied(a[..|a| - 1], b[..|b| - 1]);
    }
  }

  lemma CrKeepsTable(h: Handler, reg: Reg, ev: CrEvent)
    ensures SamePolicies(h.table.slots, AfterCr(h, reg, ev).table.slots)
    ensures AfterCr(h, reg, ev).table.numEntries == h.table.numEntries
    ensures AfterCr(h, reg, ev).immutable == h.immutable
  {
    if Idle(ev) {
      WhenIdle(h, reg, ev);
    } else {
      WhenScanned(h, reg, ev);
      Counters.TouchKeepsPolicies(reg, ev.current ^ ev.operand, h.table.slots);
    }
  }

  lemma MsrKeepsTable(h: Handler, ev: MsrEvent)
    ensures SamePolicies(h.table.slots, AfterMsr(h, ev).table.slots)
    ensures AfterMsr(h, ev).table.numEntries == h.table.numEntries
    ensures AfterMsr(h, ev).immutable == h.immutable
  {
  }

  lemma EventKeepsTable(m: Machine, step: Step)
    requires step.CrWrite? || step.MsrWrite?
    ensures SamePolicies(m.h.table.slots, Next(m, step).h.table.slots)
    ensures Next(m, step).h.table.numEntries == m.h.table.numEntries
    ensures Next(m, step).h.immutable == m.h.immutable
  {
    if step.CrWrite? {
      CrKeepsTable(m.h, step.reg, EventOf(m.guest, step));
    } else {
      MsrKeepsTable(m.h, step.ev);
    }
  }

  /** Every step is the same step of the abstract machine, and keeps the table's invariant. */
  lemma Simulation(m: Machine, step: Step)
    requires Inv(m.h.table)
    ensures Inv(Next(m, step).h.table)
    ensures SpecStep(Abstract(m), step, Abstract(Next(m, step)))
  {
    var slots := m.h.table.slots;
    match step
    case EnableStep(msg) =>
      if msg.id != RESOURCE_ID_UNKNOWN {
        InsertRefinesUpdate(m.h.table, Slot(msg.id, 0, msg.policy));
      }
    case DisableStep(msg) =>
      if msg.id != RESOURCE_ID_UNKNOWN {
        DeleteRefinesRemoval(m.h.table, msg.id);
      }
    case FreezeStep =>
    case CrWrite(_, _, _, _) =>
      CrStep(m, step);
    case MsrWrite(ev) =>
      EventKeepsTable(m, step);
      SameMap(slots, Next(m, step).h.table.slots);
      SameOccupied(slots, Next(m, step).h.table.slots);
      MsrOutcome(m.h, ev);
  }

  /** A control-register write assigns the value the policies make of it and leaves the policies. */
  lemma CrStep(m: Machine, step: Step)
    requires Inv(m.h.table) && step.CrWrite?
    ensures var m' := Next(m, step);
            && Inv(m'.h.table)
            && Abstract(m') == Abstract(m).(guest := m.guest.WithCr(step.reg, m'.guest.Cr(step.reg)))
            && CrOutcome(AsMap(m.h.table.slots), step.reg, EventOf(m.guest, step), m'.guest.Cr(step.reg))
  {
    var slots, m' := m.h.table.slots, Next(m, step);
    EventKeepsTable(m, step);
    SameMap(slots, m'.h.table.slots);
    SameOccupied(slots, m'.h.table.slots);
    EventOutcome(m.h, step.reg, EventOf(m.guest, step));
  }

  // ---- Runs ----

  function Run(m: Machine, steps: seq<Step>): Machine {
    if steps == [] then m else Next(Run(m, steps[..|steps| - 1]), steps[|steps| - 1])
  }

  lemma {:induction false} RunKeepsInv(m: Machine, steps: seq<Step>)
    requires Inv(m.h.table)
    ensures Inv(Run(m, steps).h.table)
  {
    if steps == [] {
    } else {
      RunKeepsInv(m, steps[..|steps| - 1]);
      Simulation(Run(m, steps[..|steps| - 1]), steps[|steps| - 1]);
    }
  }

  /** The abstract machine gets from s to s' by these steps. */
  ghost predicate SpecRun(s: Spec, steps: seq<Step>, s': Spec)
    decreases |steps|
  {
    if steps == [] then s' == s
    else
      var front := steps[..|steps| - 1];
      exists mid: Spec {:trigger SpecRun(s, front, mid)} ::
        SpecRun(s, front, mid) && SpecStep(mid, steps[|steps| - 1], s')
  }

  /**
   * Refinement of whole runs: from any machine whose table is sound the abstract machine can do
   * the same steps, and ends where the handler and the processor end and nowhere else.
   */
  lemma {:induction false} RunRefines(m: Machine, steps: seq<Step>, s: Spec)
    requires Inv(m.h.table)
    ensures SpecRun(Abstract(m), steps, s) <==> s == Abstract(Run(m, steps))
    decreases |steps|
  {
    if steps == [] {
    } else {
      var front, step := steps[..|steps| - 1], steps[|steps| - 1];
      var mid := Abstract(Run(m, front));
      RunKeepsInv(m, front);
      RunRefines(m, front, mid);
      Simulation(Run(m, front), step);
      if SpecRun(Abstract(m), steps, s) {
        var other: Spec :| SpecRun(Abstract(m), front, other) && SpecStep(other, step, s);
        RunRefines(m, front, other);
        SpecDeterministic(mid, step, s, Abstract(Run(m, steps)));
      }
    }
  }

  /**
   * After any run no two used slots share an id, the entry count is the number of used slots,
   * which is the size of the map, and a delete never meets a count of zero.
   */
  lemma TableInvariant(guest: Guest, steps: seq<Step>)
    ensures var t := Run(Machine(Fresh(), guest), steps).h.table;
            && Unique(t.slots)
            && t.numEntries == Occupied(t.slots) == |AsMap(t.slots)| <= POLICY_MAX_ENTRIES
            && forall id | id in AsMap(t.slots) :: t.numEntries > 0
  {
    EmptyTableInv();
    RunKeepsInv(Machine(Fresh(), guest), steps);
    OccupiedIsSize(Run(Machine(Fresh(), guest), steps).h.table.slots);
  }

  // ---- Freeze ----

  /** Once immutable, no step changes an id, a policy or the entry count. */
  lemma FrozenStep(m: Machine, step: Step)
    requires m.h.immutable
    ensures var t, t' := m.h.table, Next(m, step).h.table;
            Next(m, step).h.immutable && SamePolicies(t.slots, t'.slots) && t'.numEntries == t.numEntries
  {
    if step.CrWrite? || step.MsrWrite? {
      EventKeepsTable(m, step);
    }
  }

  lemma {:induction false} Freeze(m: Machine, steps: seq<Step>)
    requires m.h.immutable
    ensures var t, t' := m.h.table, Run(m, steps).h.table;
            Run(m, steps).h.immutable && SamePolicies(t.slots, t'.slots) && t'.numEntries == t.numEntries
  {
    if steps == [] {
    } else {
      Freeze(m, steps[..|steps| - 1]);
      FrozenStep(Run(m, steps[..|steps| - 1]), steps[|steps| - 1]);
    }
  }

  // ---- Capacity ----

  /** Messages name resources of the table only, as the driver's tables guarantee. */
  predicate InRangeStep(step: Step) {
    step.EnableStep? || step.DisableStep? ==> RESOURCE_ID_START <= step.msg.id < RESOURCE_ID_END
  }

  lemma RangeKept(m: Machine, step: Step)
    requires Inv(m.h.table) && InRange(AsMap(m.h.table.slots)) && InRangeStep(step)
    ensures InRange(AsMap(Next(m, step).h.table.slots))
    ensures step.EnableStep? && !m.h.immutable ==>
              var policies := AsMap(Next(m, step).h.table.slots);
              step.msg.id in policies && policies[step.msg.id] == step.msg.policy
  {
    Simulation(m, step);
    if step.EnableStep? && step.msg.id !in AsMap(m.h.table.slots) {
      RoomForNewId(AsMap(m.h.table.slots), step.msg.id);
    }
  }

  lemma {:induction false} RunInRange(m: Machine, steps: seq<Step>)
    requires Inv(m.h.table) && InRange(AsMap(m.h.table.slots))
    requires forall i | 0 <= i < |steps| :: InRangeStep(steps[i])
    ensures InRange(AsMap(Run(m, steps).h.table.slots))
  {
    if steps == [] {
    } else {
      var front := steps[..|steps| - 1];
      RunInRange(m, front);
      RunKeepsInv(m, front);
      RangeKept(Run(m, front), steps[|steps| - 1]);
    }
  }

  /** The table never fills up: in every run, an enable met while mutable is in force afterwards. */
  lemma EnableTakesEffect(guest: Guest, steps: seq<Step>, msg: Message)
    requires forall i | 0 <= i < |steps| :: InRangeStep(steps[i])
    requires InRangeStep(EnableStep(msg))
    ensures var m := Run(Machine(Fresh(), guest), steps);
            var policies := AsMap(Next(m, EnableStep(msg)).h.table.slots);
            !m.h.immutable ==> msg.id in policies && policies[msg.id] == msg.policy
  {
    var start := Machine(Fresh(), guest);
    EmptyTableInv();
    RunKeepsInv(start, steps);
    RunInRange(start, steps);
    RangeKept(Run(start, steps), EnableStep(msg));
  }

  // ---- Keeping a policy ----

  /** The policy of a resource. */
  ghost predicate HasPolicy(m: Machine, id: u32, p: Policy) {
    id in AsMap(m.h.table.slots) && AsMap(m.h.table.slots)[id] == p
  }

  /** The step leaves the policy: it is about something else, comes too late, or says the same again. */
  ghost predicate Harmless(m: Machine, step: Step, id: u32, p: Policy) {
    !step.About(id) || m.h.immutable || step == EnableStep(Message(id, p))
  }

  /** A policy in force stays in force exactly under harmless steps. */
  lemma KeptStep(m: Machine, step: Step, id: u32, p: Policy)
    requires Inv(m.h.table) && HasPolicy(m, id, p)
    ensures HasPolicy(Next(m, step), id, p) <==> Harmless(m, step, id, p)
  {
    Simulation(m, step);
  }

  /** The policy is in force before and after every step of the run. */
  ghost predicate Kept(m: Machine, steps: seq<Step>, id: u32, p: Policy) {
    forall i | 0 <= i <= |steps| :: HasPolicy(Run(m, steps[..i]), id, p)
  }

  ghost predicate AllHarmless(m: Machine, steps: seq<Step>, id: u32, p: Policy) {
    forall i | 0 <= i < |steps| :: Harmless(Run(m, steps[..i]), steps[i], id, p)
  }

  lemma RunNext(m: Machine, steps: seq<Step>, i: nat)
    requires i < |steps|
    ensures Run(m, steps[..i + 1]) == Next(Run(m, steps[..i]), steps[i])
  {
    assert steps[..i + 1][..i] == steps[..i];
  }

  lemma {:induction false} KeptUpTo(m: Machine, steps: seq<Step>, id: u32, p: Policy, n: nat)
    requires Inv(m.h.table) && HasPolicy(m, id, p) && AllHarmless(m, steps, id, p) && n <= |steps|
    ensures HasPolicy(Run(m, steps[..n]), id, p)
  {
    if n == 0 {
      assert steps[..0] == [];
    } else {
      KeptUpTo(m, steps, id, p, n - 1);
      RunKeepsInv(m, steps[..n - 1]);
      RunNext(m, steps, n - 1);
      KeptStep(Run(m, steps[..n - 1]), steps[n - 1], id, p);
    }
  }

  /** A policy in force stays in force throughout a run, exactly when every step of it is harmless. */
  lemma KeptExactly(m: Machine, steps: seq<Step>, id: u32, p: Policy)
    requires Inv(m.h.table) && HasPolicy(m, id, p)
    ensures Kept(m, steps, id, p) <==> AllHarmless(m, steps, id, p)
  {
    if Kept(m, steps, id, p) {
      forall i | 0 <= i < |steps|
        ensures Harmless(Run(m, steps[..i]), steps[i], id, p)
      {
        RunKeepsInv(m, steps[..i]);
        RunNext(m, steps, i);
        assert HasPolicy(Run(m, steps[..i]), id, p) && HasPolicy(Run(m, steps[..i + 1]), id, p);
        KeptStep(Run(m, steps[..i]), steps[i], id, p);
      }
    }
    if AllHarmless(m, steps, id, p) {
      forall i | 0 <= i <= |steps|
        ensures HasPolicy(Run(m, steps[..i]), id, p)
      {
        KeptUpTo(m, steps, id, p, i);
      }
    }
  }

  // ---- One way ----

  ghost predicate SwitchesAt<T>(s: seq<T>, v: T, k: nat) {
    forall i | 0 <= i < |s| :: s[i] == if i < k then s[0] else v
  }

  /** The first value, up to some point, and v from there on. */
  ghost predicate OneWay<T>(s: seq<T>, v: T) {
    exists k: nat :: SwitchesAt(s, v, k)
  }

  /** Element i + 1 is like the one before it, or v. */
  ghost predicate Follows<T>(s: seq<T>, v: T, i: nat)
    requires i + 1 < |s|
  {
    s[i + 1] == s[i] || s[i + 1] == v
  }

  lemma {:induction false} SwitchPoint<T>(s: seq<T>, v: T) returns (k: nat)
    requires s != []
    requires forall i | 0 <= i < |s| - 1 :: Follows(s, v, i)
    ensures SwitchesAt(s, v, k)
  {
    var n := |s| - 1;
    if n == 0 {
      k := 1;
    } else {
      var front := s[..n];
      assert forall i | 0 <= i < n - 1 :: Follows(s, v, i) ==> Follows(front, v, i);
      k := SwitchPoint(front, v);
      assert forall i | 0 <= i < n :: s[i] == front[i];
      assert Follows(s, v, n - 1);
      if k >= n {
        k := if s[n] == v then n else n + 1;
      }
    }
  }

  /** A list goes one way exactly when every element is like the one before it, or v. */
  lemma OneWayExactly<T>(s: seq<T>, v: T)
    requires s != []
    ensures OneWay(s, v) <==> forall i | 0 <= i < |s| - 1 :: Follows(s, v, i)
  {
    if OneWay(s, v) {
      var k: nat :| SwitchesAt(s, v, k);
    }
    if forall i | 0 <= i < |s| - 1 :: Follows(s, v, i) {
      var k := SwitchPoint(s, v);
    }
  }

  // ---- Sticky bits ----

  /** The bit of a resource in its register. */
  function BitOf(m: Machine, reg: Reg, id: u32): bool {
    Has(m.guest.Cr(reg), Mask(reg, id))
  }

  /** The table holds a sticky policy with this sticky bit for the resource. */
  ghost predicate Pinned(m: Machine, id: u32, v: bool) {
    var policies := AsMap(m.h.table.slots);
    id in policies && policies[id].Sticky() && policies[id].StickyOne() == v
  }

  /**
   * A write against the sticky bit that cannot be read; or whose operand cannot be rewritten
   * although the policies do not want the current value whole.
   */
  ghost predicate Slips(m: Machine, step: Step, reg: Reg, id: u32, v: bool) {
    && step.CrWrite? && step.reg == reg
    && BitOf(m, reg, id) == v && Has(step.operand, Mask(reg, id)) != v
    && (!step.readable
        || (!step.writable
            && !Enforced(AsMap(m.h.table.slots), reg, m.guest.Cr(reg), step.operand, m.guest.Cr(reg))))
  }

  lemma OtherStepsKeepCr(m: Machine, step: Step, reg: Reg)
    requires !(step.CrWrite? && step.reg == reg)
    ensures Next(m, step).guest.Cr(reg) == m.guest.Cr(reg)
  {
  }

  lemma StickyBit(policies: map<u32, Policy>, reg: Reg, id: u32, cur: bv64, req: bv64, r: bv64)
    requires id in policies && policies[id].Sticky() && IsEntryOf(reg, id)
    requires Enforced(policies, reg, cur, req, r)
    ensures Has(r, Mask(reg, id)) == Has(cur, Mask(reg, id)) || Has(r, Mask(reg, id)) == policies[id].StickyOne()
  {
    var m := Mask(reg, id);
    MaskIsOwnBit(reg, id);
    assert SingleBit(m);
    assert Has(r, m) == WantedBit(policies, reg, cur, req, m);
  }

  /** A sticky bit stays or moves to its sticky value, unless the step slips. */
  lemma StickyStep(m: Machine, step: Step, reg: Reg, id: u32, v: bool)
    requires Inv(m.h.table) && Pinned(m, id, v) && IsEntryOf(reg, id)
    ensures BitOf(Next(m, step), reg, id) == BitOf(m, reg, id) || BitOf(Next(m, step), reg, id) == v
       <==> !Slips(m, step, reg, id, v)
  {
    if step.CrWrite? && step.reg == reg {
      var cur, r := m.guest.Cr(reg), Next(m, step).guest.Cr(reg);
      CrStep(m, step);
      if step.readable && step.writable {
        StickyBit(AsMap(m.h.table.slots), reg, id, cur, step.operand, r);
      }
    } else {
      OtherStepsKeepCr(m, step, reg);
    }
  }

  /** The bit before and after every step of the run. */
  function BitsOf(m: Machine, steps: seq<Step>, reg: Reg, id: u32): (bits: seq<bool>)
    ensures |bits| == |steps| + 1
  {
    seq(|steps| + 1, i requires 0 <= i <= |steps| => BitOf(Run(m, steps[..i]), reg, id))
  }

  /** The policy is pinned at the start of every step of the run. */
  ghost predicate AlwaysPinned(m: Machine, steps: seq<Step>, id: u32, v: bool) {
    forall i | 0 <= i < |steps| :: Pinned(Run(m, steps[..i]), id, v)
  }

  lemma StickyAt(m: Machine, steps: seq<Step>, reg: Reg, id: u32, v: bool, i: nat)
    requires Inv(m.h.table) && AlwaysPinned(m, steps, id, v) && IsEntryOf(reg, id)
    requires i < |steps|
    ensures Follows(BitsOf(m, steps, reg, id), v, i) <==> !Slips(Run(m, steps[..i]), steps[i], reg, id, v)
  {
    RunKeepsInv(m, steps[..i]);
    assert Pinned(Run(m, steps[..i]), id, v);
    RunNext(m, steps, i);
    StickyStep(Run(m, steps[..i]), steps[i], reg, id, v);
  }

  /**
   * Sticky safety: over any run in which the resource always has a sticky policy for this value,
   * its bit keeps its first value up to some point and has the sticky value from there on, if
   * and only if no write slips.
   */
  lemma StickySafety(m: Machine, steps: seq<Step>, reg: Reg, id: u32, v: bool)
    requires Inv(m.h.table) && AlwaysPinned(m, steps, id, v) && IsEntryOf(reg, id)
    ensures OneWay(BitsOf(m, steps, reg, id), v)
       <==> forall i | 0 <= i < |steps| :: !Slips(Run(m, steps[..i]), steps[i], reg, id, v)
  {
    OneWayExactly(BitsOf(m, steps, reg, id), v);
    forall i | 0 <= i < |steps|
      ensures Follows(BitsOf(m, steps, reg, id), v, i) <==> !Slips(Run(m, steps[..i]), steps[i], reg, id, v)
    {
      StickyAt(m, steps, reg, id, v, i);
    }
  }

  /** A sticky policy that is kept is pinned. */
  lemma KeptIsPinned(m: Machine, steps: seq<Step>, id: u32, p: Policy)
    requires Kept(m, steps, id, p) && p.Sticky()
    ensures AlwaysPinned(m, steps, id, p.StickyOne())
  {
    forall i | 0 <= i < |steps|
      ensures Pinned(Run(m, steps[..i]), id, p.StickyOne())
    {
      assert HasPolicy(Run(m, steps[..i]), id, p);
    }
  }

  // ---- Sticky model-specific registers ----

  /** What has been written to a model-specific register last, if anything. */
  datatype Content = Unwritten | Value(value: bv64)

  function ContentOf(m: Machine, msr: u32): Content {
    if msr in m.guest.msrs then Value(m.guest.msrs[msr]) else Unwritten
  }

  /**
   * A write to the register that cannot be read, or has the high half of RCX not zero, with a
   * value that is neither the sticky one nor there already.
   */
  predicate MsrSlips(m: Machine, step: Step, msr: u32, sticky: bv64) {
    && step.MsrWrite? && step.ev.Register() == msr && !step.ev.Told()
    && step.ev.Value() != sticky && ContentOf(m, msr) != Value(step.ev.Value())
  }

  lemma ContentAfter(m: Machine, ev: MsrEvent, msr: u32)
    ensures ContentOf(Next(m, MsrWrite(ev)), msr)
         == if ev.Register() == msr && MsrAnswer(m.h, ev) == Allow then Value(ev.Value()) else ContentOf(m, msr)
  {
  }

  lemma MovesTo(content: Content, content': Content, value: bv64, sticky: bv64,
                mine: bool, allowed: bool, told: bool)
    requires content' == if mine && allowed then Value(value) else content
    requires mine && value != sticky && allowed <==> mine && value != sticky && !told
    ensures content' == content || content' == Value(sticky)
       <==> !(mine && !told && value != sticky && content != Value(value))
  {
  }

  lemma StickyMsrStep(m: Machine, step: Step, id: u32, p: Policy)
    requires Inv(m.h.table) && HasPolicy(m, id, p) && p.Sticky() && MsrOf(id) != IA32_MSR_INVALID
    ensures var content, content' := ContentOf(m, MsrOf(id)), ContentOf(Next(m, step), MsrOf(id));
            content' == content || content' == Value(p.sticky) <==> !MsrSlips(m, step, MsrOf(id), p.sticky)
  {
    if step.MsrWrite? {
      var ev, msr := step.ev, MsrOf(id);
      ContentAfter(m, ev, msr);
      StickyMsrEvent(m.h, ev, id);
      MovesTo(ContentOf(m, msr), ContentOf(Next(m, step), msr), ev.Value(), p.sticky,
              ev.Register() == msr, MsrAnswer(m.h, ev) == Allow, ev.Told());
    }
  }

  function ContentsOf(m: Machine, steps: seq<Step>, msr: u32): (contents: seq<Content>)
    ensures |contents| == |steps| + 1
  {
    seq(|steps| + 1, i requires 0 <= i <= |steps| => ContentOf(Run(m, steps[..i]), msr))
  }

  lemma StickyMsrAt(m: Machine, steps: seq<Step>, id: u32, p: Policy, i: nat)
    requires Inv(m.h.table) && Kept(m, steps, id, p) && p.Sticky() && MsrOf(id) != IA32_MSR_INVALID
    requires i < |steps|
    ensures Follows(ContentsOf(m, steps, MsrOf(id)), Value(p.sticky), i)
       <==> !MsrSlips(Run(m, steps[..i]), steps[i], MsrOf(id), p.sticky)
  {
    RunKeepsInv(m, steps[..i]);
    assert HasPolicy(Run(m, steps[..i]), id, p);
    RunNext(m, steps, i);
    StickyMsrStep(Run(m, steps[..i]), steps[i], id, p);
  }

  /**
   * The same for model-specific registers: while a sticky policy is kept, the register keeps its
   * first content up to some point and holds the sticky value from there on, if and only if no
   * event slips.
   */
  lemma StickyMsr(m: Machine, steps: seq<Step>, id: u32, p: Policy)
    requires Inv(m.h.table) && Kept(m, steps, id, p) && p.Sticky() && MsrOf(id) != IA32_MSR_INVALID
    ensures OneWay(ContentsOf(m, steps, MsrOf(id)), Value(p.sticky))
       <==> forall i | 0 <= i < |steps| :: !MsrSlips(Run(m, steps[..i]), steps[i], MsrOf(id), p.sticky)
  {
    OneWayExactly(ContentsOf(m, steps, MsrOf(id)), Value(p.sticky));
    forall i | 0 <= i < |steps|
      ensures Follows(ContentsOf(m, steps, MsrOf(id)), Value(p.sticky), i)
         <==> !MsrSlips(Run(m, steps[..i]), steps[i], MsrOf(id), p.sticky)
    {
      StickyMsrAt(m, steps, id, p, i);
    }
  }

  // ---- Inputs that slip ----

  const STICKY: Policy := Policy(0, 0x80, 0, 0x501, Info(0, 0, 0))

  lemma EnableOnFresh(guest: Guest, id: u32)
    requires RESOURCE_ID_START <= id < RESOURCE_ID_END
    ensures var m := Next(Machine(Fresh(), guest), EnableStep(Message(id, STICKY)));
            Inv(m.h.table) && HasPolicy(m, id, STICKY) && STICKY.Sticky() && m.guest == guest
  {
    EmptyTableInv();
    Simulation(Machine(Fresh(), guest), EnableStep(Message(id, STICKY)));
  }

  /** EFER under a sticky policy, written with zero while RAX cannot be read: zero goes through. */
  lemma UnreadableMsrSlips(guest: Guest)
    requires guest.msrs == map[]
    ensures var m := Next(Machine(Fresh(), guest), EnableStep(Message(29, STICKY)));
            var step := MsrWrite(MsrEvent(0, 0xC000_0080, 0, false));
            HasPolicy(m, 29, STICKY) && MsrSlips(m, step, MsrOf(29), STICKY.sticky)
            && ContentOf(Next(m, step), MsrOf(29)) != Value(STICKY.sticky)
  {
    EnableOnFresh(guest, 29);
    ZeroWord();
    var m := Next(Machine(Fresh(), guest), EnableStep(Message(29, STICKY)));
    StickyMsrStep(m, MsrWrite(MsrEvent(0, 0xC000_0080, 0, false)), 29, STICKY);
  }

  /** The same register written with bit 32 of RCX set: zero goes through although all is read. */
  lemma HighHalfSlips(guest: Guest)
    requires guest.msrs == map[]
    ensures var m := Next(Machine(Fresh(), guest), EnableStep(Message(29, STICKY)));
            var step := MsrWrite(MsrEvent(0, 0x1_C000_0080, 0, true));
            HasPolicy(m, 29, STICKY) && MsrSlips(m, step, MsrOf(29), STICKY.sticky)
            && ContentOf(Next(m, step), MsrOf(29)) != Value(STICKY.sticky)
  {
    EnableOnFresh(guest, 29);
    ZeroWord();
    var m := Next(Machine(Fresh(), guest), EnableStep(Message(29, STICKY)));
    StickyMsrStep(m, MsrWrite(MsrEvent(0, 0x1_C000_0080, 0, true)), 29, STICKY);
  }

  lemma ZeroWord()
    ensures MakeU64(0, 0) != STICKY.sticky
  {
  }

  /** Protected mode under a sticky policy, cleared while CR0 cannot be read: the bit is lost. */
  lemma UnreadableCrSlips(guest: Guest)
    requires guest.cr0 == 1
    ensures var m, step := Next(Machine(Fresh(), guest), EnableStep(Message(1, STICKY))), CrWrite(CR0, 0, false, true);
            && Pinned(m, 1, true) && Slips(m, step, CR0, 1, true)
            && BitOf(m, CR0, 1) && !BitOf(Next(m, step), CR0, 1)
  {
    EnableOnFresh(guest, 1);
    ProtectedMode();
    var m := Next(Machine(Fresh(), guest), EnableStep(Message(1, STICKY)));
    StickyStep(m, CrWrite(CR0, 0, false, true), CR0, 1, true);
  }

  lemma ProtectedMode()
    ensures STICKY.StickyOne() && Has(1, Mask(CR0, 1)) && !Has(0, Mask(CR0, 1))
  {
  }
}
