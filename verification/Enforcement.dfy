/**
 * A write to CR0 or CR4 judged by the policy table: the fold over the slots, and what it
 * does to every bit. One model for both registers, whose code differs in the bits only.
 */
module Enforcement {
  import opened Words
  import opened Resources
  import opened PolicyTable

  datatype Response = Allow | Redirect

  /** The counters of one register: events, and the four outcomes of a policy. */
  datatype Tally = Tally(events: nat, allow: nat, skip: nat, stickyAllow: nat, stickySkip: nat) {
    function Outcomes(): nat { allow + skip + stickyAllow + stickySkip }
  }

  /** The running context of one event. */
  datatype Ctx = Ctx(value: bv64, log: bool, tally: Tally)

  /** What a slot says about a register: the bit it governs, or no bit. */
  datatype Rule = Rule(mask: bv64, policy: Policy) {
    /** The rule applies to this change. */
    predicate Hits(diff: bv64) { Has(mask, diff) }

    /** The value has the bit against the policy's sticky value. */
    predicate AgainstSticky(value: bv64) {
      (Has(value, mask) && !policy.StickyOne()) || (!Has(value, mask) && policy.StickyOne())
    }

    predicate Flips(value: bv64) {
      if policy.Sticky() then AgainstSticky(value) else policy.Skip()
    }
  }

  function RuleOf(reg: Reg, slot: Slot): Rule {
    Rule(if slot.Used() && IsEntryOf(reg, slot.id) then Mask(reg, slot.id) else 0, slot.policy)
  }

  function Rules(reg: Reg, slots: seq<Slot>): (rules: seq<Rule>)
    ensures |rules| == |slots|
  {
    seq(|slots|, i requires 0 <= i < |slots| => RuleOf(reg, slots[i]))
  }

  function FlipIf(value: bv64, mask: bv64, flips: bool): bv64 {
    if flips then value ^ mask else value
  }

  function Count(rule: Rule, value: bv64, t: Tally): Tally {
    if rule.policy.Sticky() then
      if rule.Flips(value) then t.(stickySkip := t.stickySkip + 1) else t.(stickyAllow := t.stickyAllow + 1)
    else if rule.Flips(value) then t.(skip := t.skip + 1)
    else t.(allow := t.allow + 1)
  }

  /** `process_cr0_policy` and `process_cr4_policy`: a rule that does not apply changes nothing. */
  function Process(rule: Rule, diff: bv64, c: Ctx): Ctx {
    var hits := rule.Hits(diff);
    Ctx(FlipIf(c.value, rule.mask, hits && rule.Flips(c.value)),
        c.log || (hits && rule.policy.Logs()),
        if hits then Count(rule, c.value, c.tally) else c.tally)
  }

  /** The context after the first k rules. */
  function Scan(rules: seq<Rule>, diff: bv64, k: nat, c: Ctx): Ctx
    requires k <= |rules|
  {
    if k == 0 then c else Process(rules[k - 1], diff, Scan(rules, diff, k - 1, c))
  }

  /** The slots after an event: every policy that applied counts one access. */
  function Touch(reg: Reg, diff: bv64, slots: seq<Slot>): (r: seq<Slot>)
    ensures |r| == |slots|
  {
    seq(|slots|, i requires 0 <= i < |slots| => TouchOne(reg, diff, slots[i]))
  }

  function TouchOne(reg: Reg, diff: bv64, slot: Slot): Slot {
    if RuleOf(reg, slot).Hits(diff) then slot.(accessCount := slot.accessCount + 1) else slot
  }

  // ---- The meaning: bit by bit ----

  /** What a policy makes of a change of its bit, from the current and the requested bit. */
  function Decision(p: Policy, cur: bool, req: bool): bool {
    if p.Sticky() then p.StickyOne() else if p.Skip() then cur else req
  }

  /** The map has a policy for this bit. */
  predicate Governed(policies: map<u32, Policy>, reg: Reg, m: bv64) {
    IdOfBit(reg, m) in policies && Mask(reg, IdOfBit(reg, m)) == m
  }

  predicate WantedBit(policies: map<u32, Policy>, reg: Reg, cur: bv64, req: bv64, m: bv64) {
    if Has(cur, m) != Has(req, m) && Governed(policies, reg, m) then
      Decision(policies[IdOfBit(reg, m)], Has(cur, m), Has(req, m))
    else Has(req, m)
  }

  /** `r` is the value a write of `req` over `cur` must leave under these policies. */
  ghost predicate Enforced(policies: map<u32, Policy>, reg: Reg, cur: bv64, req: bv64, r: bv64) {
    forall m: bv64 | SingleBit(m) :: Has(r, m) == WantedBit(policies, reg, cur, req, m)
  }

  /** The policies determine the value. */
  lemma EnforcedUnique(policies: map<u32, Policy>, reg: Reg, cur: bv64, req: bv64, r: bv64, r': bv64)
    requires Enforced(policies, reg, cur, req, r) && Enforced(policies, reg, cur, req, r')
    ensures r == r'
  {
    EqualByBits(r, r');
  }

  lemma EnforcedExactly(policies: map<u32, Policy>, reg: Reg, cur: bv64, req: bv64, wanted: bv64, r: bv64)
    requires Enforced(policies, reg, cur, req, wanted)
    ensures Enforced(policies, reg, cur, req, r) <==> r == wanted
  {
    if Enforced(policies, reg, cur, req, r) {
      EnforcedUnique(policies, reg, cur, req, wanted, r);
    }
  }

  lemma FlipIfOther(value: bv64, mask: bv64, flips: bool, m: bv64)
    requires !Has(mask, m)
    ensures Has(FlipIf(value, mask, flips), m) == Has(value, m)
  {
    FlipElsewhere(value, mask, m);
  }

  lemma FlipIfOwn(value: bv64, m: bv64, flips: bool)
    requires SingleBit(m)
    ensures Has(FlipIf(value, m, flips), m) == (Has(value, m) != flips)
  {
    FlipHere(value, m);
  }

  lemma ProcessOther(rule: Rule, diff: bv64, c: Ctx, m: bv64)
    requires !Has(rule.mask, m)
    ensures Has(Process(rule, diff, c).value, m) == Has(c.value, m)
  {
    FlipIfOther(c.value, rule.mask, rule.Hits(diff) && rule.Flips(c.value), m);
  }

  /** A rule decides its own bit, whatever was requested of it. */
  lemma ProcessOwn(rule: Rule, diff: bv64, c: Ctx, cur: bool)
    requires SingleBit(rule.mask) && rule.Hits(diff)
    requires Has(c.value, rule.mask) != cur
    ensures Has(Process(rule, diff, c).value, rule.mask) == Decision(rule.policy, cur, !cur)
  {
    FlipIfOwn(c.value, rule.mask, rule.Hits(diff) && rule.Flips(c.value));
  }

  /** A bit none of the first k rules governs passes through. */
  lemma {:induction false} ScanLeaves(rules: seq<Rule>, diff: bv64, k: nat, c: Ctx, m: bv64)
    requires k <= |rules|
    requires forall i | 0 <= i < k && rules[i].Hits(diff) :: !Has(rules[i].mask, m)
    ensures Has(Scan(rules, diff, k, c).value, m) == Has(c.value, m)
  {
    if k == 0 {
    } else {
      ScanLeaves(rules, diff, k - 1, c, m);
      var before := Scan(rules, diff, k - 1, c);
      if rules[k - 1].Hits(diff) {
        ProcessOther(rules[k - 1], diff, before, m);
      }
    }
  }

  /** A bit that one rule governs and no other gets that rule's decision, wherever the rule stands. */
  lemma {:induction false} ScanDecides(rules: seq<Rule>, diff: bv64, k: nat, j: nat, c: Ctx, cur: bool)
    requires j < k <= |rules| && SingleBit(rules[j].mask) && rules[j].Hits(diff)
    requires forall i | 0 <= i < k && i != j :: !Has(rules[i].mask, rules[j].mask)
    requires Has(c.value, rules[j].mask) != cur
    ensures Has(Scan(rules, diff, k, c).value, rules[j].mask) == Decision(rules[j].policy, cur, !cur)
  {
    var before := Scan(rules, diff, k - 1, c);
    if j == k - 1 {
      ScanLeaves(rules, diff, k - 1, c, rules[j].mask);
      ProcessOwn(rules[j], diff, before, cur);
    } else {
      ScanDecides(rules, diff, k - 1, j, c, cur);
      ProcessOther(rules[k - 1], diff, before, rules[j].mask);
    }
  }

  // ---- The rules of a table ----

  /** Every rule governs one bit or none, and no two rules govern the same bit. */
  ghost predicate Separate(rules: seq<Rule>) {
    && (forall i | 0 <= i < |rules| :: rules[i].mask == 0 || SingleBit(rules[i].mask))
    && (forall i, j | 0 <= i < |rules| && 0 <= j < |rules| && i != j :: !Has(rules[i].mask, rules[j].mask))
  }

  lemma ZeroOrApart(m: bv64, m': bv64)
    requires m == 0 || SingleBit(m)
    requires m' == 0 || SingleBit(m')
    requires m == m' ==> m == 0
    ensures !Has(m, m')
  {
    if m != 0 && m' != 0 {
      BitsApart(m, m');
    }
  }

  lemma RulePair(reg: Reg, a: Slot, b: Slot)
    requires a.id == b.id ==> !a.Used()
    ensures RuleOf(reg, a).mask == 0 || SingleBit(RuleOf(reg, a).mask)
    ensures !Has(RuleOf(reg, a).mask, RuleOf(reg, b).mask)
  {
    MaskIsOwnBit(reg, a.id);
    MaskIsOwnBit(reg, b.id);
    ZeroOrApart(RuleOf(reg, a).mask, RuleOf(reg, b).mask);
  }

  /** Unique ids make separate rules: this is what the invariant of the table is for. */
  lemma UniqueIdsSeparateRules(reg: Reg, slots: seq<Slot>)
    requires Unique(slots)
    ensures Separate(Rules(reg, slots))
  {
    var rules := Rules(reg, slots);
    forall i | 0 <= i < |rules|
      ensures rules[i].mask == 0 || SingleBit(rules[i].mask)
    {
      MaskIsOwnBit(reg, slots[i].id);
    }
    forall i, j | 0 <= i < |rules| && 0 <= j < |rules| && i != j
      ensures !Has(rules[i].mask, rules[j].mask)
    {
      RulePair(reg, slots[i], slots[j]);
    }
  }

  /** A rule that governs a bit is the map's policy for that bit. */
  lemma RuleInMap(reg: Reg, slots: seq<Slot>, j: nat)
    requires Unique(slots) && j < |slots| && RuleOf(reg, slots[j]).mask != 0
    ensures var m := RuleOf(reg, slots[j]).mask;
            Governed(AsMap(slots), reg, m) && AsMap(slots)[IdOfBit(reg, m)] == slots[j].policy
  {
    MaskIsOwnBit(reg, slots[j].id);
    SlotInMap(slots, j);
  }

  lemma MapInRules(reg: Reg, slots: seq<Slot>, m: bv64) returns (j: nat)
    requires Unique(slots) && m != 0 && Governed(AsMap(slots), reg, m)
    ensures j < |slots| && RuleOf(reg, slots[j]).mask == m
  {
    var id := IdOfBit(reg, m);
    MaskIsOwnBit(reg, id);
    j :| 0 <= j < |slots| && slots[j].Used() && slots[j].id == id;
  }

  lemma NoRuleForBit(reg: Reg, slots: seq<Slot>, i: nat, diff: bv64, m: bv64)
    requires Unique(slots) && i < |slots| && SingleBit(m)
    requires !(Has(m, diff) && Governed(AsMap(slots), reg, m))
    requires RuleOf(reg, slots[i]).Hits(diff)
    ensures !Has(RuleOf(reg, slots[i]).mask, m)
  {
    var mask := RuleOf(reg, slots[i]).mask;
    assert mask != 0;
    RuleInMap(reg, slots, i);
    MaskIsOwnBit(reg, slots[i].id);
    ZeroOrApart(mask, m);
  }

  lemma GovernedRule(reg: Reg, slots: seq<Slot>, diff: bv64, c: Ctx, m: bv64, curBit: bool)
    requires Unique(slots) && SingleBit(m) && Governed(AsMap(slots), reg, m)
    requires Has(m, diff) && curBit != Has(c.value, m)
    ensures Has(Scan(Rules(reg, slots), diff, |slots|, c).value, m)
         == Decision(AsMap(slots)[IdOfBit(reg, m)], curBit, Has(c.value, m))
  {
    var rules := Rules(reg, slots);
    UniqueIdsSeparateRules(reg, slots);
    var j := MapInRules(reg, slots, m);
    RuleInMap(reg, slots, j);
    assert rules[j] == RuleOf(reg, slots[j]);
    ScanDecides(rules, diff, |slots|, j, c, curBit);
  }

  lemma GovernedBit(reg: Reg, cur: bv64, req: bv64, slots: seq<Slot>, c: Ctx, m: bv64)
    requires Unique(slots) && SingleBit(m) && c.value == req
    requires Has(cur, m) != Has(req, m) && Governed(AsMap(slots), reg, m)
    ensures Has(Scan(Rules(reg, slots), cur ^ req, |slots|, c).value, m)
         == Decision(AsMap(slots)[IdOfBit(reg, m)], Has(cur, m), Has(req, m))
  {
    DiffBit(cur, req, m);
    GovernedRule(reg, slots, cur ^ req, c, m, Has(cur, m));
  }

  lemma UngovernedBit(reg: Reg, cur: bv64, req: bv64, slots: seq<Slot>, c: Ctx, m: bv64)
    requires Unique(slots) && SingleBit(m) && c.value == req
    requires !(Has(cur, m) != Has(req, m) && Governed(AsMap(slots), reg, m))
    ensures Has(Scan(Rules(reg, slots), cur ^ req, |slots|, c).value, m) == Has(req, m)
  {
    var rules, diff := Rules(reg, slots), cur ^ req;
    DiffBit(cur, req, m);
    forall i | 0 <= i < |slots| && rules[i].Hits(diff)
      ensures !Has(rules[i].mask, m)
    {
      NoRuleForBit(reg, slots, i, diff, m);
    }
    ScanLeaves(rules, diff, |slots|, c, m);
  }

  lemma ScanBit(reg: Reg, cur: bv64, req: bv64, slots: seq<Slot>, c: Ctx, m: bv64)
    requires Unique(slots) && SingleBit(m) && c.value == req
    ensures Has(Scan(Rules(reg, slots), cur ^ req, |slots|, c).value, m) == WantedBit(AsMap(slots), reg, cur, req, m)
  {
    if Has(cur, m) != Has(req, m) && Governed(AsMap(slots), reg, m) {
      GovernedBit(reg, cur, req, slots, c, m);
    } else {
      UngovernedBit(reg, cur, req, slots, c, m);
    }
  }

  /**
   * Per-bit enforcement: with unique ids the fold leaves every one of the 64 bits as the
   * policies want it: an unchanged bit and a bit without a policy as requested, a changed bit
   * by its policy's sticky value, or the current bit, or the requested one.
   */
  lemma ScanEnforces(reg: Reg, cur: bv64, req: bv64, slots: seq<Slot>, c: Ctx)
    requires Unique(slots) && c.value == req
    ensures Enforced(AsMap(slots), reg, cur, req, Scan(Rules(reg, slots), cur ^ req, |slots|, c).value)
  {
    forall m: bv64 | SingleBit(m)
      ensures Has(Scan(Rules(reg, slots), cur ^ req, |slots|, c).value, m) == WantedBit(AsMap(slots), reg, cur, req, m)
    {
      ScanBit(reg, cur, req, slots, c, m);
    }
  }

  /** The order of the slots does not matter: tables of the same policies give the same value. */
  lemma SlotOrderIrrelevant(reg: Reg, cur: bv64, req: bv64, slots: seq<Slot>, slots': seq<Slot>, c: Ctx)
    requires Unique(slots) && Unique(slots') && AsMap(slots) == AsMap(slots') && c.value == req
    ensures Scan(Rules(reg, slots), cur ^ req, |slots|, c).value
         == Scan(Rules(reg, slots'), cur ^ req, |slots'|, c).value
  {
    ScanEnforces(reg, cur, req, slots, c);
    ScanEnforces(reg, cur, req, slots', c);
    EnforcedUnique(AsMap(slots), reg, cur, req, Scan(Rules(reg, slots), cur ^ req, |slots|, c).value,
                   Scan(Rules(reg, slots'), cur ^ req, |slots'|, c).value);
  }

  // ---- The answer to an event ----

  datatype Answer = Answer(response: Response, operand: bv64)

  /** The value in the control register after the answer has been carried out. */
  function Carried(answer: Answer, cur: bv64): bv64 {
    if answer.response.Redirect? then cur else answer.operand
  }

  /** The answer when the fold has come to `wanted`. */
  function Respond(wanted: bv64, cur: bv64, req: bv64, writeSucceeds: bool): Answer {
    if wanted == cur then Answer(Redirect, req)
    else Answer(Allow, if writeSucceeds then wanted else req)
  }

  /** The value the fold comes to. */
  function WantedValue(reg: Reg, slots: seq<Slot>, cur: bv64, req: bv64, tally: Tally): bv64 {
    Scan(Rules(reg, slots), cur ^ req, |slots|, Ctx(req, false, tally)).value
  }

  /** The answer of an event whose reads succeed. */
  function Judge(reg: Reg, slots: seq<Slot>, cur: bv64, req: bv64, writeSucceeds: bool, tally: Tally): Answer {
    if cur ^ req == 0 then Answer(Allow, req)
    else Respond(WantedValue(reg, slots, cur, req, tally), cur, req, writeSucceeds)
  }

  lemma NothingToEnforce(policies: map<u32, Policy>, reg: Reg, cur: bv64)
    ensures Enforced(policies, reg, cur, cur, cur)
  {
  }

  lemma CarriedValue(reg: Reg, slots: seq<Slot>, cur: bv64, req: bv64, writeSucceeds: bool, tally: Tally)
    requires Unique(slots)
    ensures Carried(Judge(reg, slots, cur, req, writeSucceeds, tally), cur)
         == var wanted := WantedValue(reg, slots, cur, req, tally);
            if writeSucceeds || wanted == cur then wanted else req
  {
    DifferentWords(cur, req);
    if cur == req {
      ScanEnforces(reg, cur, req, slots, Ctx(req, false, tally));
      NothingToEnforce(AsMap(slots), reg, cur);
      EnforcedUnique(AsMap(slots), reg, cur, req, WantedValue(reg, slots, cur, req, tally), cur);
    }
  }

  /**
   * Both answers, redirecting and rewriting the operand, assign the enforced value. When the
   * operand cannot be rewritten, the register gets the requested value instead, so the write
   * is enforced then if and only if the policies ask for the current or the requested value.
   */
  lemma JudgeEnforces(reg: Reg, slots: seq<Slot>, cur: bv64, req: bv64, writeSucceeds: bool, tally: Tally)
    requires Unique(slots)
    ensures var wanted := WantedValue(reg, slots, cur, req, tally);
            var after := Carried(Judge(reg, slots, cur, req, writeSucceeds, tally), cur);
            && Enforced(AsMap(slots), reg, cur, req, wanted)
            && (Enforced(AsMap(slots), reg, cur, req, after) <==> writeSucceeds || wanted == cur || wanted == req)
  {
    var wanted := WantedValue(reg, slots, cur, req, tally);
    var after := Carried(Judge(reg, slots, cur, req, writeSucceeds, tally), cur);
    ScanEnforces(reg, cur, req, slots, Ctx(req, false, tally));
    CarriedValue(reg, slots, cur, req, writeSucceeds, tally);
    EnforcedExactly(AsMap(slots), reg, cur, req, wanted, after);
  }
}
