/** What an event counts: outcomes, accesses and calls of the logger. */
module Counters {
  import opened Words
  import opened Resources
  import opened PolicyTable
  import opened Enforcement

  /** Which rules apply to a change. */
  ghost function Applied(rules: seq<Rule>, diff: bv64): (flags: seq<bool>)
    ensures |flags| == |rules|
  {
    seq(|rules|, i requires 0 <= i < |rules| => rules[i].Hits(diff))
  }

  ghost function Trues(flags: seq<bool>, k: nat): nat
    requires k <= |flags|
  {
    if k == 0 then 0 else Trues(flags, k - 1) + if flags[k - 1] then 1 else 0
  }

  ghost function AccessSum(slots: seq<Slot>): nat {
    if slots == [] then 0 else AccessSum(slots[..|slots| - 1]) + slots[|slots| - 1].accessCount
  }

  /** Every rule that applies is counted under exactly one outcome. */
  lemma {:induction false} ScanCounts(rules: seq<Rule>, diff: bv64, k: nat, c: Ctx)
    requires k <= |rules|
    ensures Scan(rules, diff, k, c).tally.Outcomes() == c.tally.Outcomes() + Trues(Applied(rules, diff), k)
    ensures Scan(rules, diff, k, c).tally.events == c.tally.events
  {
    if k == 0 {
    } else {
      ScanCounts(rules, diff, k - 1, c);
    }
  }

  /** The logger is asked for exactly when a policy that applies has the log action. */
  lemma {:induction false} ScanLogs(rules: seq<Rule>, diff: bv64, k: nat, c: Ctx)
    requires k <= |rules|
    ensures Scan(rules, diff, k, c).log
       <==> c.log || exists i | 0 <= i < k :: rules[i].Hits(diff) && rules[i].policy.Logs()
  {
    if k == 0 {
    } else {
      ScanLogs(rules, diff, k - 1, c);
    }
  }

  lemma {:induction false} AccessesRise(slots: seq<Slot>, slots': seq<Slot>, flags: seq<bool>)
    requires |slots| == |slots'| == |flags|
    requires forall i | 0 <= i < |slots| :: slots'[i].accessCount == slots[i].accessCount + if flags[i] then 1 else 0
    ensures AccessSum(slots') == AccessSum(slots) + Trues(flags, |flags|)
  {
    if slots == [] {
    } else {
      var n := |slots| - 1;
      AccessesRise(slots[..n], slots'[..n], flags[..n]);
      TruesPrefix(flags, n);
    }
  }

  lemma TruesPrefix(flags: seq<bool>, n: nat)
    requires n <= |flags|
    ensures forall k | 0 <= k <= n :: Trues(flags[..n], k) == Trues(flags, k)
  {
    for k := 0 to n
      invariant forall j | 0 <= j <= k :: Trues(flags[..n], j) == Trues(flags, j)
    {
    }
  }

  /** The resources of a register with a policy and a changed bit; each stands for one bit. */
  ghost function ChangedResources(policies: map<u32, Policy>, reg: Reg, diff: bv64): set<u32> {
    set id | id in policies && IsEntryOf(reg, id) && Has(Mask(reg, id), diff)
  }

  ghost function HitIds(slots: seq<Slot>, flags: seq<bool>, k: nat): set<u32>
    requires k <= |slots| == |flags|
  {
    set i | 0 <= i < k && flags[i] :: slots[i].id
  }

  lemma {:induction false} HitIdsSize(slots: seq<Slot>, flags: seq<bool>, k: nat)
    requires Unique(slots) && k <= |slots| == |flags|
    requires forall i | 0 <= i < |slots| && flags[i] :: slots[i].Used()
    ensures |HitIds(slots, flags, k)| == Trues(flags, k)
  {
    if k == 0 {
    } else {
      HitIdsSize(slots, flags, k - 1);
      var before, last := HitIds(slots, flags, k - 1), slots[k - 1];
      assert HitIds(slots, flags, k) == if flags[k - 1] then before + {last.id} else before;
      assert flags[k - 1] ==> last.id !in before;
    }
  }

  lemma NoRuleNoHit(rule: Rule, diff: bv64)
    ensures rule.mask == 0 ==> !rule.Hits(diff)
  {
  }

  /** A rule applies exactly when its resource is used and its bit changes. */
  lemma AppliedSlot(reg: Reg, slot: Slot, diff: bv64)
    ensures RuleOf(reg, slot).Hits(diff) <==> slot.Used() && IsEntryOf(reg, slot.id) && Has(Mask(reg, slot.id), diff)
  {
    NoRuleNoHit(RuleOf(reg, slot), diff);
  }

  lemma HitIdsAreChanged(reg: Reg, slots: seq<Slot>, diff: bv64)
    requires Unique(slots)
    ensures var flags := Applied(Rules(reg, slots), diff);
            && HitIds(slots, flags, |slots|) == ChangedResources(AsMap(slots), reg, diff)
            && forall i | 0 <= i < |slots| && flags[i] :: slots[i].Used()
  {
    var flags := Applied(Rules(reg, slots), diff);
    var hits, changed := HitIds(slots, flags, |slots|), ChangedResources(AsMap(slots), reg, diff);
    forall i | 0 <= i < |slots|
      ensures flags[i] <==> slots[i].Used() && slots[i].id in changed
    {
      AppliedSlot(reg, slots[i], diff);
      if slots[i].Used() {
        SlotInMap(slots, i);
      }
    }
    forall id | id in changed
      ensures id in hits
    {
      var i :| 0 <= i < |slots| && slots[i].Used() && slots[i].id == id;
      assert flags[i];
    }
  }

  /**
   * Conservation: an event adds the number of changed bits that have a policy to the sum of
   * the outcome counters, and the same number to the sum of the access counts.
   */
  lemma EventCounts(reg: Reg, slots: seq<Slot>, diff: bv64, c: Ctx)
    requires Unique(slots)
    ensures var n := |ChangedResources(AsMap(slots), reg, diff)|;
            && Scan(Rules(reg, slots), diff, |slots|, c).tally.Outcomes() == c.tally.Outcomes() + n
            && AccessSum(Touch(reg, diff, slots)) == AccessSum(slots) + n
  {
    var flags := Applied(Rules(reg, slots), diff);
    HitIdsAreChanged(reg, slots, diff);
    HitIdsSize(slots, flags, |slots|);
    ScanCounts(Rules(reg, slots), diff, |slots|, c);
    AccessesRise(slots, Touch(reg, diff, slots), flags);
  }

  /** The logger is asked for exactly when a changed bit has a policy with the log action. */
  lemma EventLogs(reg: Reg, slots: seq<Slot>, diff: bv64, c: Ctx)
    requires Unique(slots) && !c.log
    ensures Scan(Rules(reg, slots), diff, |slots|, c).log
       <==> exists id :: id in ChangedResources(AsMap(slots), reg, diff) && AsMap(slots)[id].Logs()
  {
    var rules, changed := Rules(reg, slots), ChangedResources(AsMap(slots), reg, diff);
    ScanLogs(rules, diff, |slots|, c);
    if i :| 0 <= i < |slots| && rules[i].Hits(diff) && rules[i].policy.Logs() {
      AppliedSlot(reg, slots[i], diff);
      SlotInMap(slots, i);
      assert slots[i].id in changed;
    }
    if id :| id in changed && AsMap(slots)[id].Logs() {
      var i :| 0 <= i < |slots| && slots[i].Used() && slots[i].id == id;
      AppliedSlot(reg, slots[i], diff);
      SlotInMap(slots, i);
      assert rules[i].Hits(diff) && rules[i].policy.Logs();
    }
  }

  /** Touching the slots leaves everything but the access counts. */
  lemma TouchKeepsPolicies(reg: Reg, diff: bv64, slots: seq<Slot>)
    ensures forall i | 0 <= i < |slots| ::
              Touch(reg, diff, slots)[i].id == slots[i].id && Touch(reg, diff, slots)[i].policy == slots[i].policy
  {
  }
}
