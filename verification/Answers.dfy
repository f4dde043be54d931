/**
 * What the handler answers, in terms of the message that set a policy: its write action, where
 * 0x80 stands for sticky and 0x02 for skip, and its sticky value.
 */
module Answers {
  import opened Words
  import opened Resources
  import opened PolicyTable
  import opened Enforcement
  import opened MsrPolicy
  import opened PolicyHandler
  import opened PolicyEvents

  // ---- Control registers ----

  /** An answer is a redirect exactly when the policies want the current value and something else was asked for. */
  lemma ScanAnswer(h: Handler, reg: Reg, ev: CrEvent)
    requires Inv(h.table) && !Idle(ev)
    ensures var a, wanted := CrAnswer(h, reg, ev), Wanted(h, reg, ev);
            && Enforced(AsMap(h.table.slots), reg, ev.current, ev.operand, wanted)
            && a == if wanted == ev.current then Answer(Redirect, ev.operand)
                    else Answer(Allow, if ev.writable then wanted else ev.operand)
  {
    WhenScanned(h, reg, ev);
    ScannedValue(h, reg, ev);
    JudgeEnforces(reg, h.table.slots, ev.current, ev.operand, ev.writable, CountEvent(h.TallyOf(reg)));
  }

  lemma XorSelf(x: bv64)
    ensures x ^ x == 0
  {
  }

  lemma SameWords(x: bv64, y: bv64)
    requires x ^ y == 0
    ensures y == x
  {
  }

  lemma IdleWord(ev: CrEvent)
    ensures Idle(ev) <==> !ev.readable || ev.operand == ev.current
  {
    if ev.operand == ev.current {
      XorSelf(ev.current);
    } else if Idle(ev) && ev.readable {
      SameWords(ev.current, ev.operand);
    }
  }

  /**
   * The answer to a write of a control register. It is a redirect, with the operand as it was, if
   * and only if the event is read, asks for another value, and the policies want the current one;
   * else the write is allowed, with the enforced value as its operand if it can be rewritten.
   */
  lemma CrAnswerExactly(h: Handler, reg: Reg, ev: CrEvent)
    requires Inv(h.table)
    ensures var a, policies := CrAnswer(h, reg, ev), AsMap(h.table.slots);
            && (a.response == Redirect
                <==> ev.readable && ev.operand != ev.current
                     && Enforced(policies, reg, ev.current, ev.operand, ev.current))
            && (a.response == Redirect ==> a.operand == ev.operand)
            && (a.response == Allow ==>
                  if ev.readable && ev.writable then Enforced(policies, reg, ev.current, ev.operand, a.operand)
                  else a.operand == ev.operand)
  {
    IdleWord(ev);
    if Idle(ev) {
      WhenIdle(h, reg, ev);
      if ev.readable {
        NothingToEnforce(AsMap(h.table.slots), reg, ev.current);
      }
    } else {
      ScanAnswer(h, reg, ev);
      EnforcedExactly(AsMap(h.table.slots), reg, ev.current, ev.operand, Wanted(h, reg, ev), ev.current);
    }
  }

  /** A policy's word on a changed bit. */
  lemma DecisionSays(p: Policy, cur: bool, req: bool)
    ensures Decision(p, cur, req)
         == if p.writeAction & 0x80 != 0 then p.sticky & 1 != 0 else if p.writeAction & 0x02 != 0 then cur else req
  {
  }

  /**
   * An enforced value, bit by bit: a changed bit of a resource with a policy has the sticky value,
   * or stays, or is as requested, by the policy's write action.
   */
  lemma EnforcedSays(policies: map<u32, Policy>, reg: Reg, cur: bv64, req: bv64, r: bv64, id: u32)
    requires Enforced(policies, reg, cur, req, r) && id in policies && IsEntryOf(reg, id)
    ensures var m, p := Mask(reg, id), policies[id];
            Has(r, m)
            == if Has(cur, m) == Has(req, m) then Has(req, m)
               else if p.writeAction & 0x80 != 0 then p.sticky & 1 != 0
               else if p.writeAction & 0x02 != 0 then Has(cur, m) else Has(req, m)
  {
    var m := Mask(reg, id);
    MaskIsOwnBit(reg, id);
    assert SingleBit(m);
    assert Has(r, m) == WantedBit(policies, reg, cur, req, m);
    DecisionSays(policies[id], Has(cur, m), Has(req, m));
  }

  /** An enforced value has every bit as requested that is no resource with a policy. */
  lemma EnforcedPasses(policies: map<u32, Policy>, reg: Reg, cur: bv64, req: bv64, r: bv64, m: bv64)
    requires Enforced(policies, reg, cur, req, r) && SingleBit(m)
    requires forall id | id in policies && IsEntryOf(reg, id) :: Mask(reg, id) != m
    ensures Has(r, m) == Has(req, m)
  {
    assert Has(r, m) == WantedBit(policies, reg, cur, req, m);
    if Governed(policies, reg, m) {
      MaskIsOwnBit(reg, IdOfBit(reg, m));
    }
  }

  /** These two say all there is to say of an enforced value: no other word meets them. */
  lemma EnforcedIsSaid(policies: map<u32, Policy>, reg: Reg, cur: bv64, req: bv64, r: bv64, r': bv64)
    requires Enforced(policies, reg, cur, req, r)
    requires forall id | id in policies && IsEntryOf(reg, id) :: Has(r', Mask(reg, id)) == Has(r, Mask(reg, id))
    requires forall m: bv64 | SingleBit(m) && !Governed(policies, reg, m) :: Has(r', m) == Has(req, m)
    ensures r' == r
  {
    forall m: bv64 | SingleBit(m)
      ensures Has(r', m) == Has(r, m)
    {
      if Governed(policies, reg, m) {
        MaskIsOwnBit(reg, IdOfBit(reg, m));
      } else {
        assert Has(r, m) == WantedBit(policies, reg, cur, req, m);
      }
    }
    EqualByBits(r', r);
  }

  // ---- Model-specific registers ----

  lemma ResponseSays(p: Policy, value: bv64)
    ensures MsrResponse(p, value) == Redirect
       <==> || (p.writeAction & 0x80 != 0 && value != p.sticky)
            || (p.writeAction & 0x80 == 0 && p.writeAction & 0x02 != 0)
  {
  }

  /** The value of a write has EAX below. */
  lemma LowHalf(hi: bv64, lo: bv64)
    ensures MakeU64(hi, lo) & 0xFFFF_FFFF == lo & 0xFFFF_FFFF
  {
  }

  /** And EDX above. */
  lemma HighHalf(hi: bv64, lo: bv64)
    ensures MakeU64(hi, lo) >> 32 == hi & 0xFFFF_FFFF
  {
  }

  lemma ValueIs(ev: MsrEvent)
    ensures ev.Value() == MakeU64(ev.rdx, ev.rax)
  {
  }

  /**
   * The answer to a write of a model-specific register with a policy, when the handler can tell
   * the register: a redirect if and only if the policy is sticky and the value another than its
   * sticky one, or it is not sticky and says skip.
   */
  lemma MsrAnswerExactly(h: Handler, ev: MsrEvent, id: u32)
    requires Inv(h.table) && ev.readable && ev.rcx < 0x1_0000_0000
    requires id in AsMap(h.table.slots) && MsrOf(id) == ev.rcx && MsrOf(id) != IA32_MSR_INVALID
    ensures var p := AsMap(h.table.slots)[id];
            MsrAnswer(h, ev) == Redirect
            <==> || (p.writeAction & 0x80 != 0 && ev.Value() != p.sticky)
                 || (p.writeAction & 0x80 == 0 && p.writeAction & 0x02 != 0)
  {
    MsrInverse(id);
    MsrOutcome(h, ev);
    ResponseSays(AsMap(h.table.slots)[id], ev.Value());
  }

  /** The answer in every other case: the write is let through. */
  lemma MsrAnswerElse(h: Handler, ev: MsrEvent)
    requires Inv(h.table)
    requires ev.readable ==>
               forall id | id in AsMap(h.table.slots) && MsrOf(id) != IA32_MSR_INVALID :: MsrOf(id) != ev.rcx
    ensures MsrAnswer(h, ev) == Allow
  {
    MsrOutcome(h, ev);
  }

  /** The registers of the resources: EFER, the three of SYSENTER, PAT; STAR, LSTAR and all other ids have none. */
  lemma MsrRegisters(id: u32)
    ensures MsrOf(29) == 0xC000_0080 && MsrOf(32) == 0x174 && MsrOf(33) == 0x175 && MsrOf(34) == 0x176
    ensures MsrOf(35) == 0x277
    ensures id !in {29, 32, 33, 34, 35} ==> MsrOf(id) == IA32_MSR_INVALID == 0
  {
  }

  // ---- The registers' bits ----

  /** The bits of a register that are resources: the defined ones of CR0, and those of CR4 that the handler knows. */
  function DefinedBits(reg: Reg): bv64 {
    if reg.CR0? then 0xE005_003F else 0x0036_67FF
  }

  predicate Lower(a: bv64, b: bv64) {
    a < b
  }

  lemma Cr0Rows(i: nat)
    requires i < |CR0_MASKS|
    ensures Has(CR0_MASKS[i].mask, 0xE005_003F)
    ensures i + 1 < |CR0_MASKS| ==> Lower(CR0_MASKS[i].mask, CR0_MASKS[i + 1].mask)
  {
  }

  lemma Cr4Rows(i: nat)
    requires i < |CR4_MASKS|
    ensures Has(CR4_MASKS[i].mask, 0x0036_67FF)
  {
  }

  lemma Cr4Ascend(i: nat)
    requires i + 1 < |CR4_MASKS|
    ensures Lower(CR4_MASKS[i].mask, CR4_MASKS[i + 1].mask)
  {
  }

  lemma Cr0Defined(m: bv64)
    requires SingleBit(m) && Has(m, 0xE005_003F)
    ensures IsEntryOf(CR0, IdOfBit(CR0, m))
    ensures Mask(CR0, IdOfBit(CR0, m)) == m
  {
  }

  lemma Cr4Defined(m: bv64)
    requires SingleBit(m) && Has(m, 0x0036_67FF)
    ensures IsEntryOf(CR4, IdOfBit(CR4, m))
    ensures Mask(CR4, IdOfBit(CR4, m)) == m
  {
  }

  /**
   * The resources of a register are its defined bits, one each, from the lowest bit to the
   * highest: together this fixes which bit every id stands for.
   */
  lemma BitsOfRegister(reg: Reg, id: u32)
    requires IsEntryOf(reg, id)
    ensures SingleBit(Mask(reg, id)) && Has(Mask(reg, id), DefinedBits(reg))
    ensures IsEntryOf(reg, id + 1) ==> Lower(Mask(reg, id), Mask(reg, id + 1))
  {
    MaskIsOwnBit(reg, id);
    RowsInOrder(reg);
    if reg.CR0? {
      Cr0Rows(id - FirstId(reg));
    } else {
      Cr4Rows(id - FirstId(reg));
      if IsEntryOf(reg, id + 1) {
        Cr4Ascend(id - FirstId(reg));
      }
    }
  }

  lemma DefinedIsResource(reg: Reg, m: bv64)
    requires SingleBit(m) && Has(m, DefinedBits(reg))
    ensures IsEntryOf(reg, IdOfBit(reg, m)) && Mask(reg, IdOfBit(reg, m)) == m
  {
    if reg.CR0? {
      Cr0Defined(m);
    } else {
      Cr4Defined(m);
    }
  }
}
