/** Policies that skip, and policies that only allow, over runs. */
module SkipRuns {
  import opened Words
  import opened Resources
  import opened PolicyTable
  import opened Enforcement
  import opened MsrPolicy
  import opened PolicyHandler
  import opened PolicyEvents
  import opened PolicyRuns
  import opened Answers

  /** The write action has skip and not sticky. */
  predicate OnlySkips(p: Policy) {
    p.writeAction & 0x80 == 0 && p.writeAction & 0x02 != 0
  }

  // ---- Control registers ----

  /** A bit under a skip policy stays as it is, unless the write slips. */
  lemma SkipBit(m: Machine, step: Step, reg: Reg, id: u32, p: Policy)
    requires Inv(m.h.table) && HasPolicy(m, id, p) && OnlySkips(p) && IsEntryOf(reg, id)
    ensures BitOf(Next(m, step), reg, id) == BitOf(m, reg, id) <==> !Slips(m, step, reg, id, BitOf(m, reg, id))
  {
    if step.CrWrite? && step.reg == reg {
      CrStep(m, step);
      if step.readable && step.writable {
        EnforcedSays(AsMap(m.h.table.slots), reg, m.guest.Cr(reg), step.operand, Next(m, step).guest.Cr(reg), id);
      }
    } else {
      OtherStepsKeepCr(m, step, reg);
    }
  }

  lemma SkipBitAt(m: Machine, steps: seq<Step>, reg: Reg, id: u32, p: Policy, i: nat)
    requires Inv(m.h.table) && Kept(m, steps, id, p) && OnlySkips(p) && IsEntryOf(reg, id) && i < |steps|
    ensures SameAt(BitsOf(m, steps, reg, id), i)
       <==> !Slips(Run(m, steps[..i]), steps[i], reg, id, BitOf(Run(m, steps[..i]), reg, id))
  {
    RunKeepsInv(m, steps[..i]);
    assert HasPolicy(Run(m, steps[..i]), id, p);
    RunNext(m, steps, i);
    SkipBit(Run(m, steps[..i]), steps[i], reg, id, p);
  }

  /** Over any run in which a skip policy is kept, its bit never changes, if and only if no write slips. */
  lemma SkipSafety(m: Machine, steps: seq<Step>, reg: Reg, id: u32, p: Policy)
    requires Inv(m.h.table) && Kept(m, steps, id, p) && OnlySkips(p) && IsEntryOf(reg, id)
    ensures Constant(BitsOf(m, steps, reg, id))
       <==> forall i | 0 <= i < |steps| ::
              !Slips(Run(m, steps[..i]), steps[i], reg, id, BitOf(Run(m, steps[..i]), reg, id))
  {
    ConstantExactly(BitsOf(m, steps, reg, id));
    forall i | 0 <= i < |steps|
      ensures SameAt(BitsOf(m, steps, reg, id), i)
         <==> !Slips(Run(m, steps[..i]), steps[i], reg, id, BitOf(Run(m, steps[..i]), reg, id))
    {
      SkipBitAt(m, steps, reg, id, p, i);
    }
  }

  ghost predicate Constant<T>(s: seq<T>) {
    forall i | 0 <= i < |s| :: s[i] == s[0]
  }

  ghost predicate SameAt<T>(s: seq<T>, i: nat)
    requires i + 1 < |s|
  {
    s[i + 1] == s[i]
  }

  lemma {:induction false} ConstantUpTo<T>(s: seq<T>, n: nat)
    requires n < |s| && forall i | 0 <= i < |s| - 1 :: SameAt(s, i)
    ensures s[n] == s[0]
  {
    if n == 0 {
    } else {
      ConstantUpTo(s, n - 1);
      assert SameAt(s, n - 1);
    }
  }

  lemma ConstantExactly<T>(s: seq<T>)
    ensures Constant(s) <==> forall i | 0 <= i < |s| - 1 :: SameAt(s, i)
  {
    if forall i | 0 <= i < |s| - 1 :: SameAt(s, i) {
      forall i | 0 <= i < |s|
        ensures s[i] == s[0]
      {
        ConstantUpTo(s, i);
      }
    }
  }

  // ---- Model-specific registers ----

  /**
   * What a write to a register with a policy leaves in it: the value written if the handler
   * cannot tell the register or the policy has nothing against the value, else what was there.
   */
  lemma MsrMoves(m: Machine, ev: MsrEvent, id: u32, p: Policy)
    requires Inv(m.h.table) && HasPolicy(m, id, p) && MsrOf(id) != IA32_MSR_INVALID
    requires ev.rcx % 0x1_0000_0000 == MsrOf(id)
    ensures ContentOf(Next(m, MsrWrite(ev)), MsrOf(id))
         == if ev.readable && ev.rcx < 0x1_0000_0000
               && ((p.writeAction & 0x80 != 0 && ev.Value() != p.sticky) || OnlySkips(p))
            then ContentOf(m, MsrOf(id)) else Value(ev.Value())
  {
    ContentAfter(m, ev, MsrOf(id));
    if ev.Told() {
      MsrAnswerExactly(m.h, ev, id);
    } else {
      MsrOutcome(m.h, ev);
    }
  }

  /** A write to a register under a skip policy that the handler cannot tell, of a new value. */
  predicate SkipSlips(m: Machine, step: Step, msr: u32) {
    && step.MsrWrite? && step.ev.rcx % 0x1_0000_0000 == msr
    && !(step.ev.readable && step.ev.rcx < 0x1_0000_0000)
    && ContentOf(m, msr) != Value(step.ev.Value())
  }

  lemma StaysOrTakes(content: Content, content': Content, value: bv64, told: bool)
    requires content' == if told then content else Value(value)
    ensures content' == content <==> told || content == Value(value)
  {
  }

  lemma SkipMsrStep(m: Machine, step: Step, id: u32, p: Policy)
    requires Inv(m.h.table) && HasPolicy(m, id, p) && OnlySkips(p) && MsrOf(id) != IA32_MSR_INVALID
    ensures ContentOf(Next(m, step), MsrOf(id)) == ContentOf(m, MsrOf(id)) <==> !SkipSlips(m, step, MsrOf(id))
  {
    if step.MsrWrite? {
      if step.ev.Register() == MsrOf(id) {
        MsrMoves(m, step.ev, id, p);
        StaysOrTakes(ContentOf(m, MsrOf(id)), ContentOf(Next(m, step), MsrOf(id)), step.ev.Value(), step.ev.Told());
      } else {
        ContentAfter(m, step.ev, MsrOf(id));
      }
    }
  }

  lemma SkipMsrAt(m: Machine, steps: seq<Step>, id: u32, p: Policy, i: nat)
    requires Inv(m.h.table) && Kept(m, steps, id, p) && OnlySkips(p) && MsrOf(id) != IA32_MSR_INVALID && i < |steps|
    ensures SameAt(ContentsOf(m, steps, MsrOf(id)), i) <==> !SkipSlips(Run(m, steps[..i]), steps[i], MsrOf(id))
  {
    RunKeepsInv(m, steps[..i]);
    assert HasPolicy(Run(m, steps[..i]), id, p);
    RunNext(m, steps, i);
    SkipMsrStep(Run(m, steps[..i]), steps[i], id, p);
  }

  /** Over any run in which a skip policy is kept, its register never changes, if and only if no write slips. */
  lemma SkipMsr(m: Machine, steps: seq<Step>, id: u32, p: Policy)
    requires Inv(m.h.table) && Kept(m, steps, id, p) && OnlySkips(p) && MsrOf(id) != IA32_MSR_INVALID
    ensures Constant(ContentsOf(m, steps, MsrOf(id)))
       <==> forall i | 0 <= i < |steps| :: !SkipSlips(Run(m, steps[..i]), steps[i], MsrOf(id))
  {
    ConstantExactly(ContentsOf(m, steps, MsrOf(id)));
    forall i | 0 <= i < |steps|
      ensures SameAt(ContentsOf(m, steps, MsrOf(id)), i) <==> !SkipSlips(Run(m, steps[..i]), steps[i], MsrOf(id))
    {
      SkipMsrAt(m, steps, id, p, i);
    }
  }
}
