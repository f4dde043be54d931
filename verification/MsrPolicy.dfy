/** Writes to model-specific registers: the first slot for the register decides. */
module MsrPolicy {
  import opened Words
  import opened Resources
  import opened PolicyTable
  import opened Enforcement

  const IA32_MSR_INVALID: u32 := 0

  datatype MsrRow = MsrRow(msr: u32, id: u32)

  const MSR_TABLE: seq<MsrRow> := [
    MsrRow(0xC000_0080, 29),
    MsrRow(0x174, 32), MsrRow(0x175, 33), MsrRow(0x176, 34),
    MsrRow(0x277, 35)]

  /** The register of a resource id: EFER, SYSENTER_CS, _ESP, _EIP and PAT; no other id has one. */
  function MsrOf(id: u32): u32 {
    if id == 29 then 0xC000_0080
    else if id == 32 then 0x174 else if id == 33 then 0x175 else if id == 34 then 0x176
    else if id == 35 then 0x277
    else IA32_MSR_INVALID
  }

  /** The resource id of a register, or None. */
  function IdOfMsr(msr: nat): (id: nat)
    ensures id != 0 ==> id < TWO_32 && MsrOf(id) == msr != IA32_MSR_INVALID
  {
    if msr == 0xC000_0080 then 29
    else if msr == 0x174 then 32 else if msr == 0x175 then 33 else if msr == 0x176 then 34
    else if msr == 0x277 then 35
    else 0
  }

  /** No two resources share a register, and every register of a resource is found back. */
  lemma MsrInverse(id: u32)
    ensures MsrOf(id) != IA32_MSR_INVALID ==> IdOfMsr(MsrOf(id)) == id != RESOURCE_ID_UNKNOWN
  {
  }

  /** `res_id_to_msr`. */
  method ResIdToMsr(id: u32) returns (msr: u32)
    ensures msr == MsrOf(id)
  {
    for i := 0 to |MSR_TABLE|
      invariant forall j | 0 <= j < i :: MSR_TABLE[j].id != id
    {
      if MSR_TABLE[i].id == id {
        return MSR_TABLE[i].msr;
      }
    }
    assert MSR_TABLE[0].id == 29 && MSR_TABLE[1].id == 32 && MSR_TABLE[2].id == 33;
    assert MSR_TABLE[3].id == 34 && MSR_TABLE[4].id == 35;
    return IA32_MSR_INVALID;
  }

  /** `process_msr_policy`: the answer of a policy to a new value. */
  function MsrResponse(p: Policy, value: bv64): Response {
    if p.Sticky() then (if value == p.sticky then Allow else Redirect)
    else if p.Skip() then Redirect
    else Allow
  }

  function MsrCount(p: Policy, value: bv64, t: Tally): Tally {
    if p.Sticky() then
      if value == p.sticky then t.(stickyAllow := t.stickyAllow + 1) else t.(stickySkip := t.stickySkip + 1)
    else if p.Skip() then t.(skip := t.skip + 1)
    else t.(allow := t.allow + 1)
  }

  /** The slot governs this register. */
  predicate Governs(slot: Slot, msr: nat) {
    slot.Used() && MsrOf(slot.id) == msr
  }

  /** The slot the scan stops at, or the number of slots. */
  function FirstFor(slots: seq<Slot>, msr: nat, i: nat): (k: nat)
    requires i <= |slots|
    ensures i <= k <= |slots|
    ensures k < |slots| ==> Governs(slots[k], msr)
    ensures forall j | i <= j < k :: !Governs(slots[j], msr)
    decreases |slots| - i
  {
    if i == |slots| || Governs(slots[i], msr) then i else FirstFor(slots, msr, i + 1)
  }

  /** The answer of the scan. */
  function ScanMsr(slots: seq<Slot>, msr: nat, value: bv64): Response {
    var k := FirstFor(slots, msr, 0);
    if IdOfMsr(msr) != 0 && k < |slots| then MsrResponse(slots[k].policy, value) else Allow
  }

  /** The answer of a map of policies: a lookup of the register's resource. */
  function LookupMsr(policies: map<u32, Policy>, msr: nat, value: bv64): Response {
    if IdOfMsr(msr) != 0 && IdOfMsr(msr) in policies then MsrResponse(policies[IdOfMsr(msr)], value) else Allow
  }

  /**
   * Stopping at the first match is a lookup: with unique ids the answer depends on the map of
   * policies alone, not on the order of the slots, and resources without a register never
   * take part in it.
   */
  lemma ScanIsLookup(slots: seq<Slot>, msr: nat, value: bv64)
    requires Unique(slots)
    ensures ScanMsr(slots, msr, value) == LookupMsr(AsMap(slots), msr, value)
  {
    var k, id := FirstFor(slots, msr, 0), IdOfMsr(msr);
    if id != 0 {
      if k < |slots| {
        MsrInverse(slots[k].id);
        SlotInMap(slots, k);
      } else {
        forall j | 0 <= j < |slots| && slots[j].Used()
          ensures slots[j].id != id
        {
          assert !Governs(slots[j], msr);
        }
      }
    }
  }

  /** MAKE_U64. */
  function MakeU64(hi: bv64, lo: bv64): bv64 {
    ((hi & 0xFFFF_FFFF) << 32) | (lo & 0xFFFF_FFFF)
  }

  /** The slots after the event: the one the scan stopped at counts an access. */
  function TouchMsr(slots: seq<Slot>, msr: nat): (r: seq<Slot>)
    ensures |r| == |slots|
  {
    var k := FirstFor(slots, msr, 0);
    if IdOfMsr(msr) != 0 && k < |slots| then slots[k := slots[k].(accessCount := slots[k].accessCount + 1)] else slots
  }
}
