/** Resource ids, policies and the bits they stand for. */
module Resources {
  import opened Words

  // RESOURCE_ID: CR0 bits, then CR4 bits, then MSRs.
  const RESOURCE_ID_START: u32 := 1
  const RESOURCE_ID_CR0_PE: u32 := 1
  const RESOURCE_ID_CR0_PG: u32 := 11
  const RESOURCE_ID_CR4_VME: u32 := 12
  const RESOURCE_ID_CR4_SMAP: u32 := 28
  const RESOURCE_ID_END: u32 := 36
  const RESOURCE_ID_UNKNOWN: u32 := 37
  const POLICY_MAX_ENTRIES: nat := 35

  /** resource_info: the register mask and the two CPU masks. */
  datatype Info = Info(mask: bv64, cpuMask1: bv64, cpuMask2: bv64)

  /** What an update message says about a resource. */
  datatype Policy = Policy(readAction: bv32, writeAction: bv32, execAction: bv32, sticky: bv64, info: Info) {
    /** The write action has POLICY_ACT_STICKY, POLICY_ACT_SKIP, POLICY_ACT_LOG. */
    predicate Sticky() { writeAction & 0x80 != 0 }
    predicate Skip() { writeAction & 0x02 != 0 }
    predicate Logs() { writeAction & 0x01 != 0 }

    /** The one bit of the sticky value a control register looks at. */
    predicate StickyOne() { sticky & 1 != 0 }
  }

  datatype Reg = CR0 | CR4

  function FirstId(reg: Reg): u32 {
    if reg.CR0? then RESOURCE_ID_CR0_PE else RESOURCE_ID_CR4_VME
  }

  function LastId(reg: Reg): u32 {
    if reg.CR0? then RESOURCE_ID_CR0_PG else RESOURCE_ID_CR4_SMAP
  }

  /** IS_CR0_ENTRY and IS_CR4_ENTRY. */
  predicate IsEntryOf(reg: Reg, id: u32) {
    FirstId(reg) <= id <= LastId(reg)
  }

  datatype MaskRow = MaskRow(mask: bv64, id: u32)

  const CR0_MASKS: seq<MaskRow> := [
    MaskRow(0x1, 1), MaskRow(0x2, 2), MaskRow(0x4, 3), MaskRow(0x8, 4), MaskRow(0x10, 5), MaskRow(0x20, 6),
    MaskRow(0x1_0000, 7), MaskRow(0x4_0000, 8),
    MaskRow(0x2000_0000, 9), MaskRow(0x4000_0000, 10), MaskRow(0x8000_0000, 11)]

  const CR4_MASKS: seq<MaskRow> := [
    MaskRow(0x1, 12), MaskRow(0x2, 13), MaskRow(0x4, 14), MaskRow(0x8, 15), MaskRow(0x10, 16), MaskRow(0x20, 17),
    MaskRow(0x40, 18), MaskRow(0x80, 19), MaskRow(0x100, 20), MaskRow(0x200, 21), MaskRow(0x400, 22),
    MaskRow(0x2000, 23), MaskRow(0x4000, 24), MaskRow(0x2_0000, 25), MaskRow(0x4_0000, 26),
    MaskRow(0x10_0000, 27), MaskRow(0x20_0000, 28)]

  function Masks(reg: Reg): seq<MaskRow> {
    if reg.CR0? then CR0_MASKS else CR4_MASKS
  }

  /** The bit of a control register a resource id stands for; none for ids of anything else. */
  function Mask(reg: Reg, id: u32): bv64 {
    if IsEntryOf(reg, id) && id - FirstId(reg) < |Masks(reg)| then Masks(reg)[id - FirstId(reg)].mask else 0
  }

  /** The rows stand in the order of their ids, without a gap. */
  lemma RowsInOrder(reg: Reg)
    ensures |Masks(reg)| == LastId(reg) - FirstId(reg) + 1
    ensures forall i | 0 <= i < |Masks(reg)| :: Masks(reg)[i].id == FirstId(reg) + i
  {
  }

  lemma MaskOfRow(reg: Reg, i: nat)
    requires i < |Masks(reg)|
    ensures Mask(reg, Masks(reg)[i].id) == Masks(reg)[i].mask
  {
    RowsInOrder(reg);
  }

  lemma MaskOfNoRow(reg: Reg, id: u32)
    requires forall i | 0 <= i < |Masks(reg)| :: Masks(reg)[i].id != id
    ensures Mask(reg, id) == 0
  {
    RowsInOrder(reg);
  }

  /** `cr0_res_id_to_mask` and `cr4_res_id_to_mask`: the first row with the id, or 0. */
  method ResIdToMask(reg: Reg, id: u32) returns (mask: bv64)
    ensures mask == Mask(reg, id)
  {
    var table := Masks(reg);
    for i := 0 to |table|
      invariant forall j | 0 <= j < i :: table[j].id != id
    {
      if table[i].id == id {
        MaskOfRow(reg, i);
        return table[i].mask;
      }
    }
    MaskOfNoRow(reg, id);
    return 0;
  }

  /** Exactly one bit is set. */
  predicate SingleBit(m: bv64) {
    m != 0 && m & (m - 1) == 0
  }

  /** The id a bit of a register belongs to, read back from the bit. */
  function IdOfBit(reg: Reg, m: bv64): u32 {
    match reg
    case CR0 =>
      if m == 0x1 then 1 else if m == 0x2 then 2 else if m == 0x4 then 3 else if m == 0x8 then 4
      else if m == 0x10 then 5 else if m == 0x20 then 6 else if m == 0x1_0000 then 7 else if m == 0x4_0000 then 8
      else if m == 0x2000_0000 then 9 else if m == 0x4000_0000 then 10 else if m == 0x8000_0000 then 11 else 0
    case CR4 =>
      if m == 0x1 then 12 else if m == 0x2 then 13 else if m == 0x4 then 14 else if m == 0x8 then 15
      else if m == 0x10 then 16 else if m == 0x20 then 17 else if m == 0x40 then 18 else if m == 0x80 then 19
      else if m == 0x100 then 20 else if m == 0x200 then 21 else if m == 0x400 then 22 else if m == 0x2000 then 23
      else if m == 0x4000 then 24 else if m == 0x2_0000 then 25 else if m == 0x4_0000 then 26
      else if m == 0x10_0000 then 27 else if m == 0x20_0000 then 28 else 0
  }

  lemma Cr0Bits(i: nat)
    requires i < |CR0_MASKS|
    ensures SingleBit(CR0_MASKS[i].mask) && IdOfBit(CR0, CR0_MASKS[i].mask) == CR0_MASKS[i].id
  {
  }

  lemma Cr4Bits(i: nat)
    requires i < |CR4_MASKS|
    ensures SingleBit(CR4_MASKS[i].mask) && IdOfBit(CR4, CR4_MASKS[i].mask) == CR4_MASKS[i].id
  {
  }

  lemma RowBits(reg: Reg, i: nat)
    requires i < |Masks(reg)|
    ensures SingleBit(Masks(reg)[i].mask) && IdOfBit(reg, Masks(reg)[i].mask) == FirstId(reg) + i
  {
    RowsInOrder(reg);
    if reg.CR0? {
      Cr0Bits(i);
    } else {
      Cr4Bits(i);
    }
  }

  /** Every resource of a register has one bit of its own; other ids have none. */
  lemma MaskIsOwnBit(reg: Reg, id: u32)
    ensures IsEntryOf(reg, id) <==> Mask(reg, id) != 0
    ensures IsEntryOf(reg, id) ==> SingleBit(Mask(reg, id)) && IdOfBit(reg, Mask(reg, id)) == id
  {
    if IsEntryOf(reg, id) {
      RowsInOrder(reg);
      RowBits(reg, id - FirstId(reg));
    }
  }

  // ---- Words bit by bit ----

  /** x has a bit of m set. */
  predicate Has(x: bv64, m: bv64) {
    x & m != 0
  }

  lemma BitsApart(m: bv64, m': bv64)
    requires SingleBit(m) && SingleBit(m')
    ensures Has(m, m') <==> m == m'
  {
  }

  lemma FlipElsewhere(x: bv64, mask: bv64, m: bv64)
    requires !Has(mask, m)
    ensures Has(x ^ mask, m) == Has(x, m)
  {
  }

  lemma FlipHere(x: bv64, m: bv64)
    requires SingleBit(m)
    ensures Has(x ^ m, m) == !Has(x, m)
  {
  }

  /** A single bit is set in the difference of two words exactly when they disagree on it. */
  lemma DiffBit(x: bv64, y: bv64, m: bv64)
    requires SingleBit(m)
    ensures Has(m, x ^ y) <==> Has(x, m) != Has(y, m)
  {
  }

  lemma DifferentWords(x: bv64, y: bv64)
    ensures x ^ y == 0 <==> x == y
  {
  }

  lemma SomeBit(d: bv64) returns (m: bv64)
    requires d != 0
    ensures SingleBit(m) && Has(m, d)
  {
    m := d & (0 - d);
  }

  /** Words that agree on every single bit are equal. */
  lemma EqualByBits(x: bv64, y: bv64)
    requires forall m: bv64 | SingleBit(m) :: Has(x, m) == Has(y, m)
    ensures x == y
  {
    DifferentWords(x, y);
    if x != y {
      var m := SomeBit(x ^ y);
      DiffBit(x, y, m);
    }
  }
}
