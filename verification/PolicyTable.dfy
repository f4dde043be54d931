/** The policy table as a sequence of slots, and the finite map of policies it stands for. */
module PolicyTable {
  import opened Words
  import opened Resources

  datatype Slot = Slot(id: u32, accessCount: nat, policy: Policy) {
    predicate Used() { id != RESOURCE_ID_UNKNOWN }
  }

  datatype Table = Table(slots: seq<Slot>, numEntries: nat)

  /** An update message: the resource and everything said about it. */
  datatype Message = Message(id: u32, policy: Policy)

  /** `policy_initialize`. */
  function EmptyTable(): Table {
    var nothing := Policy(0, 0, 0, 0, Info(0, 0, 0));
    Table(seq(POLICY_MAX_ENTRIES, _ => Slot(RESOURCE_ID_UNKNOWN, 0, nothing)), 0)
  }

  /** The first slot with this id, or the number of slots. */
  function Find(slots: seq<Slot>, id: u32): (i: nat)
    ensures i <= |slots|
    ensures forall j | 0 <= j < i :: slots[j].id != id
    ensures i < |slots| ==> slots[i].id == id
  {
    FindFrom(slots, id, 0)
  }

  function FindFrom(slots: seq<Slot>, id: u32, i: nat): (k: nat)
    requires i <= |slots| && forall j | 0 <= j < i :: slots[j].id != id
    ensures i <= k <= |slots|
    ensures forall j | 0 <= j < k :: slots[j].id != id
    ensures k < |slots| ==> slots[k].id == id
    decreases |slots| - i
  {
    if i == |slots| || slots[i].id == id then i else FindFrom(slots, id, i + 1)
  }

  /** `policy_entry_add`: overwrite, else take the first free slot, else nothing. */
  function Insert(t: Table, e: Slot): Table {
    var i, free := Find(t.slots, e.id), Find(t.slots, RESOURCE_ID_UNKNOWN);
    if i < |t.slots| then t.(slots := t.slots[i := e])
    else if free < |t.slots| then Table(t.slots[free := e], t.numEntries + 1)
    else t
  }

  /** `policy_entry_del`: free the slot and count down, but not below zero. */
  function Delete(t: Table, id: u32): Table {
    var i := Find(t.slots, id);
    if i < |t.slots| then
      Table(t.slots[i := t.slots[i].(id := RESOURCE_ID_UNKNOWN, accessCount := 0)],
            if t.numEntries != 0 then t.numEntries - 1 else 0)
    else t
  }

  /** `policy_msg_add` and `policy_msg_del` on the table. */
  function AddMessage(t: Table, msg: Message): Table {
    if msg.id == RESOURCE_ID_UNKNOWN then t else Insert(t, Slot(msg.id, 0, msg.policy))
  }

  function DeleteMessage(t: Table, msg: Message): Table {
    if msg.id == RESOURCE_ID_UNKNOWN then t else Delete(t, msg.id)
  }

  /**
   * Where an enable puts its entry: over the first slot of its id, else into the first free slot,
   * else nowhere; with no accesses counted, and every other slot as it was.
   */
  lemma InsertPlace(t: Table, msg: Message, i: nat)
    requires msg.id != RESOURCE_ID_UNKNOWN && i <= |t.slots|
    requires var own := exists j | 0 <= j < |t.slots| :: t.slots[j].id == msg.id;
             var wanted := if own then msg.id else RESOURCE_ID_UNKNOWN;
             && (forall j | 0 <= j < i :: t.slots[j].id != wanted)
             && (i < |t.slots| ==> t.slots[i].id == wanted)
    ensures var t' := AddMessage(t, msg);
            if i == |t.slots| then t' == t
            else
              && t'.slots == t.slots[i := Slot(msg.id, 0, msg.policy)]
              && t'.numEntries == t.numEntries + if t.slots[i].id == msg.id then 0 else 1
  {
    assert i < |t.slots| ==> t.slots[i].id == msg.id || forall j | 0 <= j < |t.slots| :: t.slots[j].id != msg.id;
  }

  /** What a disable leaves: the first slot of its id free, its policy behind, no accesses; or everything as it was. */
  lemma DeletePlace(t: Table, msg: Message, i: nat)
    requires msg.id != RESOURCE_ID_UNKNOWN && i <= |t.slots|
    requires forall j | 0 <= j < i :: t.slots[j].id != msg.id
    requires i < |t.slots| ==> t.slots[i].id == msg.id
    ensures var t' := DeleteMessage(t, msg);
            if i == |t.slots| then t' == t
            else
              && t'.slots == t.slots[i := Slot(RESOURCE_ID_UNKNOWN, 0, t.slots[i].policy)]
              && t'.numEntries == if t.numEntries > 0 then t.numEntries - 1 else 0
  {
  }

  // ---- The invariant and the map ----

  ghost predicate Unique(slots: seq<Slot>) {
    forall i, j | 0 <= i < j < |slots| :: slots[i].id == slots[j].id ==> !slots[i].Used()
  }

  ghost function Occupied(slots: seq<Slot>): nat {
    if slots == [] then 0 else Occupied(slots[..|slots| - 1]) + if slots[|slots| - 1].Used() then 1 else 0
  }

  ghost predicate Inv(t: Table) {
    && |t.slots| == POLICY_MAX_ENTRIES
    && Unique(t.slots)
    && t.numEntries == Occupied(t.slots)
  }

  ghost function Ids(slots: seq<Slot>): set<u32> {
    set i | 0 <= i < |slots| && slots[i].Used() :: slots[i].id
  }

  ghost function AsMap(slots: seq<Slot>): (m: map<u32, Policy>)
    ensures m.Keys == Ids(slots)
  {
    map id | id in Ids(slots) :: slots[Find(slots, id)].policy
  }

  lemma SlotInMap(slots: seq<Slot>, i: nat)
    requires Unique(slots) && i < |slots| && slots[i].Used()
    ensures slots[i].id in AsMap(slots) && AsMap(slots)[slots[i].id] == slots[i].policy
    ensures Find(slots, slots[i].id) == i
  {
    assert slots[i].id in Ids(slots);
  }

  lemma IdsSnoc(front: seq<Slot>, last: Slot)
    ensures Ids(front + [last]) == if last.Used() then Ids(front) + {last.id} else Ids(front)
  {
    var slots := front + [last];
    forall id | id in Ids(front)
      ensures id in Ids(slots)
    {
      var i :| 0 <= i < |front| && front[i].Used() && front[i].id == id;
      assert slots[i] == front[i];
    }
    assert slots[|front|] == last;
  }

  lemma {:induction false} IdsSize(slots: seq<Slot>)
    requires Unique(slots)
    ensures |Ids(slots)| == Occupied(slots)
  {
    if slots == [] {
    } else {
      var front, last := slots[..|slots| - 1], slots[|slots| - 1];
      IdsSize(front);
      assert slots == front + [last];
      IdsSnoc(front, last);
      assert last.Used() ==> last.id !in Ids(front);
    }
  }

  lemma OccupiedIsSize(slots: seq<Slot>)
    requires Unique(slots)
    ensures |AsMap(slots)| == Occupied(slots) <= |slots|
  {
    IdsSize(slots);
    FullWhenNoFree(slots);
    assert |AsMap(slots)| == |AsMap(slots).Keys|;
  }

  lemma {:induction false} OccupiedUpdate(slots: seq<Slot>, i: nat, e: Slot)
    requires i < |slots|
    ensures Occupied(slots[i := e]) + (if slots[i].Used() then 1 else 0)
         == Occupied(slots) + (if e.Used() then 1 else 0)
  {
    var n := |slots| - 1;
    if i == n {
      assert slots[i := e][..n] == slots[..n];
    } else {
      OccupiedUpdate(slots[..n], i, e);
      assert slots[i := e][..n] == slots[..n][i := e];
    }
  }

  lemma {:induction false} FullWhenNoFree(slots: seq<Slot>)
    ensures Occupied(slots) <= |slots|
    ensures Occupied(slots) == |slots| <==> forall i | 0 <= i < |slots| :: slots[i].Used()
  {
    if slots == [] {
    } else {
      FullWhenNoFree(slots[..|slots| - 1]);
    }
  }

  /** Writing one slot: the entry that was there goes, the new one comes, the others stay. */
  lemma WriteIds(slots: seq<Slot>, i: nat, e: Slot)
    requires Unique(slots) && i < |slots|
    requires forall j | 0 <= j < |slots| && j != i :: slots[j].id == e.id ==> !e.Used()
    ensures Unique(slots[i := e])
    ensures Ids(slots[i := e]) == Ids(slots) - {slots[i].id} + if e.Used() then {e.id} else {}
  {
    var slots' := slots[i := e];
    assert forall j | 0 <= j < |slots| && j != i :: slots'[j] == slots[j];
    assert slots'[i] == e;
    forall id | id in Ids(slots) - {slots[i].id}
      ensures id in Ids(slots')
    {
      var j :| 0 <= j < |slots| && slots[j].Used() && slots[j].id == id;
      assert slots'[j] == slots[j];
    }
  }

  /** The map entry of a used slot, whatever the other slots hold. */
  lemma WriteKeeps(slots: seq<Slot>, i: nat, e: Slot, id: u32)
    requires i < |slots| && Unique(slots) && Unique(slots[i := e])
    requires id in Ids(slots) && id != slots[i].id
    ensures id in Ids(slots[i := e]) && AsMap(slots[i := e])[id] == AsMap(slots)[id]
  {
    var j := Find(slots, id);
    SlotInMap(slots, j);
    assert slots[i := e][j] == slots[j];
    SlotInMap(slots[i := e], j);
  }

  /** Writing an entry over its own slot or into a free one is one update of the map. */
  lemma WriteIsUpdate(slots: seq<Slot>, i: nat, e: Slot)
    requires Unique(slots) && i < |slots| && e.Used()
    requires slots[i].id == e.id || (!slots[i].Used() && e.id !in Ids(slots))
    ensures Unique(slots[i := e])
    ensures AsMap(slots[i := e]) == AsMap(slots)[e.id := e.policy]
  {
    WriteIds(slots, i, e);
    SlotInMap(slots[i := e], i);
    forall id | id in Ids(slots) && id != e.id
      ensures AsMap(slots[i := e])[id] == AsMap(slots)[id]
    {
      WriteKeeps(slots, i, e, id);
    }
    SameUpdate(slots, slots[i := e], e.id, e.policy);
  }

  lemma SameUpdate(slots: seq<Slot>, slots': seq<Slot>, x: u32, p: Policy)
    requires Ids(slots') == Ids(slots) + {x} && AsMap(slots')[x] == p
    requires forall id | id in Ids(slots) && id != x :: AsMap(slots')[id] == AsMap(slots)[id]
    ensures AsMap(slots') == AsMap(slots)[x := p]
  {
  }

  /**
   * An insert keeps the invariant and is a map update, except that a new id is dropped when
   * every slot is taken.
   */
  lemma InsertRefinesUpdate(t: Table, e: Slot)
    requires Inv(t) && e.Used()
    ensures Inv(Insert(t, e))
    ensures AsMap(Insert(t, e).slots)
         == var m := AsMap(t.slots); if e.id in m || |m| < POLICY_MAX_ENTRIES then m[e.id := e.policy] else m
  {
    var i, free := Find(t.slots, e.id), Find(t.slots, RESOURCE_ID_UNKNOWN);
    OccupiedIsSize(t.slots);
    FullWhenNoFree(t.slots);
    if i < |t.slots| {
      SlotInMap(t.slots, i);
      OccupiedUpdate(t.slots, i, e);
      WriteIsUpdate(t.slots, i, e);
    } else {
      assert e.id !in Ids(t.slots);
      if free < |t.slots| {
        assert !t.slots[free].Used();
        OccupiedUpdate(t.slots, free, e);
        WriteIsUpdate(t.slots, free, e);
      }
    }
  }

  /** A delete keeps the invariant, never meets the guard of its countdown, and is a map removal. */
  lemma DeleteRefinesRemoval(t: Table, id: u32)
    requires Inv(t) && id != RESOURCE_ID_UNKNOWN
    ensures Inv(Delete(t, id))
    ensures AsMap(Delete(t, id).slots) == AsMap(t.slots) - {id}
    ensures id in AsMap(t.slots) ==> t.numEntries > 0 && Delete(t, id).numEntries == t.numEntries - 1
  {
    var i := Find(t.slots, id);
    if i < |t.slots| {
      var e := t.slots[i].(id := RESOURCE_ID_UNKNOWN, accessCount := 0);
      OccupiedUpdate(t.slots, i, e);
      FreeIsRemoval(t.slots, i, e);
    } else {
      assert id !in Ids(t.slots);
    }
  }

  lemma FreeIsRemoval(slots: seq<Slot>, i: nat, e: Slot)
    requires Unique(slots) && i < |slots| && slots[i].Used() && !e.Used()
    ensures Unique(slots[i := e])
    ensures AsMap(slots[i := e]) == AsMap(slots) - {slots[i].id}
  {
    WriteIds(slots, i, e);
    forall id | id in Ids(slots) && id != slots[i].id
      ensures AsMap(slots[i := e])[id] == AsMap(slots)[id]
    {
      WriteKeeps(slots, i, e, id);
    }
  }

  lemma EmptyTableInv()
    ensures Inv(EmptyTable()) && AsMap(EmptyTable().slots) == map[]
  {
    var slots := EmptyTable().slots;
    OccupiedIsSize(slots);
    assert Ids(slots) == {};
  }

  // ---- Capacity ----

  /** Every id is one of the resources the table has room for. */
  ghost predicate InRange(m: map<u32, Policy>) {
    forall id | id in m :: RESOURCE_ID_START <= id < RESOURCE_ID_END
  }

  lemma {:induction false} RangeSize(ids: set<u32>, lo: nat, hi: nat)
    requires lo <= hi && forall id | id in ids :: lo <= id < hi
    ensures |ids| <= hi - lo
    decreases hi - lo
  {
    if lo < hi {
      RangeSize(ids - {lo}, lo + 1, hi);
      if lo in ids {
        assert |ids| == |ids - {lo}| + 1;
      } else {
        assert ids - {lo} == ids;
      }
    } else {
      assert ids == {};
    }
  }

  /** With ids in range a new one always finds room: the table is as large as the range. */
  lemma RoomForNewId(m: map<u32, Policy>, id: u32)
    requires InRange(m) && RESOURCE_ID_START <= id < RESOURCE_ID_END && id !in m
    ensures |m| < POLICY_MAX_ENTRIES
  {
    RangeSize(m.Keys + {id}, RESOURCE_ID_START, RESOURCE_ID_END);
    assert |m.Keys + {id}| == |m.Keys| + 1;
    assert |m| == |m.Keys|;
  }
}
