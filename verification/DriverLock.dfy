/**
 * The driver's side of a policy: items that users make and remove, each for one CR0 resource,
 * whose attributes are stored one by one, and which lock once a sticky policy has been sent.
 * With the handler this makes a sticky policy permanent, as long as no other item speaks for
 * the same resource.
 */
module DriverLock {
  import opened Words
  import opened Resources
  import opened PolicyTable
  import opened PolicyHandler
  import opened PolicyRuns

  // ---- Names ----

  datatype Bit = Bit(name: string, mask: bv64, id: u32)

  /** `cr0_bits`, without its terminator. */
  const CR0_BITS: seq<Bit> := [
    Bit("PE", 0x1, 1), Bit("MP", 0x2, 2), Bit("EM", 0x4, 3), Bit("TS", 0x8, 4), Bit("ET", 0x10, 5), Bit("NE", 0x20, 6),
    Bit("WP", 0x1_0000, 7), Bit("AM", 0x4_0000, 8),
    Bit("NW", 0x2000_0000, 9), Bit("CD", 0x4000_0000, 10), Bit("PG", 0x8000_0000, 11)]

  function LowerCase(c: char): char {
    if 'A' <= c <= 'Z' then (c as int + 32) as char else c
  }

  /** `strcasecmp` finds no difference. */
  predicate SameName(a: string, b: string) {
    |a| == |b| && forall i | 0 <= i < |a| :: LowerCase(a[i]) == LowerCase(b[i])
  }

  /** The row of a name, or none; the search is from the front. */
  function RowFrom(name: string, i: nat): (row: int)
    requires i <= |CR0_BITS|
    ensures row == -1 || (i <= row < |CR0_BITS| && SameName(CR0_BITS[row].name, name))
    ensures row == -1 ==> forall j | i <= j < |CR0_BITS| :: !SameName(CR0_BITS[j].name, name)
    decreases |CR0_BITS| - i
  {
    if i == |CR0_BITS| then -1 else if SameName(CR0_BITS[i].name, name) then i else RowFrom(name, i + 1)
  }

  function Row(name: string): int {
    RowFrom(name, 0)
  }

  /** The resource a name stands for; 0 stands for none. */
  function IdOf(name: string): u32 {
    if Row(name) == -1 then 0 else CR0_BITS[Row(name)].id
  }

  /** `valid_cr0_attr`. */
  method ValidCr0Attr(name: string) returns (row: int)
    ensures row == Row(name)
  {
    for i := 0 to |CR0_BITS|
      invariant RowFrom(name, i) == Row(name)
    {
      if SameName(CR0_BITS[i].name, name) {
        return i;
      }
    }
    return -1;
  }

  /** The driver's table names the resources of CR0, each with the handler's bit. */
  lemma TablesAgree(row: nat)
    requires row < |CR0_BITS|
    ensures CR0_BITS[row].id == row + 1 && IsEntryOf(CR0, CR0_BITS[row].id)
    ensures CR0_BITS[row].mask == Mask(CR0, CR0_BITS[row].id)
  {
    assert Masks(CR0) == CR0_MASKS && |CR0_MASKS| == 11;
    assert CR0_BITS[row].mask == CR0_MASKS[row].mask;
  }

  lemma NameHasResource(name: string)
    requires Row(name) != -1
    ensures IsEntryOf(CR0, IdOf(name)) && RESOURCE_ID_START <= IdOf(name) < RESOURCE_ID_END
  {
    TablesAgree(Row(name));
  }

  /** Names in capitals and in small letters stand for the same resource. */
  lemma TwoNames()
    ensures Row("PE") == Row("pe") == 0 && IdOf("PE") == IdOf("pe") == 1
  {
    assert SameName(CR0_BITS[0].name, "PE") && SameName(CR0_BITS[0].name, "pe");
    assert Row("PE") == 0 && Row("pe") == 0;
  }

  // ---- One item ----

  /** A written attribute: the number it parses to, or none. */
  datatype Text = NotANumber | Number(value: bv64)

  datatype Result = Stored | NotPermitted | Invalid

  /** What becomes of the message of a store: whether the handler acts on it, and whether it says so. */
  datatype Hypercall = Hypercall(acted: bool, success: bool)

  /** `struct cr0_cfg`; the write action keeps 8 bits. */
  datatype Item = Item(enable: bool, locked: bool, write: bv8, sticky: bv64)

  const NEW_ITEM: Item := Item(false, false, 0, 0)

  predicate StickyAction(write: bv8) {
    write & 0x80 != 0
  }

  function LowByte(value: bv64): bv8 {
    (value & 0xFF) as bv8
  }

  function StoreWrite(item: Item, text: Text): (Item, Result) {
    if item.locked then (item, NotPermitted)
    else if text.NotANumber? then (item, Invalid)
    else (item.(write := LowByte(text.value)), Stored)
  }

  function StoreSticky(item: Item, text: Text): (Item, Result) {
    if item.locked then (item, NotPermitted)
    else if text.NotANumber? then (item, Invalid)
    else (item.(sticky := text.value), Stored)
  }

  /** A failed message is not reported to the writer of the attribute. */
  function StoreEnable(item: Item, text: Text, call: Hypercall): (Item, Result) {
    if text.NotANumber? then (item, Invalid)
    else if item.locked then (item, NotPermitted)
    else if call.success then
      (item.(enable := text.value != 0, locked := StickyAction(item.write)), Stored)
    else (item, Stored)
  }

  const ALL_CPUS: bv64 := 0xFFFF_FFFF_FFFF_FFFF

  /** `policy_set_cr0` fills in the write action, the sticky value, the bit and all CPUs. */
  function PolicyOf(id: u32, item: Item): Policy {
    Policy(0, item.write as bv32, 0, item.sticky, Info(Mask(CR0, id), ALL_CPUS, ALL_CPUS))
  }

  /** The message the handler acts on, if any. */
  function SentBy(id: u32, item: Item, text: Text, call: Hypercall): seq<Step> {
    if text.Number? && !item.locked && call.acted then
      var msg := Message(id, PolicyOf(id, item));
      [if text.value != 0 then EnableStep(msg) else DisableStep(msg)]
    else []
  }

  /** The handler after the message, if one was sent. */
  function HandledBy(h: Handler, sent: seq<Step>): Handler {
    if sent == [] then h
    else if sent[0].EnableStep? then Enable(h, sent[0].msg)
    else if sent[0].DisableStep? then Disable(h, sent[0].msg)
    else h
  }

  lemma StickyPolicy(id: u32, item: Item)
    ensures PolicyOf(id, item).Sticky() <==> StickyAction(item.write)
  {
  }

  class CfgItem {
    const name: string
    var enable: bool
    var locked: bool
    var write: bv8
    var sticky: bv64

    function View(): Item
      reads this
    {
      Item(enable, locked, write, sticky)
    }

    constructor (name: string)
      ensures this.name == name && View() == NEW_ITEM
    {
      this.name := name;
      enable, locked, write, sticky := false, false, 0, 0;
    }

    /** `cr0_cfg_store_write`. */
    method SetWrite(text: Text) returns (result: Result)
      modifies this`write
      ensures (View(), result) == StoreWrite(old(View()), text)
    {
      if locked {
        return NotPermitted;
      }
      if text.NotANumber? {
        return Invalid;
      }
      write := LowByte(text.value);
      return Stored;
    }

    /** `cr0_cfg_store_sticky_value`. */
    method SetSticky(text: Text) returns (result: Result)
      modifies this`sticky
      ensures (View(), result) == StoreSticky(old(View()), text)
    {
      if locked {
        return NotPermitted;
      }
      if text.NotANumber? {
        return Invalid;
      }
      sticky := text.value;
      return Stored;
    }

    /** The message of an item: everything is from the item and its row of the table. */
    method BuildMessage(row: nat) returns (msg: Message)
      requires row == Row(name)
      ensures msg == Message(IdOf(name), PolicyOf(IdOf(name), View()))
    {
      TablesAgree(row);
      var info := Info(CR0_BITS[row].mask, ALL_CPUS, ALL_CPUS);
      msg := Message(CR0_BITS[row].id, Policy(0, write as bv32, 0, sticky, info));
    }

    /** `policy_set_cr0`: the message is built from the name's row; a name without a row sends none. */
    method SetPolicy(on: bool, call: Hypercall, monitor: bool, handler: PolicyHandler) returns (ok: bool)
      requires handler.Shape()
      modifies handler`numEntries, handler.slots
      ensures ok <==> Row(name) != -1 && call.success
      ensures handler.View()
           == if Row(name) == -1 || !call.acted then old(handler.View())
              else
                var msg := Message(IdOf(name), PolicyOf(IdOf(name), View()));
                if on then Enable(old(handler.View()), msg) else Disable(old(handler.View()), msg)
    {
      var row := ValidCr0Attr(name);
      if row < 0 {
        return false;
      }
      var msg := BuildMessage(row);
      if call.acted {
        if on {
          handler.HandleEnable(msg, monitor);
        } else {
          handler.HandleDisable(msg, monitor);
        }
      }
      return call.success;
    }

    /** `cr0_cfg_store_enable`, sending its message to the handler. */
    method SetEnable(text: Text, call: Hypercall, monitor: bool, handler: PolicyHandler) returns (result: Result)
      requires handler.Shape() && Row(name) != -1
      modifies this`enable, this`locked, handler`numEntries, handler.slots
      ensures (View(), result) == StoreEnable(old(View()), text, call)
      ensures handler.View() == HandledBy(old(handler.View()), SentBy(IdOf(name), old(View()), text, call))
    {
      if text.NotANumber? {
        return Invalid;
      }
      if locked {
        return NotPermitted;
      }
      var ret := SetPolicy(text.value != 0, call, monitor, handler);
      if ret {
        enable := text.value != 0;
      }
      if ret && StickyAction(write) {
        locked := true;
      }
      return Stored;
    }
  }

  /** `cr0_make_item`: a zeroed item for a name of the table, nothing for any other. */
  method MakeItem(name: string) returns (item: CfgItem?)
    ensures item == null <==> Row(name) == -1
    ensures item != null ==> fresh(item) && item.name == name && item.View() == NEW_ITEM
    ensures item != null ==> !item.enable && !item.locked && item.write == 0 && item.sticky == 0
  {
    var row := ValidCr0Attr(name);
    if row == -1 {
      return null;
    }
    item := new CfgItem(name);
  }

  // ---- Driver, handler and processor together ----

  /** The items by name, and the machine they send their messages to. */
  datatype World = World(items: map<string, Item>, m: Machine)

  datatype Act =
    | Make(name: string)
    | Remove(name: string)
    | WriteAct(name: string, text: Text)
    | StickyAct(name: string, text: Text)
    | EnableAct(name: string, text: Text, call: Hypercall)
    | OtherAct(step: Step)

  /**
   * An item is made under a new name; stores and removals go to existing items. All the rest
   * may happen too: freezing, register writes, and messages of the driver's other items, which
   * name resources of CR4 and of the MSRs.
   */
  predicate Fits(w: World, act: Act) {
    match act
    case OtherAct(step) => InRangeStep(step) && (step.EnableStep? || step.DisableStep? ==> !IsEntryOf(CR0, step.msg.id))
    case Make(name) => name !in w.items
    case _ => act.name in w.items
  }

  /** What the handler and the processor see of an act: one step or none. */
  function Seen(w: World, act: Act): (steps: seq<Step>)
    ensures |steps| <= 1
  {
    match act
    case OtherAct(step) => [step]
    case EnableAct(name, text, call) => if name in w.items then SentBy(IdOf(name), w.items[name], text, call) else []
    case _ => []
  }

  function MachineAfter(m: Machine, seen: seq<Step>): Machine
    requires |seen| <= 1
  {
    if seen == [] then m else Next(m, seen[0])
  }

  function ItemsAfter(items: map<string, Item>, act: Act): map<string, Item> {
    match act
    case Make(name) => if Row(name) == -1 then items else items[name := NEW_ITEM]
    case Remove(name) => items - {name}
    case WriteAct(name, text) => if name in items then items[name := StoreWrite(items[name], text).0] else items
    case StickyAct(name, text) => if name in items then items[name := StoreSticky(items[name], text).0] else items
    case EnableAct(name, text, call) =>
      if name in items then items[name := StoreEnable(items[name], text, call).0] else items
    case OtherAct(_) => items
  }

  function Act1(w: World, act: Act): World {
    World(ItemsAfter(w.items, act), MachineAfter(w.m, Seen(w, act)))
  }

  function Acts(w: World, acts: seq<Act>): World {
    if acts == [] then w else Act1(Acts(w, acts[..|acts| - 1]), acts[|acts| - 1])
  }

  lemma ActsNext(w: World, acts: seq<Act>, i: nat)
    requires i < |acts|
    ensures Acts(w, acts[..i + 1]) == Act1(Acts(w, acts[..i]), acts[i])
  {
    assert acts[..i + 1][..i] == acts[..i];
  }

  ghost predicate AllFit(w: World, acts: seq<Act>) {
    forall i | 0 <= i < |acts| :: Fits(Acts(w, acts[..i]), acts[i])
  }

  /** Every item is of a resource; the table is sound and names resources only. */
  ghost predicate Sound(w: World) {
    && Inv(w.m.h.table) && InRange(AsMap(w.m.h.table.slots))
    && forall name | name in w.items :: Row(name) != -1
  }

  lemma SoundAct(w: World, act: Act)
    requires Sound(w) && Fits(w, act)
    ensures Sound(Act1(w, act))
    ensures forall i | 0 <= i < |Seen(w, act)| :: InRangeStep(Seen(w, act)[i])
  {
    if act.EnableAct? {
      NameHasResource(act.name);
    }
    if Seen(w, act) != [] {
      Simulation(w.m, Seen(w, act)[0]);
      RangeKept(w.m, Seen(w, act)[0]);
    }
  }

  lemma {:induction false} SoundUpTo(w: World, acts: seq<Act>, n: nat)
    requires Sound(w) && AllFit(w, acts) && n <= |acts|
    ensures Sound(Acts(w, acts[..n]))
  {
    if n == 0 {
      assert acts[..0] == [];
    } else {
      SoundUpTo(w, acts, n - 1);
      ActsNext(w, acts, n - 1);
      SoundAct(Acts(w, acts[..n - 1]), acts[n - 1]);
    }
  }

  // ---- The locked item ----

  /** The item is there, as it is in w. */
  predicate Unchanged(w: World, w': World, name: string)
    requires name in w.items
  {
    name in w'.items && w'.items[name] == w.items[name]
  }

  /** The item is unchanged before and after every act. */
  ghost predicate Stays(w: World, acts: seq<Act>, name: string)
    requires name in w.items
  {
    forall i | 0 <= i <= |acts| :: Unchanged(w, Acts(w, acts[..i]), name)
  }

  lemma LockedAct(w: World, act: Act, name: string)
    requires name in w.items && w.items[name].locked && Fits(w, act)
    ensures Unchanged(w, Act1(w, act), name) <==> act != Remove(name)
    ensures act.EnableAct? && act.name == name ==> Seen(w, act) == []
  {
  }

  lemma {:induction false} StaysUpTo(w: World, acts: seq<Act>, name: string, n: nat)
    requires AllFit(w, acts) && name in w.items && w.items[name].locked && n <= |acts|
    requires forall i | 0 <= i < n :: acts[i] != Remove(name)
    ensures Unchanged(w, Acts(w, acts[..n]), name)
  {
    if n == 0 {
      assert acts[..0] == [];
    } else {
      StaysUpTo(w, acts, name, n - 1);
      ActsNext(w, acts, n - 1);
      LockedAct(Acts(w, acts[..n - 1]), acts[n - 1], name);
    }
  }

  /** A locked item stays as it is over a run, if and only if it is not removed. */
  lemma LockedForGood(w: World, acts: seq<Act>, name: string)
    requires AllFit(w, acts) && name in w.items && w.items[name].locked
    ensures Stays(w, acts, name) <==> Remove(name) !in acts
  {
    if Stays(w, acts, name) {
      forall i | 0 <= i < |acts|
        ensures acts[i] != Remove(name)
      {
        assert Unchanged(w, Acts(w, acts[..i]), name) && Unchanged(w, Acts(w, acts[..i + 1]), name);
        ActsNext(w, acts, i);
        LockedAct(Acts(w, acts[..i]), acts[i], name);
      }
    }
    if Remove(name) !in acts {
      forall i | 0 <= i <= |acts|
        ensures Unchanged(w, Acts(w, acts[..i]), name)
      {
        StaysUpTo(w, acts, name, i);
      }
    }
  }

  // ---- The policy a lock leaves ----

  /** The store that locks: a number other than zero, a sticky write action, handled while mutable. */
  predicate Locks(w: World, act: Act) {
    && act.EnableAct? && act.name in w.items && Row(act.name) != -1
    && act.text.Number? && act.text.value != 0 && act.call == Hypercall(true, true)
    && !w.items[act.name].locked && StickyAction(w.items[act.name].write)
    && !w.m.h.immutable
  }

  /**
   * What a lock is worth. A store with the sticky action whose message is said to succeed locks
   * the item whatever number was written; the handler holds the policy afterwards if and only if
   * the number was not zero, the handler acted on it and the table was open, or it was there
   * before and the message was not acted on or came too late.
   */
  lemma LockedExactly(w: World, name: string, text: Text, acted: bool)
    requires Sound(w) && name in w.items && text.Number?
    requires !w.items[name].locked && StickyAction(w.items[name].write)
    ensures var w', p := Act1(w, EnableAct(name, text, Hypercall(acted, true))), PolicyOf(IdOf(name), w.items[name]);
            && name in w'.items && w'.items[name].locked
            && (HasPolicy(w'.m, IdOf(name), p)
                <==> if w.m.h.immutable || !acted then HasPolicy(w.m, IdOf(name), p) else text.value != 0)
  {
    var seen := Seen(w, EnableAct(name, text, Hypercall(acted, true)));
    NameHasResource(name);
    if acted {
      Simulation(w.m, seen[0]);
      RangeKept(w.m, seen[0]);
    }
  }

  lemma LockTakesEffect(w: World, act: Act)
    requires Sound(w) && Locks(w, act)
    ensures act.name in Act1(w, act).items && Act1(w, act).items[act.name].locked
    ensures HasPolicy(Act1(w, act).m, IdOf(act.name), PolicyOf(IdOf(act.name), w.items[act.name]))
    ensures PolicyOf(IdOf(act.name), w.items[act.name]).Sticky()
  {
    LockedExactly(w, act.name, act.text, true);
    StickyPolicy(IdOf(act.name), w.items[act.name]);
  }

  /** A store that replaces the policy: of an unlocked item of the resource, to another effect, in time. */
  ghost predicate Overrides(w: World, act: Act, id: u32, p: Policy) {
    && act.EnableAct? && act.name in w.items && IdOf(act.name) == id
    && Seen(w, act) != [] && !w.m.h.immutable
    && !(act.text.Number? && act.text.value != 0 && PolicyOf(id, w.items[act.name]) == p)
  }

  /** The policy is in force before and after every act. */
  ghost predicate InForce(w: World, acts: seq<Act>, id: u32, p: Policy) {
    forall i | 0 <= i <= |acts| :: HasPolicy(Acts(w, acts[..i]).m, id, p)
  }

  ghost predicate NeverOverridden(w: World, acts: seq<Act>, id: u32, p: Policy) {
    forall i | 0 <= i < |acts| :: !Overrides(Acts(w, acts[..i]), acts[i], id, p)
  }

  lemma ActKeeps(w: World, act: Act, id: u32, p: Policy)
    requires Sound(w) && Fits(w, act) && IsEntryOf(CR0, id) && HasPolicy(w.m, id, p)
    ensures HasPolicy(Act1(w, act).m, id, p) <==> !Overrides(w, act, id, p)
  {
    if Seen(w, act) != [] {
      KeptStep(w.m, Seen(w, act)[0], id, p);
    }
  }

  lemma {:induction false} InForceUpTo(w: World, acts: seq<Act>, id: u32, p: Policy, n: nat)
    requires Sound(w) && AllFit(w, acts) && IsEntryOf(CR0, id) && HasPolicy(w.m, id, p)
    requires NeverOverridden(w, acts, id, p) && n <= |acts|
    ensures HasPolicy(Acts(w, acts[..n]).m, id, p)
  {
    if n == 0 {
      assert acts[..0] == [];
    } else {
      InForceUpTo(w, acts, id, p, n - 1);
      SoundUpTo(w, acts, n - 1);
      ActsNext(w, acts, n - 1);
      ActKeeps(Acts(w, acts[..n - 1]), acts[n - 1], id, p);
    }
  }

  /** A policy of CR0 stays in force over a run, if and only if no store of an unlocked item replaces it. */
  lemma InForceExactly(w: World, acts: seq<Act>, id: u32, p: Policy)
    requires Sound(w) && AllFit(w, acts) && IsEntryOf(CR0, id) && HasPolicy(w.m, id, p)
    ensures InForce(w, acts, id, p) <==> NeverOverridden(w, acts, id, p)
  {
    if InForce(w, acts, id, p) {
      forall i | 0 <= i < |acts|
        ensures !Overrides(Acts(w, acts[..i]), acts[i], id, p)
      {
        assert HasPolicy(Acts(w, acts[..i]).m, id, p) && HasPolicy(Acts(w, acts[..i + 1]).m, id, p);
        SoundUpTo(w, acts, i);
        ActsNext(w, acts, i);
        ActKeeps(Acts(w, acts[..i]), acts[i], id, p);
      }
    }
    if NeverOverridden(w, acts, id, p) {
      forall i | 0 <= i <= |acts|
        ensures HasPolicy(Acts(w, acts[..i]).m, id, p)
      {
        InForceUpTo(w, acts, id, p, i);
      }
    }
  }

  /** The item is not removed, and no other item of its resource is enabled or disabled. */
  predicate Sole(acts: seq<Act>, name: string) {
    Remove(name) !in acts
    && forall i | 0 <= i < |acts| && acts[i].EnableAct? :: acts[i].name == name || IdOf(acts[i].name) != IdOf(name)
  }

  /** A locked item that speaks for its resource alone keeps its policy in force. */
  lemma SoleIsEnough(w: World, acts: seq<Act>, name: string, p: Policy)
    requires AllFit(w, acts) && name in w.items && w.items[name].locked && Sole(acts, name)
    ensures NeverOverridden(w, acts, IdOf(name), p)
  {
    LockedForGood(w, acts, name);
    forall i | 0 <= i < |acts|
      ensures !Overrides(Acts(w, acts[..i]), acts[i], IdOf(name), p)
    {
      assert Unchanged(w, Acts(w, acts[..i]), name);
      if acts[i].EnableAct? && acts[i].name == name {
        LockedAct(Acts(w, acts[..i]), acts[i], name);
      }
    }
  }

  // ---- The bit ----

  /** The bit of a CR0 resource before and after every act. */
  function BitsOf(w: World, acts: seq<Act>, id: u32): (bits: seq<bool>)
    ensures |bits| == |acts| + 1
  {
    seq(|acts| + 1, i requires 0 <= i <= |acts| => BitOf(Acts(w, acts[..i]).m, CR0, id))
  }

  /** A register write that slips past the sticky policy. */
  ghost predicate SlipsBy(w: World, act: Act, id: u32, v: bool) {
    act.OtherAct? && Slips(w.m, act.step, CR0, id, v)
  }

  lemma StickyAct1(w: World, act: Act, id: u32, v: bool)
    requires Sound(w) && IsEntryOf(CR0, id) && Pinned(w.m, id, v)
    ensures BitOf(Act1(w, act).m, CR0, id) == BitOf(w.m, CR0, id) || BitOf(Act1(w, act).m, CR0, id) == v
       <==> !SlipsBy(w, act, id, v)
  {
    if Seen(w, act) != [] {
      StickyStep(w.m, Seen(w, act)[0], CR0, id, v);
    }
  }

  lemma BitAt(w: World, acts: seq<Act>, id: u32, p: Policy, i: nat)
    requires Sound(w) && AllFit(w, acts) && IsEntryOf(CR0, id) && p.Sticky()
    requires InForce(w, acts, id, p) && i < |acts|
    ensures Follows(BitsOf(w, acts, id), p.StickyOne(), i) <==> !SlipsBy(Acts(w, acts[..i]), acts[i], id, p.StickyOne())
  {
    SoundUpTo(w, acts, i);
    ActsNext(w, acts, i);
    assert HasPolicy(Acts(w, acts[..i]).m, id, p);
    StickyAct1(Acts(w, acts[..i]), acts[i], id, p.StickyOne());
  }

  /** While a sticky policy is in force its bit goes one way, if and only if no write slips. */
  lemma BitsGoOneWay(w: World, acts: seq<Act>, id: u32, p: Policy)
    requires Sound(w) && AllFit(w, acts) && IsEntryOf(CR0, id) && p.Sticky()
    requires InForce(w, acts, id, p)
    ensures OneWay(BitsOf(w, acts, id), p.StickyOne())
       <==> forall i | 0 <= i < |acts| :: !SlipsBy(Acts(w, acts[..i]), acts[i], id, p.StickyOne())
  {
    OneWayExactly(BitsOf(w, acts, id), p.StickyOne());
    forall i | 0 <= i < |acts|
      ensures Follows(BitsOf(w, acts, id), p.StickyOne(), i)
         <==> !SlipsBy(Acts(w, acts[..i]), acts[i], id, p.StickyOne())
    {
      BitAt(w, acts, id, p, i);
    }
  }

  // ---- End to end ----

  /** No items, a fresh handler. */
  function Beginning(guest: Guest): World {
    World(map[], Machine(Fresh(), guest))
  }

  lemma BeginningSound(guest: Guest)
    ensures Sound(Beginning(guest))
  {
    EmptyTableInv();
  }

  /**
   * End-to-end lock. In any run from the beginning, once a store has locked a sticky CR0 policy:
   * the item stays as it is exactly if it is not removed; the policy stays in force exactly if no
   * unlocked item replaces it, which the item being alone rules out; and while it is in force the
   * bit changes at most once, to its sticky value, exactly if no register write slips.
   */
  lemma EndToEndLock(guest: Guest, before: seq<Act>, act: Act, after: seq<Act>)
    requires AllFit(Beginning(guest), before)
    requires Locks(Acts(Beginning(guest), before), act)
    requires AllFit(Act1(Acts(Beginning(guest), before), act), after)
    ensures var w := Acts(Beginning(guest), before);
            var w1, id, p := Act1(w, act), IdOf(act.name), PolicyOf(IdOf(act.name), w.items[act.name]);
            && act.name in w1.items && w1.items[act.name].locked
            && (Stays(w1, after, act.name) <==> Remove(act.name) !in after)
            && (InForce(w1, after, id, p) <==> NeverOverridden(w1, after, id, p))
            && (Sole(after, act.name) ==> InForce(w1, after, id, p))
            && (InForce(w1, after, id, p) ==>
                  (OneWay(BitsOf(w1, after, id), p.StickyOne())
                   <==> forall i | 0 <= i < |after| :: !SlipsBy(Acts(w1, after[..i]), after[i], id, p.StickyOne())))
  {
    var w := Acts(Beginning(guest), before);
    var w1, id, p := Act1(w, act), IdOf(act.name), PolicyOf(IdOf(act.name), w.items[act.name]);
    BeginningSound(guest);
    SoundUpTo(Beginning(guest), before, |before|);
    assert before[..|before|] == before;
    SoundAct(w, act);
    LockTakesEffect(w, act);
    NameHasResource(act.name);
    LockedForGood(w1, after, act.name);
    InForceExactly(w1, after, id, p);
    if Sole(after, act.name) {
      SoleIsEnough(w1, after, act.name, p);
    }
    if InForce(w1, after, id, p) {
      BitsGoOneWay(w1, after, id, p);
    }
  }

  /**
   * Why the item must be alone: while the table is open, making a new item of the resource, under
   * another spelling or after a removal, and storing zero in it takes the policy away.
   */
  lemma AnotherItemUnlocks(w: World, name: string, id: u32, p: Policy)
    requires Sound(w) && !w.m.h.immutable && HasPolicy(w.m, id, p)
    requires name !in w.items && Row(name) != -1 && IdOf(name) == id
    ensures var make, disable := Make(name), EnableAct(name, Number(0), Hypercall(true, true));
            && Fits(w, make) && Fits(Act1(w, make), disable)
            && Overrides(Act1(w, make), disable, id, p)
            && id !in AsMap(Act1(Act1(w, make), disable).m.h.table.slots)
  {
    var w1, disable := Act1(w, Make(name)), EnableAct(name, Number(0), Hypercall(true, true));
    NameHasResource(name);
    Simulation(w1.m, Seen(w1, disable)[0]);
  }

  lemma StickyByte()
    ensures StickyAction(LowByte(0x80))
  {
  }

  /** The item PE with the sticky write action and nothing else, before and after it is locked. */
  function ItemPE(locked: bool): Item {
    Item(locked, locked, LowByte(0x80), 0)
  }

  /** The world with that one item. */
  function WithPE(guest: Guest): World {
    Act1(Act1(Beginning(guest), Make("PE")), WriteAct("PE", Number(0x80)))
  }

  lemma PEMade(guest: Guest)
    ensures Fits(Beginning(guest), Make("PE")) && Fits(Act1(Beginning(guest), Make("PE")), WriteAct("PE", Number(0x80)))
    ensures Sound(WithPE(guest)) && WithPE(guest) == World(map["PE" := ItemPE(false)], Machine(Fresh(), guest))
  {
    BeginningSound(guest);
    TwoNames();
    SoundAct(Beginning(guest), Make("PE"));
    SoundAct(Act1(Beginning(guest), Make("PE")), WriteAct("PE", Number(0x80)));
  }

  const ON: Act := EnableAct("PE", Number(1), Hypercall(true, true))

  lemma PELocked(w: World)
    requires w.items == map["PE" := ItemPE(false)] && Sound(w) && !w.m.h.immutable
    ensures Locks(w, ON) && Sound(Act1(w, ON)) && !Act1(w, ON).m.h.immutable
    ensures Act1(w, ON).items == map["PE" := ItemPE(true)] && HasPolicy(Act1(w, ON).m, 1, PolicyOf(1, ItemPE(false)))
  {
    TwoNames();
    StickyByte();
    LockTakesEffect(w, ON);
    SoundAct(w, ON);
  }

  /** An input: PE is locked, and an item named pe undoes it. */
  lemma SmallLettersUnlock(guest: Guest)
    ensures var w1, p := Act1(WithPE(guest), ON), PolicyOf(1, ItemPE(false));
            && Locks(WithPE(guest), ON) && w1.items == map["PE" := ItemPE(true)] && HasPolicy(w1.m, 1, p)
            && Fits(w1, Make("pe"))
            && Overrides(Act1(w1, Make("pe")), EnableAct("pe", Number(0), Hypercall(true, true)), 1, p)
  {
    PEMade(guest);
    PELocked(WithPE(guest));
    TwoNames();
    assert "pe"[0] != "PE"[0];
    AnotherItemUnlocks(Act1(WithPE(guest), ON), "pe", 1, PolicyOf(1, ItemPE(false)));
  }
}
