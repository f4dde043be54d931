/** What a store to an attribute of the driver does, case by case, and when an item is locked over a run. */
module DriverStores {
  import opened Resources
  import opened PolicyTable
  import opened PolicyRuns
  import opened DriverLock

  /** A store to the write action or the sticky value: refused when locked, before the text is looked at. */
  lemma AttributeStores(item: Item, text: Text)
    ensures StoreWrite(item, text).1 == StoreSticky(item, text).1
         == if item.locked then NotPermitted else if text.NotANumber? then Invalid else Stored
    ensures StoreWrite(item, text).1 != Stored ==> StoreWrite(item, text).0 == item && StoreSticky(item, text).0 == item
    ensures StoreWrite(item, text).1 == Stored ==>
              && StoreWrite(item, text).0
                 == Item(item.enable, false, (text.value & 0xFF) as bv8, item.sticky)
              && StoreSticky(item, text).0 == Item(item.enable, false, item.write, text.value)
  {
  }

  /**
   * A store to enable: a text that is no number is rejected before the lock is looked at. The
   * item is locked afterwards if and only if it was, or the text is a number, the call is said to
   * succeed and the write action has 0x80; its flag follows the number exactly on a successful
   * store to an unlocked item. The other attributes and items stay.
   */
  lemma EnableStore(w: World, name: string, text: Text, call: Hypercall)
    requires name in w.items
    ensures StoreEnable(w.items[name], text, call).1
         == if text.NotANumber? then Invalid else if w.items[name].locked then NotPermitted else Stored
    ensures var w', item := Act1(w, EnableAct(name, text, call)), w.items[name];
            && w'.items.Keys == w.items.Keys
            && (forall other | other in w.items && other != name :: w'.items[other] == w.items[other])
            && (w'.items[name].locked <==> item.locked || (text.Number? && call.success && item.write & 0x80 != 0))
            && w'.items[name].enable
               == (if text.Number? && call.success && !item.locked then text.value != 0 else item.enable)
            && w'.items[name].write == item.write && w'.items[name].sticky == item.sticky
  {
  }

  /**
   * What the handler makes of such a store: if the item is unlocked, the text a number and the
   * handler acts on the call while mutable, its policy for the resource is set to what the item
   * says, for a number other than zero, or removed, for zero; else its policies stay.
   */
  lemma EnableReaches(w: World, name: string, text: Text, call: Hypercall)
    requires Sound(w) && name in w.items
    ensures var w', item, id := Act1(w, EnableAct(name, text, call)), w.items[name], IdOf(name);
            var before, after := AsMap(w.m.h.table.slots), AsMap(w'.m.h.table.slots);
            var p := Policy(0, item.write as bv32, 0, item.sticky, Info(Mask(CR0, id), ALL_CPUS, ALL_CPUS));
            && after == (if text.NotANumber? || item.locked || !call.acted || w.m.h.immutable then before
                         else if text.value != 0 then before[id := p] else before - {id})
            && w'.m.guest == w.m.guest && w'.m.h.immutable == w.m.h.immutable
  {
    var seen := Seen(w, EnableAct(name, text, call));
    NameHasResource(name);
    if seen != [] {
      Simulation(w.m, seen[0]);
      if seen[0].EnableStep? && IdOf(name) !in AsMap(w.m.h.table.slots) {
        RoomForNewId(AsMap(w.m.h.table.slots), IdOf(name));
      }
    }
  }

  /** Small and capital letters are told to be the same, and no other characters are. */
  lemma LettersOfTwoCases(c: char, d: char)
    ensures LowerCase(c) == LowerCase(d)
       <==> || c == d
            || ('A' <= c <= 'Z' && d as int == c as int + 32)
            || ('A' <= d <= 'Z' && c as int == d as int + 32)
  {
  }

  // ---- Over runs ----

  /** The act locks the item of this name: a store said to succeed that finds 0x80 in its write action. */
  ghost predicate LocksNow(w: World, act: Act, name: string) {
    && act.EnableAct? && act.name == name && name in w.items
    && act.text.Number? && act.call.success && w.items[name].write & 0x80 != 0
  }

  /** Act i of the run did, and the item has not been removed since. */
  ghost predicate LocksAt(w: World, acts: seq<Act>, name: string, i: nat)
    requires i < |acts|
  {
    LocksNow(Acts(w, acts[..i]), acts[i], name) && Remove(name) !in acts[i + 1..]
  }

  ghost predicate LockedSince(w: World, acts: seq<Act>, name: string) {
    exists i | 0 <= i < |acts| :: LocksAt(w, acts, name, i)
  }

  lemma EarlierLock(w: World, front: seq<Act>, last: Act, name: string, i: nat)
    requires i < |front|
    ensures LocksAt(w, front + [last], name, i) <==> LocksAt(w, front, name, i) && last != Remove(name)
  {
    assert (front + [last])[..i] == front[..i];
    assert (front + [last])[i + 1..] == front[i + 1..] + [last];
  }

  lemma LastLock(w: World, front: seq<Act>, last: Act, name: string)
    ensures LocksAt(w, front + [last], name, |front|) <==> LocksNow(Acts(w, front), last, name)
  {
    assert (front + [last])[..|front|] == front;
    assert (front + [last])[|front| + 1..] == [];
  }

  lemma LockedSinceStep(w: World, front: seq<Act>, last: Act, name: string)
    ensures LockedSince(w, front + [last], name)
       <==> LocksNow(Acts(w, front), last, name) || (LockedSince(w, front, name) && last != Remove(name))
  {
    LastLock(w, front, last, name);
    forall i | 0 <= i < |front|
      ensures LocksAt(w, front + [last], name, i) <==> LocksAt(w, front, name, i) && last != Remove(name)
    {
      EarlierLock(w, front, last, name, i);
    }
    if LocksNow(Acts(w, front), last, name) {
      assert LocksAt(w, front + [last], name, |front|);
    }
    if LockedSince(w, front, name) && last != Remove(name) {
      var i :| 0 <= i < |front| && LocksAt(w, front, name, i);
      assert LocksAt(w, front + [last], name, i);
    }
  }

  lemma LockStep(w: World, act: Act, name: string)
    requires Fits(w, act)
    ensures var w' := Act1(w, act);
            IsLocked(w', name) <==> LocksNow(w, act, name) || (IsLocked(w, name) && act != Remove(name))
  {
    if act.EnableAct? && act.name == name {
      EnableStore(w, name, act.text, act.call);
    }
  }

  ghost predicate IsLocked(w: World, name: string) {
    name in w.items && w.items[name].locked
  }

  lemma LockedSnoc(start: World, front: seq<Act>, last: Act, name: string)
    requires Fits(Acts(start, front), last)
    requires IsLocked(Acts(start, front), name) <==> LockedSince(start, front, name)
    ensures IsLocked(Acts(start, front + [last]), name) <==> LockedSince(start, front + [last], name)
  {
    LockedSinceStep(start, front, last, name);
    ActsSnoc(start, front, last);
    LockStep(Acts(start, front), last, name);
  }

  lemma LockedAtFirst(start: World, name: string)
    requires name !in start.items
    ensures !IsLocked(Acts(start, []), name) && !LockedSince(start, [], name)
  {
  }

  lemma {:induction false} LockedUpTo(start: World, acts: seq<Act>, name: string, n: nat)
    requires AllFit(start, acts) && name !in start.items && n <= |acts|
    ensures IsLocked(Acts(start, acts[..n]), name) <==> LockedSince(start, acts[..n], name)
  {
    if n == 0 {
      LockedAtFirst(start, name);
      assert acts[..0] == [];
    } else {
      LockedUpTo(start, acts, name, n - 1);
      assert Fits(Acts(start, acts[..n - 1]), acts[n - 1]);
      LockedSnoc(start, acts[..n - 1], acts[n - 1], name);
      assert acts[..n] == acts[..n - 1] + [acts[n - 1]];
    }
  }

  /**
   * Over any run from the beginning, an item is there and locked if and only if, since it was
   * made, a store said to succeed found 0x80 in its write action.
   */
  lemma LockedExactlySince(guest: Guest, acts: seq<Act>, name: string)
    requires AllFit(Beginning(guest), acts)
    ensures var w := Acts(Beginning(guest), acts);
            name in w.items && w.items[name].locked <==> LockedSince(Beginning(guest), acts, name)
  {
    LockedUpTo(Beginning(guest), acts, name, |acts|);
    assert acts[..|acts|] == acts;
  }

  lemma ActsSnoc(w: World, front: seq<Act>, last: Act)
    ensures Acts(w, front + [last]) == Act1(Acts(w, front), last)
  {
    assert (front + [last])[..|front|] == front;
  }
}
