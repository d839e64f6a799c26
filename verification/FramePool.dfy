/** A fixed set of equally long buffers cut from one allocation and recycled through a
    last-in first-out list of free slots. */
module FramePooling {
  import opened Common
  import opened Arithmetic

  /** A view of one slot: its bytes are [offset, offset + capacity) of the storage. */
  datatype Buffer = Buffer(offset: nat, capacity: nat, slot: nat)

  // ---- Slots -------------------------------------------------------------------------------

  /** Slots on the free list and slots in use. */
  datatype Slots = Slots(free: seq<nat>, live: set<nat>)

  predicate NoRepeats(s: seq<nat>) {
    forall i, j :: 0 <= i < j < |s| ==> s[i] != s[j]
  }

  /** Every slot is either free, once, or live. */
  ghost predicate Partition(slots: Slots, count: nat) {
    && NoRepeats(slots.free)
    && (forall s: nat :: s in slots.free || s in slots.live <==> s < count)
    && (forall s <- slots.free :: s !in slots.live)
    && |slots.free| + |slots.live| == count
  }

  function Taken(slots: Slots): Slots {
    if slots.free == [] then slots
    else
      var slot := slots.free[|slots.free| - 1];
      Slots(slots.free[..|slots.free| - 1], slots.live + {slot})
  }

  function GivenBack(slots: Slots, slot: nat): Slots {
    Slots(slots.free + [slot], slots.live - {slot})
  }

  lemma TakenKeepsPartition(slots: Slots, count: nat)
    requires Partition(slots, count)
    ensures Partition(Taken(slots), count)
  {
    if slots.free != [] {
      var rest, slot := slots.free[..|slots.free| - 1], slots.free[|slots.free| - 1];
      assert slots.free == rest + [slot];
      assert slot in slots.free && slot !in slots.live;
      forall s: nat ensures s in rest <==> s in slots.free && s != slot {
        if s in rest {
          var i :| 0 <= i < |rest| && rest[i] == s;
          assert slots.free[i] == s;
        }
      }
    }
  }

  lemma GivenBackKeepsPartition(slots: Slots, count: nat, slot: nat)
    requires Partition(slots, count) && slot in slots.live
    ensures Partition(GivenBack(slots, slot), count)
  {
    var free := slots.free + [slot];
    assert slot !in slots.free;
    assert forall s <- free :: s in slots.free || s == slot;
    assert slot in free && forall s <- slots.free :: s in free;
  }

  // ---- Any run -----------------------------------------------------------------------------

  datatype Use = Acquire | Release(slot: nat)

  /** The slots after a run of acquisitions and releases, oldest first. */
  function After(count: nat, run: seq<Use>): Slots {
    if run == [] then Slots(seq(count, i requires 0 <= i => i), {})
    else
      var before := After(count, run[..|run| - 1]);
      match run[|run| - 1]
      case Acquire => Taken(before)
      case Release(slot) => GivenBack(before, slot)
  }

  /** Each release hands back a slot that is live at that moment. */
  predicate Proper(count: nat, run: seq<Use>) {
    run == []
    || (Proper(count, run[..|run| - 1])
        && (run[|run| - 1].Release? ==> run[|run| - 1].slot in After(count, run[..|run| - 1]).live))
  }

  lemma {:induction false} RunKeepsPartition(count: nat, run: seq<Use>)
    requires Proper(count, run)
    ensures Partition(After(count, run), count)
    decreases |run|
  {
    if run == [] {
      var slots := After(count, run);
      forall s: nat | s < count ensures s in slots.free {
        assert slots.free[s] == s;
      }
    } else {
      var before := After(count, run[..|run| - 1]);
      RunKeepsPartition(count, run[..|run| - 1]);
      match run[|run| - 1]
      case Acquire => TakenKeepsPartition(before, count);
      case Release(slot) => GivenBackKeepsPartition(before, count, slot);
    }
  }

  /** Nothing is taken exactly when every slot is live. */
  lemma ExhaustedExactly(slots: Slots, count: nat)
    requires Partition(slots, count)
    ensures Taken(slots) == slots <==> forall s: nat :: s < count ==> s in slots.live
  {
    if slots.free != [] {
      var s := slots.free[|slots.free| - 1];
      assert s in slots.free;
    }
  }

  /** The slot given back last is the next one handed out. */
  lemma LastBackFirstOut(slots: Slots, slot: nat)
    requires slot in slots.live
    ensures Taken(GivenBack(slots, slot)) == slots
  {
    assert (slots.free + [slot])[..|slots.free|] == slots.free;
  }

  // ---- Bytes -------------------------------------------------------------------------------

  function BufferOf(slot: nat, size: nat): Buffer {
    Buffer(slot * size, size, slot)
  }

  predicate Contains(b: Buffer, address: int) {
    b.offset <= address < b.offset + b.capacity
  }

  /** Slots are byte ranges inside the storage, and no two of them overlap. */
  lemma SlotsAreDisjoint(count: nat, size: nat, s: nat, t: nat, address: int)
    requires s < count && t < count && Contains(BufferOf(s, size), address)
    ensures 0 <= address < count * size
    ensures Contains(BufferOf(t, size), address) ==> s == t
  {
    Steps(s, count, size);
    if s < t {
      Steps(s, t, size);
    } else if t < s {
      Steps(t, s, size);
    }
  }

  // ---- The pool ----------------------------------------------------------------------------

  class FramePool {
    const bufferSize: nat
    const count: nat
    const storage: array<u8>
    var freeSlots: seq<nat>
    ghost var live: set<nat>

    ghost function Contents(): Slots
      reads this
    {
      Slots(freeSlots, live)
    }

    ghost predicate Valid()
      reads this
    {
      storage.Length == count * bufferSize && Partition(Contents(), count)
    }

    constructor (bufferSize: nat, count: nat)
      ensures Valid() && fresh(storage)
      ensures this.bufferSize == bufferSize && this.count == count
      ensures Contents() == After(count, [])
    {
      this.bufferSize := bufferSize;
      this.count := count;
      storage := new u8[count * bufferSize];
      freeSlots := [];
      live := {};
      new;
      var i := 0;
      while i < count
        invariant 0 <= i <= count
        invariant |freeSlots| == i && forall k :: 0 <= k < i ==> freeSlots[k] == k
        invariant live == {}
      {
        freeSlots := freeSlots + [i];
        i := i + 1;
      }
      assert freeSlots == After(count, []).free;
      RunKeepsPartition(count, []);
    }

    /** A buffer nobody else holds, or none exactly when all are in use. */
    method Acquire() returns (b: Option<Buffer>)
      requires Valid()
      modifies this
      ensures Valid() && Contents() == Taken(old(Contents()))
      ensures b.None? <==> |old(live)| == count
      ensures b.Some? ==>
                && b.value == BufferOf(b.value.slot, bufferSize)
                && b.value.slot !in old(live) && b.value.slot < count
                && live == old(live) + {b.value.slot}
    {
      if |freeSlots| == 0 {
        return None;
      }
      var slot := TakeSlot();
      b := Some(Buffer(slot * bufferSize, bufferSize, slot));
    }

    method TakeSlot() returns (slot: nat)
      requires Partition(Contents(), count) && freeSlots != []
      modifies this
      ensures Partition(Contents(), count) && Contents() == Taken(old(Contents()))
      ensures slot !in old(live) && slot < count && live == old(live) + {slot}
    {
      TakenKeepsPartition(Contents(), count);
      slot := freeSlots[|freeSlots| - 1];
      freeSlots := freeSlots[..|freeSlots| - 1];
      live := live + {slot};
    }

    /** Run by the last holder of a buffer letting go of it. */
    method Release(slot: nat)
      requires Valid() && slot in live
      modifies this
      ensures Valid() && Contents() == GivenBack(old(Contents()), slot)
    {
      GivenBackKeepsPartition(Contents(), count, slot);
      freeSlots := freeSlots + [slot];
      live := live - {slot};
    }
  }
}
