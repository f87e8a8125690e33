/** `evmap_io_add`: one queue of events per descriptor, found or created through the hash table. */
module EventIoMap {
  import opened Common
  import opened HashChains
  import opened HashRehash
  import opened HashTable

  /** GET_IO_SLOT_AND_CTOR: the entry of `fd`, created with an empty queue when there is none. The new
      entry overfills a table that should have grown and could not. */
  method FindOrCreate(t: IoMap, fd: int, mem: Memory, callocOk: bool) returns (ent: Entry?)
    requires t.Loose() && RoomInRange(t.primeIdx, t.nEntries) && (t.table == null ==> mem != Exhausted)
    modifies t, t.table, Entries(t.chains)`next
    ensures t.Loose()
    ensures t.RoomMade(mem)
    ensures fd in old(Contents(t.chains)) || !callocOk ==> t.chains == t.RoomChains(t.length, mem)
    ensures fd !in old(Contents(t.chains)) && callocOk ==>
              exists b, i :: Edited(t.RoomChains(t.length, mem), t.chains, b, i, null, ent)
    ensures t.Valid() <==> !old(t.Starved(mem)) || (old(t.Valid()) && (fd in old(Contents(t.chains)) || !callocOk))
    ensures ent == null <==> fd !in old(Contents(t.chains)) && !callocOk
    ensures ent == null ==> Contents(t.chains) == old(Contents(t.chains))
    ensures ent != null ==> ent in Entries(t.chains) && Contents(t.chains) == old(Contents(t.chains))[fd := ent]
    ensures fd in old(Contents(t.chains)) ==> ent == old(Contents(t.chains))[fd] && ent in old(Entries(t.chains))
    ensures fd !in old(Contents(t.chains)) && ent != null ==> fresh(ent) && ent.fd == fd && ent.events == []
  {
    hide Unshared, Placed, HasKey, Represents, Prime, Contents, Addresses, Entries, Edited;
    hide IoMap.HasRoom, IoMap.Starved;
    var p, r, b, i := t.Locate(fd, mem);
    ent := r;
    ghost var roomed := t.chains;
    if ent == null && callocOk {
      ent := CreateLast(t, p, fd, b);
    }
    assert roomed == t.RoomChains(t.length, mem);
  }

  /** The second half of GET_IO_SLOT_AND_CTOR: a new entry in the slot that ends the chain. */
  method CreateLast(t: IoMap, p: Slot, fd: int, ghost b: nat) returns (ent: Entry)
    requires t.Loose() && t.FreeSlot(p, fd, b) && fd !in Contents(t.chains)
    modifies t`nEntries, t`chains, t.table, SlotFrame(p)`next
    ensures t.Loose() && (t.Valid() <==> old(t.HasRoom()))
    ensures fresh(ent) && ent.fd == fd && ent.events == []
    ensures Edited(old(t.chains), t.chains, b, |old(t.chains)[b]|, null, ent)
    ensures Entries(t.chains) == old(Entries(t.chains)) + {ent}
    ensures Contents(t.chains) == old(Contents(t.chains))[fd := ent]
  {
    hide Unshared, Placed, HasKey, Prime, Contents, IoMap.HasRoom;
    ent := new Entry(fd);
    t.LinkLast(p, ent, b);
    EditedAppended(old(t.chains), b, ent);
  }

  /** Appends `ev` to the queue of `fd`, creating the queue if there is none. All other queues stay as
      they are. A negative descriptor is ignored; a failed allocation of a new queue answers -1 and
      leaves every queue as it was. */
  method EvmapIoAdd(t: IoMap, fd: int, ev: int, mem: Memory, callocOk: bool) returns (retval: int, ent: Entry?)
    requires t.Loose()
    requires fd >= 0 ==> RoomInRange(t.primeIdx, t.nEntries) && (t.table == null ==> mem != Exhausted)
    modifies t, t.table, Entries(t.chains)
    ensures t.Loose()
    ensures if fd < 0 then unchanged(t) else t.RoomMade(mem)
    ensures t.Valid() <==>
              if fd < 0 then old(t.Valid())
              else !old(t.Starved(mem)) || (old(t.Valid()) && (fd in old(Contents(t.chains)) || !callocOk))
    ensures retval == if fd >= 0 && fd !in old(Contents(t.chains)) && !callocOk then -1 else 0
    ensures fd < 0 || retval == -1 ==> ent == null && Contents(t.chains) == old(Contents(t.chains))
    ensures fd >= 0 && retval == 0 ==> ent != null && Contents(t.chains) == old(Contents(t.chains))[fd := ent]
    ensures fd >= 0 && fd in old(Contents(t.chains)) ==>
              ent == old(Contents(t.chains))[fd] && ent.events == old(Contents(t.chains)[fd].events) + [ev]
    ensures fd >= 0 && fd !in old(Contents(t.chains)) && callocOk ==> fresh(ent) && ent.events == [ev]
    ensures forall e :: e in old(Entries(t.chains)) && e != ent ==> e.events == old(e.events)
  {
    hide Unshared, Placed, HasKey, Represents, Prime, Contents, Addresses;
    retval, ent := 0, null;
    if fd < 0 {
      return;
    }
    ent := FindOrCreate(t, fd, mem, callocOk);
    if ent == null {
      return -1, null;
    }
    t.AppendEvent(ent, ev);
  }
}
