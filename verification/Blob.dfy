/** The content-addressed, refcounted slab for large payloads. */
module Blobs {
  import opened Pools

  datatype BlobSlot = BlobSlot(data: string, hash: nat, refs: nat, live: bool) {
    function AsEntry(): Entry {
      Entry(data, hash, refs, live)
    }
  }

  function Entries(slots: seq<BlobSlot>): (r: seq<Entry>)
    ensures |r| == |slots|
    ensures forall id :: 0 <= id < |slots| ==> r[id] == slots[id].AsEntry()
  {
    seq(|slots|, id requires 0 <= id < |slots| => slots[id].AsEntry())
  }

  lemma SlotPlaced(slots: seq<BlobSlot>, id: nat, slot: BlobSlot)
    requires id <= |slots|
    ensures Entries(if id < |slots| then slots[id := slot] else slots + [slot])
         == Placed(Entries(slots), id, slot.AsEntry())
  {
  }

  class BlobSlab {
    const hash: string -> nat
    var slots: seq<BlobSlot>
    var free: seq<nat>
    var byHash: map<nat, nat>
    ghost var contents: Contents

    ghost predicate Valid()
      reads this
      ensures Valid() ==> contents.WellFormed()
    {
      PoolOk(Entries(slots), free, byHash, hash, contents)
    }

    constructor (hash: string -> nat)
      ensures Valid() && this.hash == hash && contents == EMPTY
    {
      this.hash := hash;
      slots := [BlobSlot("", 0, 0, false)];
      free := [];
      byHash := map[];
      contents := EMPTY;
    }

    /** The counters are the references, and a slot is live exactly while it has some. */
    lemma CountsAreReferences(id: nat)
      requires Valid()
      ensures 0 < id < |slots| ==> slots[id].refs == contents.refs[id] && (slots[id].live <==> slots[id].refs > 0)
      ensures id == 0 || id >= |slots| ==> contents.refs[id] == 0
    {
      if 0 < id < |slots| {
        assert EntryOk(Entries(slots)[id], id, hash, contents);
      }
    }

    method Equal(id: nat, data: string) returns (same: bool)
      requires Valid()
      ensures same <==> id in contents.strs && contents.strs[id] == data
    {
      if id >= |slots| {
        return false;
      }
      assert EntryOk(Entries(slots)[id], id, hash, contents);
      if !slots[id].live {
        return false;
      }
      same := slots[id].data == data;
    }

    method Get(id: nat) returns (data: string)
      requires Valid()
      ensures data == contents.Lookup(id)
    {
      if id == 0 || id >= |slots| {
        return "";
      }
      assert EntryOk(Entries(slots)[id], id, hash, contents);
      if !slots[id].live {
        return "";
      }
      data := slots[id].data;
    }

    /** Identical payloads share one slot; without collisions always. */
    method Put(data: string) returns (id: nat)
      requires Valid()
      modifies this
      ensures Valid()
      ensures data == "" ==> id == 0 && contents == old(contents)
      ensures data != "" ==> id != 0 && contents == old(contents).Shared(id, data)
      ensures id in old(contents.strs) ==> old(contents.strs)[id] == data
      ensures Injective(hash) && data in old(contents.strs).Values ==> id in old(contents.strs)
    {
      if Injective(hash) && data in contents.strs.Values {
        LiveTextsAreIndexed(Entries(slots), free, byHash, hash, contents, data);
      }
      if data == "" {
        return 0;
      }
      var h := hash(data);
      if h in byHash {
        id := byHash[h];
        var same := Equal(id, data);
        if same {
          AddReference(id);
          return;
        }
      }
      id := Allocate(data, h);
    }

    method Allocate(data: string, h: nat) returns (id: nat)
      requires Valid() && data != "" && h == hash(data)
      requires h in byHash ==> !Injective(hash)
      modifies this
      ensures Valid()
      ensures id != 0 && id !in old(contents.strs)
      ensures contents == old(contents).Shared(id, data)
    {
      var slot := BlobSlot(data, h, 1, true);
      var n := |free|;
      id := if n > 0 then free[n - 1] else |slots|;
      Allocated(Entries(slots), free, byHash, hash, contents, id, slot.AsEntry());
      SlotPlaced(slots, id, slot);
      contents := contents.Shared(id, data);
      free := if n > 0 then free[..n - 1] else free;
      slots := if id < |slots| then slots[id := slot] else slots + [slot];
      byHash := if h in byHash then byHash else byHash[h := id];
    }

    method AddReference(id: nat)
      requires Valid() && id in contents.strs
      modifies this
      ensures Valid()
      ensures contents == old(contents).Shared(id, old(contents.strs)[id])
    {
      assert EntryOk(Entries(slots)[id], id, hash, contents);
      var slot := slots[id].(refs := slots[id].refs + 1);
      SlotPlaced(slots, id, slot);
      Joined(Entries(slots), free, byHash, hash, contents, id);
      slots := slots[id := slot];
      contents := contents.Shared(id, contents.strs[id]);
    }

    method Release(id: nat)
      requires Valid()
      modifies this
      ensures Valid()
      ensures contents == old(contents).Released(id)
    {
      if id == 0 || id >= |slots| {
        contents.NothingToRelease(id);
        return;
      }
      assert EntryOk(Entries(slots)[id], id, hash, contents);
      var s := slots[id];
      if s.refs == 0 {
        contents.NothingToRelease(id);
        return;
      }
      if s.refs > 1 {
        SlotPlaced(slots, id, s.(refs := s.refs - 1));
        Dropped(Entries(slots), free, byHash, hash, contents, id);
        contents := contents.Released(id);
        slots := slots[id := s.(refs := s.refs - 1)];
      } else {
        Recycle(id);
      }
    }

    /** The last reference goes and the payload with it. */
    method Recycle(id: nat)
      requires Valid() && 0 < id < |slots| && slots[id].refs == 1
      modifies this
      ensures Valid()
      ensures contents == old(contents).Released(id)
    {
      var slot := slots[id].(data := "", refs := 0, live := false);
      SlotPlaced(slots, id, slot);
      Recycled(Entries(slots), free, byHash, hash, contents, id, slot.AsEntry());
      contents := contents.Released(id);
      var h := slots[id].hash;
      byHash := if h in byHash && byHash[h] == id then byHash - {h} else byHash;
      slots := slots[id := slot];
      free := free + [id];
    }
  }
}
