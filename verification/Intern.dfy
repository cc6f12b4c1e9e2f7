/** The refcounted string interner and the chunked byte arena behind it. */
module Arenas {
  const CHUNK: nat := 65536
  const SPAN: nat := 0x1_0000_0000

  /** The bytes [pos, pos + length) of chunk `idx` exist, where off packs (idx, pos). */
  predicate Holds(chunks: seq<string>, off: nat, length: nat) {
    off / SPAN < |chunks| && off % SPAN + length <= |chunks[off / SPAN]|
  }

  function ReadAt(chunks: seq<string>, off: nat, length: nat): string
    requires Holds(chunks, off, length)
  {
    chunks[off / SPAN][off % SPAN..off % SPAN + length]
  }

  /** `later` keeps every byte `earlier` holds at the place where it was. */
  predicate Extends(earlier: seq<string>, later: seq<string>) {
    && |earlier| <= |later|
    && forall i :: 0 <= i < |earlier| ==> earlier[i] <= later[i]
  }

  /** Appending never changes an earlier read. */
  lemma ReadsAreStable(earlier: seq<string>, later: seq<string>, off: nat, length: nat)
    requires Extends(earlier, later) && Holds(earlier, off, length)
    ensures Holds(later, off, length)
    ensures ReadAt(later, off, length) == ReadAt(earlier, off, length)
  {
    assert earlier[off / SPAN] <= later[off / SPAN];
  }

  class Arena {
    var chunks: seq<string>

    constructor ()
      ensures chunks == []
    {
      chunks := [];
    }

    method AppendStr(s: string) returns (off: nat, length: nat)
      modifies this
      ensures Extends(old(chunks), chunks)
      ensures length == |s|
      ensures Holds(chunks, off, length) && ReadAt(chunks, off, length) == s
    {
      length := |s|;
      if |s| >= CHUNK {
        chunks := chunks + [s];
        off := (|chunks| - 1) * SPAN;
        return;
      }
      if |chunks| == 0 || |chunks[|chunks| - 1]| + |s| > CHUNK {
        chunks := chunks + [""];
      }
      var idx := |chunks| - 1;
      var cur := chunks[idx];
      chunks := chunks[idx := cur + s];
      off := idx * SPAN + |cur|;
    }
  }
}

module Interning {
  import opened Pools
  import opened Arenas

  datatype Slot = Slot(off: nat, length: nat, refs: nat, hash: nat, live: bool)

  ghost predicate Readable(slots: seq<Slot>, chunks: seq<string>) {
    forall id :: 0 <= id < |slots| && slots[id].live ==> Holds(chunks, slots[id].off, slots[id].length)
  }

  function EntryOf(slot: Slot, chunks: seq<string>): Entry
    requires slot.live ==> Holds(chunks, slot.off, slot.length)
  {
    Entry(if slot.live then ReadAt(chunks, slot.off, slot.length) else "", slot.hash, slot.refs, slot.live)
  }

  ghost function Entries(slots: seq<Slot>, chunks: seq<string>): (r: seq<Entry>)
    requires Readable(slots, chunks)
    ensures |r| == |slots|
    ensures forall id :: 0 <= id < |slots| ==> r[id] == EntryOf(slots[id], chunks)
  {
    seq(|slots|, id requires 0 <= id < |slots| => EntryOf(slots[id], chunks))
  }

  lemma ArenaGrew(slots: seq<Slot>, earlier: seq<string>, later: seq<string>)
    requires Readable(slots, earlier) && Extends(earlier, later)
    ensures Readable(slots, later) && Entries(slots, later) == Entries(slots, earlier)
  {
    forall id | 0 <= id < |slots| && slots[id].live
      ensures Holds(later, slots[id].off, slots[id].length)
      ensures ReadAt(later, slots[id].off, slots[id].length) == ReadAt(earlier, slots[id].off, slots[id].length)
    {
      ReadsAreStable(earlier, later, slots[id].off, slots[id].length);
    }
  }

  lemma SlotPlaced(slots: seq<Slot>, chunks: seq<string>, id: nat, slot: Slot)
    requires Readable(slots, chunks) && id <= |slots|
    requires slot.live ==> Holds(chunks, slot.off, slot.length)
    ensures var slots' := if id < |slots| then slots[id := slot] else slots + [slot];
            && Readable(slots', chunks)
            && Entries(slots', chunks) == Placed(Entries(slots, chunks), id, EntryOf(slot, chunks))
  {
    var slots' := if id < |slots| then slots[id := slot] else slots + [slot];
    assert Readable(slots', chunks);
    var placed := Placed(Entries(slots, chunks), id, EntryOf(slot, chunks));
    assert |Entries(slots', chunks)| == |placed|;
    forall k | 0 <= k < |placed| ensures Entries(slots', chunks)[k] == placed[k] {
    }
  }

  class Interner {
    const hash: string -> nat
    const arena: Arena
    var slots: seq<Slot>
    var free: seq<nat>
    var byHash: map<nat, nat>
    ghost var contents: Contents

    ghost predicate Valid()
      reads this, arena
      ensures Valid() ==> contents.WellFormed()
    {
      && Readable(slots, arena.chunks)
      && PoolOk(Entries(slots, arena.chunks), free, byHash, hash, contents)
    }

    constructor (hash: string -> nat)
      ensures Valid() && fresh(arena) && this.hash == hash
      ensures contents == EMPTY
    {
      this.hash := hash;
      arena := new Arena();
      slots := [Slot(0, 0, 0, 0, false)];
      free := [];
      byHash := map[];
      contents := EMPTY;
    }

    /** The counters are the references, and a slot is live exactly while it has some. */
    lemma CountsAreReferences(id: nat)
      requires Valid()
      ensures 0 < id < |slots| ==> slots[id].refs == contents.refs[id] && (slots[id].live <==> slots[id].refs > 0)
      ensures id == 0 || id >= |slots| ==> contents.refs[id] == 0
    {
      if 0 < id < |slots| {
        assert EntryOk(Entries(slots, arena.chunks)[id], id, hash, contents);
      }
    }

    method Equal(id: nat, s: string) returns (same: bool)
      requires Valid()
      ensures same <==> id in contents.strs && contents.strs[id] == s
    {
      if id >= |slots| {
        return false;
      }
      assert EntryOk(Entries(slots, arena.chunks)[id], id, hash, contents);
      if !slots[id].live {
        return false;
      }
      var sl := slots[id];
      assert |contents.strs[id]| == sl.length;
      if sl.length != |s| {
        return false;
      }
      same := ReadAt(arena.chunks, sl.off, sl.length) == s;
    }

    method Get(id: nat) returns (s: string)
      requires Valid()
      ensures s == contents.Lookup(id)
    {
      if id == 0 || id >= |slots| {
        return "";
      }
      assert EntryOk(Entries(slots, arena.chunks)[id], id, hash, contents);
      if !slots[id].live {
        return "";
      }
      s := ReadAt(arena.chunks, slots[id].off, slots[id].length);
    }

    /** Files a string that was just appended to the arena. */
    method Allocate(s: string, h: nat, off: nat, length: nat) returns (id: nat)
      requires Valid() && s != "" && h == hash(s)
      requires Holds(arena.chunks, off, length) && ReadAt(arena.chunks, off, length) == s
      requires h in byHash ==> !Injective(hash)
      modifies this
      ensures Valid()
      ensures id != 0 && id !in old(contents.strs)
      ensures contents == old(contents).Shared(id, s)
    {
      ghost var was := Entries(slots, arena.chunks);
      var slot := Slot(off, length, 1, h, true);
      var n := |free|;
      id := if n > 0 then free[n - 1] else |slots|;
      Allocated(was, free, byHash, hash, contents, id, Entry(s, h, 1, true));
      SlotPlaced(slots, arena.chunks, id, slot);
      contents := contents.Shared(id, s);
      free := if n > 0 then free[..n - 1] else free;
      slots := if id < |slots| then slots[id := slot] else slots + [slot];
      byHash := if h in byHash then byHash else byHash[h := id];
    }

    /** Interning a string again only adds a reference; without collisions a string that is
        already live keeps its id. */
    method Intern(s: string) returns (id: nat)
      requires Valid()
      modifies this, arena
      ensures Valid()
      ensures s == "" ==> id == 0 && contents == old(contents)
      ensures s != "" ==> id != 0 && contents == old(contents).Shared(id, s)
      ensures id in old(contents.strs) ==> old(contents.strs)[id] == s
      ensures Injective(hash) && s in old(contents.strs).Values ==> id in old(contents.strs)
    {
      if Injective(hash) && s in contents.strs.Values {
        LiveTextsAreIndexed(Entries(slots, arena.chunks), free, byHash, hash, contents, s);
      }
      if s == "" {
        return 0;
      }
      var h := hash(s);
      if h in byHash {
        id := byHash[h];
        var same := Equal(id, s);
        if same {
          AddReference(id);
          return;
        }
      }
      ghost var before := arena.chunks;
      var off, length := arena.AppendStr(s);
      ArenaGrew(slots, before, arena.chunks);
      id := Allocate(s, h, off, length);
    }

    /** The increment shared by Intern and Retain. */
    method AddReference(id: nat)
      requires Valid() && id in contents.strs
      modifies this
      ensures Valid()
      ensures contents == old(contents).Shared(id, old(contents.strs)[id])
    {
      ghost var was := Entries(slots, arena.chunks);
      assert EntryOk(was[id], id, hash, contents);
      SlotPlaced(slots, arena.chunks, id, slots[id].(refs := slots[id].refs + 1));
      Joined(was, free, byHash, hash, contents, id);
      slots := slots[id := slots[id].(refs := slots[id].refs + 1)];
      contents := contents.Shared(id, contents.strs[id]);
    }

    method Retain(id: nat)
      requires Valid()
      requires id == 0 || id in contents.strs
      modifies this
      ensures Valid()
      ensures id == 0 ==> contents == old(contents)
      ensures id != 0 ==> contents == old(contents).Shared(id, old(contents.strs)[id])
    {
      if id == 0 {
        return;
      }
      AddReference(id);
    }

    method Release(id: nat)
      requires Valid()
      modifies this
      ensures Valid()
      ensures contents == old(contents).Released(id)
    {
      if id == 0 || id >= |slots| {
        contents.NothingToRelease(id);
        return;
      }
      ghost var was := Entries(slots, arena.chunks);
      var s := slots[id];
      assert EntryOk(was[id], id, hash, contents);
      if s.refs == 0 {
        contents.NothingToRelease(id);
        return;
      }
      if s.refs > 1 {
        SlotPlaced(slots, arena.chunks, id, s.(refs := s.refs - 1));
        Dropped(was, free, byHash, hash, contents, id);
        contents := contents.Released(id);
        slots := slots[id := s.(refs := s.refs - 1)];
      } else {
        Recycle(id);
      }
    }

    /** The last reference goes. */
    method Recycle(id: nat)
      requires Valid() && 0 < id < |slots| && slots[id].refs == 1
      modifies this
      ensures Valid()
      ensures contents == old(contents).Released(id)
    {
      ghost var was := Entries(slots, arena.chunks);
      var slot := slots[id].(refs := 0, live := false);
      SlotPlaced(slots, arena.chunks, id, slot);
      Recycled(was, free, byHash, hash, contents, id, EntryOf(slot, arena.chunks));
      contents := contents.Released(id);
      var h := slots[id].hash;
      byHash := if h in byHash && byHash[h] == id then byHash - {h} else byHash;
      slots := slots[id := slot];
      free := free + [id];
    }
  }
}
