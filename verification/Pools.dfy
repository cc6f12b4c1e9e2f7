/** Hash-indexed, refcounted slots with recycled ids: the scheme that the interner, the blob slab
    and the dictionary columns share. */
/** Free lists of recycled ids, shared by the interner, the blob slab and dictionary columns. */
module FreeLists {

  predicate NoDuplicates<T(==)>(s: seq<T>) {
    forall i, j :: 0 <= i < j < |s| ==> s[i] != s[j]
  }

  /** `free` lists exactly the ids of 1..n-1 that are not live, each of them once. */
  ghost predicate ListsDead(free: seq<nat>, live: seq<bool>) {
    && NoDuplicates(free)
    && (forall i :: 0 <= i < |free| ==> 0 < free[i] < |live| && !live[free[i]])
    && (forall id :: 0 < id < |live| && !live[id] ==> id in free)
  }

  lemma Popped(free: seq<nat>, live: seq<bool>)
    requires ListsDead(free, live) && |free| > 0
    ensures ListsDead(free[..|free| - 1], live[free[|free| - 1] := true])
  {
    var n := |free| - 1;
    var rest, live' := free[..n], live[free[n] := true];
    forall id | 0 < id < |live'| && !live'[id] ensures id in rest {
      assert id in free;
      var k :| 0 <= k < |free| && free[k] == id;
      assert rest[k] == id;
    }
  }

  lemma Pushed(free: seq<nat>, live: seq<bool>, id: nat)
    requires ListsDead(free, live) && 0 < id < |live| && live[id]
    ensures ListsDead(free + [id], live[id := false])
  {
    var free', live' := free + [id], live[id := false];
    assert free'[|free|] == id;
    forall k | 0 < k < |live'| && !live'[k] ensures k in free' {
      if k != id {
        assert k in free;
      }
    }
  }

  lemma Grown(free: seq<nat>, live: seq<bool>)
    requires ListsDead(free, live) && |live| > 0
    ensures ListsDead(free, live + [true])
  {
    var live' := live + [true];
    forall id | 0 < id < |live'| && !live'[id] ensures id in free {
      assert !live[id];
    }
  }
}

module Pools {
  import opened FreeLists

  /** One slot: the text it stands for, the hash it is filed under, its count. */
  datatype Entry = Entry(text: string, hash: nat, refs: nat, live: bool)

  ghost predicate Injective(hash: string -> nat) {
    forall s, t :: hash(s) == hash(t) ==> s == t
  }

  /** The meaning of a pool: which text a live id stands for, and how many references each id has. */
  datatype Contents = Contents(strs: map<nat, string>, refs: multiset<nat>) {
    ghost predicate WellFormed() {
      && (forall id :: id in strs <==> id in refs)
      && (forall id :: id in strs ==> id != 0 && strs[id] != "")
    }

    ghost function Lookup(id: nat): string {
      if id in strs then strs[id] else ""
    }

    /** One reference fewer; a text whose last reference goes is forgotten. */
    ghost function Released(id: nat): Contents {
      var rest := refs - multiset{id};
      Contents(if id in rest then strs else strs - {id}, rest)
    }

    lemma NothingToRelease(id: nat)
      requires WellFormed() && id !in strs
      ensures Released(id) == this
    {
      assert refs - multiset{id} == refs;
      assert strs - {id} == strs;
    }

    /** One reference more on `id`, which stands for s. */
    ghost function Shared(id: nat, s: string): Contents {
      Contents(strs[id := s], refs + multiset{id})
    }
  }

  const EMPTY := Contents(map[], multiset{})

  function LiveFlags(entries: seq<Entry>): (flags: seq<bool>)
    ensures |flags| == |entries|
    ensures forall i :: 0 <= i < |entries| ==> flags[i] == entries[i].live
  {
    seq(|entries|, i requires 0 <= i < |entries| => entries[i].live)
  }

  ghost predicate EntryOk(e: Entry, id: nat, hash: string -> nat, contents: Contents) {
    && e.live == (id in contents.strs)
    && e.refs == contents.refs[id]
    && (e.live ==> e.text == contents.strs[id] && e.hash == hash(e.text))
  }

  ghost predicate EntriesOk(entries: seq<Entry>, hash: string -> nat, contents: Contents) {
    && |entries| > 0 && !entries[0].live
    && contents.WellFormed()
    && (forall id :: 0 <= id < |entries| ==> EntryOk(entries[id], id, hash, contents))
    && (forall id :: id in contents.strs ==> id < |entries|)
  }

  /** Every hash entry names a live slot with that hash; with no collisions every live id is the
      one its hash leads to. */
  ghost predicate IndexOk(entries: seq<Entry>, byHash: map<nat, nat>, hash: string -> nat) {
    && (forall h :: h in byHash ==>
          0 < byHash[h] < |entries| && entries[byHash[h]].live && entries[byHash[h]].hash == h)
    && (Injective(hash) ==>
          forall id :: 0 <= id < |entries| && entries[id].live ==>
            entries[id].hash in byHash && byHash[entries[id].hash] == id)
  }

  ghost predicate PoolOk(entries: seq<Entry>, free: seq<nat>, byHash: map<nat, nat>, hash: string -> nat,
                         contents: Contents) {
    && EntriesOk(entries, hash, contents)
    && ListsDead(free, LiveFlags(entries))
    && IndexOk(entries, byHash, hash)
  }

  /** Replacing one entry, or adding one at the end, keeps every other entry's story. */
  lemma EntryReplaced(entries: seq<Entry>, entries': seq<Entry>, id: nat, hash: string -> nat,
                      before: Contents, after: Contents)
    requires EntriesOk(entries, hash, before) && after.WellFormed()
    requires 0 < id <= |entries| && |entries'| == (if id == |entries| then id + 1 else |entries|)
    requires forall k :: 0 <= k < |entries| && k != id ==> entries'[k] == entries[k]
    requires forall k :: k != id ==> (k in after.strs <==> k in before.strs) && after.refs[k] == before.refs[k]
    requires forall k :: k != id && k in before.strs ==> after.strs[k] == before.strs[k]
    requires EntryOk(entries'[id], id, hash, after)
    ensures EntriesOk(entries', hash, after)
  {
    forall k | 0 <= k < |entries'| ensures EntryOk(entries'[k], k, hash, after) {
      if k != id {
        assert EntryOk(entries[k], k, hash, before);
      }
    }
  }

  function Placed(entries: seq<Entry>, id: nat, e: Entry): (r: seq<Entry>)
    requires id <= |entries|
    ensures |r| == if id == |entries| then id + 1 else |entries|
    ensures r[id] == e
    ensures forall k :: 0 <= k < |entries| && k != id ==> r[k] == entries[k]
  {
    if id == |entries| then entries + [e] else entries[id := e]
  }

  lemma IndexKept(entries: seq<Entry>, byHash: map<nat, nat>, id: nat, e: Entry, hash: string -> nat)
    requires IndexOk(entries, byHash, hash) && id < |entries| && entries[id].live
    requires e.live && e.hash == entries[id].hash
    ensures IndexOk(entries[id := e], byHash, hash)
  {
  }

  lemma IndexAllocated(entries: seq<Entry>, byHash: map<nat, nat>, id: nat, e: Entry, hash: string -> nat)
    requires IndexOk(entries, byHash, hash) && 0 < id <= |entries| && e.live
    requires id < |entries| ==> !entries[id].live
    requires e.hash in byHash ==> !Injective(hash)
    ensures IndexOk(Placed(entries, id, e), if e.hash in byHash then byHash else byHash[e.hash := id], hash)
  {
  }

  lemma IndexReleased(entries: seq<Entry>, byHash: map<nat, nat>, id: nat, e: Entry, hash: string -> nat)
    requires IndexOk(entries, byHash, hash) && id < |entries| && entries[id].live && !e.live
    ensures var h := entries[id].hash;
            IndexOk(entries[id := e], if h in byHash && byHash[h] == id then byHash - {h} else byHash, hash)
  {
  }

  /** A new text takes the most recently freed id, or the next one. */
  lemma Allocated(entries: seq<Entry>, free: seq<nat>, byHash: map<nat, nat>, hash: string -> nat,
                  contents: Contents, id: nat, e: Entry)
    requires PoolOk(entries, free, byHash, hash, contents)
    requires e == Entry(e.text, hash(e.text), 1, true) && e.text != ""
    requires e.hash in byHash ==> !Injective(hash)
    requires id == if |free| > 0 then free[|free| - 1] else |entries|
    ensures 0 < id <= |entries| && id !in contents.strs
    ensures PoolOk(Placed(entries, id, e), if |free| > 0 then free[..|free| - 1] else free,
                   if e.hash in byHash then byHash else byHash[e.hash := id], hash, contents.Shared(id, e.text))
  {
    var entries' := Placed(entries, id, e);
    if |free| > 0 {
      assert EntryOk(entries[id], id, hash, contents);
      Popped(free, LiveFlags(entries));
      assert LiveFlags(entries') == LiveFlags(entries)[id := true];
    } else {
      Grown(free, LiveFlags(entries));
      assert LiveFlags(entries') == LiveFlags(entries) + [true];
    }
    IndexAllocated(entries, byHash, id, e, hash);
    EntryReplaced(entries, entries', id, hash, contents, contents.Shared(id, e.text));
  }

  /** The last reference goes: the hash entry, if it is this slot's, is deleted and the id freed. */
  lemma Recycled(entries: seq<Entry>, free: seq<nat>, byHash: map<nat, nat>, hash: string -> nat,
                 contents: Contents, id: nat, e: Entry)
    requires PoolOk(entries, free, byHash, hash, contents)
    requires 0 < id < |entries| && entries[id].refs == 1
    requires !e.live && e.refs == 0
    ensures var h := entries[id].hash;
            PoolOk(entries[id := e], free + [id],
                   if h in byHash && byHash[h] == id then byHash - {h} else byHash, hash, contents.Released(id))
  {
    assert EntryOk(entries[id], id, hash, contents);
    Pushed(free, LiveFlags(entries), id);
    assert LiveFlags(entries[id := e]) == LiveFlags(entries)[id := false];
    IndexReleased(entries, byHash, id, e, hash);
    EntryReplaced(entries, entries[id := e], id, hash, contents, contents.Released(id));
  }

  /** A change of a live entry's count that leaves it live. */
  lemma Recounted(entries: seq<Entry>, free: seq<nat>, byHash: map<nat, nat>, hash: string -> nat,
                  contents: Contents, id: nat, refs: nat, after: Contents)
    requires PoolOk(entries, free, byHash, hash, contents)
    requires id < |entries| && entries[id].live && refs > 0
    requires after == Contents(contents.strs, contents.refs[id := refs])
    ensures PoolOk(entries[id := entries[id].(refs := refs)], free, byHash, hash, after)
  {
    var entries' := entries[id := entries[id].(refs := refs)];
    assert EntryOk(entries[id], id, hash, contents);
    assert LiveFlags(entries') == LiveFlags(entries);
    IndexKept(entries, byHash, id, entries'[id], hash);
    EntryReplaced(entries, entries', id, hash, contents, after);
  }

  lemma Dropped(entries: seq<Entry>, free: seq<nat>, byHash: map<nat, nat>, hash: string -> nat,
                contents: Contents, id: nat)
    requires PoolOk(entries, free, byHash, hash, contents)
    requires id < |entries| && entries[id].refs > 1
    ensures PoolOk(entries[id := entries[id].(refs := entries[id].refs - 1)], free, byHash, hash, contents.Released(id))
  {
    assert EntryOk(entries[id], id, hash, contents);
    var left := entries[id].refs - 1;
    assert contents.refs - multiset{id} == contents.refs[id := left];
    Recounted(entries, free, byHash, hash, contents, id, left, contents.Released(id));
  }

  lemma Joined(entries: seq<Entry>, free: seq<nat>, byHash: map<nat, nat>, hash: string -> nat,
               contents: Contents, id: nat)
    requires PoolOk(entries, free, byHash, hash, contents)
    requires id < |entries| && entries[id].live
    ensures id in contents.strs
    ensures PoolOk(entries[id := entries[id].(refs := entries[id].refs + 1)], free, byHash, hash,
                   contents.Shared(id, contents.strs[id]))
  {
    assert EntryOk(entries[id], id, hash, contents);
    var more := entries[id].refs + 1;
    assert contents.refs + multiset{id} == contents.refs[id := more];
    assert contents.strs[id := contents.strs[id]] == contents.strs;
    Recounted(entries, free, byHash, hash, contents, id, more, contents.Shared(id, contents.strs[id]));
  }

  /** Without collisions, a live text is found through its hash. */
  lemma LiveTextsAreIndexed(entries: seq<Entry>, free: seq<nat>, byHash: map<nat, nat>, hash: string -> nat,
                            contents: Contents, s: string)
    requires PoolOk(entries, free, byHash, hash, contents)
    requires Injective(hash) && s in contents.strs.Values
    ensures s != "" && hash(s) in byHash && byHash[hash(s)] in contents.strs && contents.strs[byHash[hash(s)]] == s
  {
    var id :| id in contents.strs && contents.strs[id] == s;
    assert EntryOk(entries[id], id, hash, contents);
  }

  lemma IndexedIsLive(entries: seq<Entry>, free: seq<nat>, byHash: map<nat, nat>, hash: string -> nat,
                      contents: Contents, s: string)
    requires PoolOk(entries, free, byHash, hash, contents) && hash(s) in byHash
    ensures 0 < byHash[hash(s)] < |entries| && byHash[hash(s)] in contents.strs
    ensures contents.strs[byHash[hash(s)]] != s ==> !Injective(hash)
    ensures contents.strs[byHash[hash(s)]] != ""
  {
    var id := byHash[hash(s)];
    assert EntryOk(entries[id], id, hash, contents);
  }

  /** Without collisions no text is stored twice. */
  lemma LiveTextsAreDistinct(entries: seq<Entry>, free: seq<nat>, byHash: map<nat, nat>, hash: string -> nat,
                             contents: Contents, id: nat, id': nat)
    requires PoolOk(entries, free, byHash, hash, contents) && Injective(hash)
    requires id in contents.strs && id' in contents.strs && contents.strs[id] == contents.strs[id']
    ensures id == id'
  {
    assert EntryOk(entries[id], id, hash, contents);
    assert EntryOk(entries[id'], id', hash, contents);
  }
}
