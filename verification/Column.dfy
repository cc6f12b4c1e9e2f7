/** One hot column over the ring: dictionary-encoded, raw-interned or numeric, with an inverted
    index from dictionary ids to the sequence numbers of the rows that hold them. */

/** The dictionary mode of a column, as statements about the values of its fields. */
module Dictionaries {
  import opened Pools
  import opened Ledger

  const U32: nat := 0x1_0000_0000

  datatype DictSlot = DictSlot(internID: nat, hash: nat, refs: nat, live: bool)

  datatype Dictionary = Dictionary(dict: seq<DictSlot>, free: seq<nat>, byHash: map<nat, nat>,
                                   bitmaps: map<nat, set<nat>>, cardinality: nat)

  /** The interner ids that live dictionary slots hold, 0 for dead slots. */
  function InternIds(dict: seq<DictSlot>): (r: seq<nat>)
    ensures |r| == |dict|
    ensures forall k :: 0 <= k < |dict| ==> r[k] == if dict[k].live then dict[k].internID else 0
  {
    seq(|dict|, k requires 0 <= k < |dict| => if dict[k].live then dict[k].internID else 0)
  }

  ghost predicate Named(dict: seq<DictSlot>, names: map<nat, string>) {
    forall k :: 0 <= k < |dict| && dict[k].live ==> dict[k].internID != 0 && dict[k].internID in names
  }

  ghost function EntryOf(slot: DictSlot, names: map<nat, string>): Entry
    requires slot.live ==> slot.internID in names
  {
    Entry(if slot.live then names[slot.internID] else "", slot.hash, slot.refs, slot.live)
  }

  ghost function Entries(dict: seq<DictSlot>, names: map<nat, string>): (r: seq<Entry>)
    requires Named(dict, names)
    ensures |r| == |dict|
    ensures forall k :: 0 <= k < |dict| ==> r[k] == EntryOf(dict[k], names)
  {
    seq(|dict|, k requires 0 <= k < |dict| => EntryOf(dict[k], names))
  }

  ghost predicate SlotsOk(d: Dictionary, hash: string -> nat, pool: Contents, names: map<nat, string>) {
    match d
    case Dictionary(dict, free, byHash, _, _) =>
      Named(dict, names) && PoolOk(Entries(dict, names), free, byHash, hash, pool)
  }

  /** Each live dictionary slot counts the rows that hold it, owns one interner reference and has
      one bitmap; the cardinality counts the live slots. `pool` says what the slots mean. */
  ghost predicate DictOk(d: Dictionary, ids: seq<nat>, hash: string -> nat, pool: Contents,
                         names: map<nat, string>, held: multiset<nat>)
  {
    match d
    case Dictionary(dict, free, byHash, bitmaps, cardinality) =>
      && SlotsOk(d, hash, pool, names)
      && pool.refs == RefsOf(ids)
      && held == RefsOf(InternIds(dict))
      && cardinality == |pool.strs|
      && bitmaps.Keys == pool.strs.Keys
  }

  /** Row i shows the text its id stands for; id 0 shows nothing. */
  ghost predicate Shows(ids: seq<nat>, texts: map<nat, string>, vals: seq<string>) {
    && |vals| == |ids|
    && forall i :: 0 <= i < |ids| ==>
         if ids[i] == 0 then vals[i] == "" else ids[i] in texts && vals[i] == texts[ids[i]] && vals[i] != ""
  }

  /** No row is missing from the bitmap of its value. */
  ghost predicate Indexed(bitmaps: map<nat, set<nat>>, ids: seq<nat>, stamps: seq<int>) {
    && |stamps| == |ids|
    && forall i :: 0 <= i < |ids| && ids[i] != 0 ==>
         ids[i] in bitmaps && stamps[i] % U32 in bitmaps[ids[i]]
  }

  /** An index entry is accounted for: it is about a row that has since been overwritten by a
      later one, or about the row that its slot holds now. */
  ghost predicate Accounted(x: nat, k: nat, ids: seq<nat>, stamps: seq<int>)
    requires |ids| == |stamps| > 0
  {
    var i := x % |ids|;
    x < stamps[i] || (stamps[i] == x && ids[i] == k)
  }

  /** No bitmap has an entry for a live row that holds another value, except under the stale numbers. */
  ghost predicate Exact(bitmaps: map<nat, set<nat>>, ids: seq<nat>, stamps: seq<int>, stale: set<nat>)
    requires |ids| == |stamps| > 0
  {
    forall k, x :: k in bitmaps && x in bitmaps[k] && x !in stale ==> Accounted(x, k, ids, stamps)
  }

  lemma AllZero(ids: seq<nat>)
    requires forall i :: 0 <= i < |ids| ==> ids[i] == 0
    ensures RefsOf(ids) == multiset{}
  {
  }

  lemma EmptyDictionary(ids: seq<nat>, hash: string -> nat)
    requires forall i :: 0 <= i < |ids| ==> ids[i] == 0
    ensures DictOk(Dictionary([DictSlot(0, 0, 0, false)], [], map[], map[], 0), ids, hash, EMPTY, map[], multiset{})
  {
    AllZero(ids);
    AllZero(InternIds([DictSlot(0, 0, 0, false)]));
  }

  lemma SlotsIgnoreBitmaps(d: Dictionary, d': Dictionary, hash: string -> nat, pool: Contents, names: map<nat, string>)
    requires SlotsOk(d, hash, pool, names) && d'.dict == d.dict && d'.free == d.free && d'.byHash == d.byHash
    ensures SlotsOk(d', hash, pool, names)
  {
  }

  lemma DictCounts(d: Dictionary, ids: seq<nat>, hash: string -> nat, pool: Contents, names: map<nat, string>,
                   held: multiset<nat>)
    requires DictOk(d, ids, hash, pool, names, held)
    ensures pool.refs == RefsOf(ids) && d.cardinality == |pool.strs| && d.bitmaps.Keys == pool.strs.Keys
    ensures SlotsOk(d, hash, pool, names)
  {
  }

  lemma SlotReplaced(dict: seq<DictSlot>, names: map<nat, string>, k: nat, slot: DictSlot)
    requires Named(dict, names) && k < |dict|
    requires slot.live ==> slot.internID != 0 && slot.internID in names
    ensures Named(dict[k := slot], names)
    ensures Entries(dict[k := slot], names) == Entries(dict, names)[k := EntryOf(slot, names)]
    ensures InternIds(dict[k := slot]) == InternIds(dict)[k := if slot.live then slot.internID else 0]
  {
  }

  /** A row leaves a slot that other rows still hold. */
  lemma RowLeft(d: Dictionary, ids: seq<nat>, hash: string -> nat, pool: Contents,
                names: map<nat, string>, held: multiset<nat>, idx: nat, d': Dictionary)
    requires DictOk(d, ids, hash, pool, names, held) && idx < |ids|
    requires 0 < ids[idx] < |d.dict| && d.dict[ids[idx]].refs > 1
    requires d' == d.(dict := d.dict[ids[idx] := d.dict[ids[idx]].(refs := d.dict[ids[idx]].refs - 1)])
    ensures DictOk(d', ids[idx := 0], hash, pool.Released(ids[idx]), names, held)
    ensures ids[idx] in RefsOf(ids[idx := 0]) && pool.Released(ids[idx]).strs == pool.strs
  {
    var k := ids[idx];
    var slot := d.dict[k].(refs := d.dict[k].refs - 1);
    assert EntryOk(Entries(d.dict, names)[k], k, hash, pool);
    SlotReplaced(d.dict, names, k, slot);
    Dropped(Entries(d.dict, names), d.free, d.byHash, hash, pool, k);
    RefsAfterUpdate(ids, idx, 0);
    assert InternIds(d.dict)[k := slot.internID] == InternIds(d.dict);
  }

  lemma LastRowLeftPool(d: Dictionary, hash: string -> nat, pool: Contents, names: map<nat, string>, k: nat,
                        d': Dictionary)
    requires SlotsOk(d, hash, pool, names)
    requires 0 < k < |d.dict| && d.dict[k].refs == 1
    requires d'.dict == d.dict[k := d.dict[k].(refs := 0, live := false)]
    requires d'.free == d.free + [k]
    requires var h := d.dict[k].hash;
             d'.byHash == if h in d.byHash && d.byHash[h] == k then d.byHash - {h} else d.byHash
    ensures d.dict[k].live && k in pool.strs && pool.refs[k] == 1
    ensures SlotsOk(d', hash, pool.Released(k), names)
    ensures InternIds(d'.dict) == InternIds(d.dict)[k := 0]
  {
    var slot := d.dict[k].(refs := 0, live := false);
    assert EntryOk(Entries(d.dict, names)[k], k, hash, pool);
    SlotReplaced(d.dict, names, k, slot);
    Recycled(Entries(d.dict, names), d.free, d.byHash, hash, pool, k, EntryOf(slot, names));
  }

  /** The last row leaves a slot: the slot, its bitmap, its hash entry and its interner reference go. */
  lemma LastRowLeft(d: Dictionary, ids: seq<nat>, hash: string -> nat, pool: Contents,
                    names: map<nat, string>, held: multiset<nat>, idx: nat, d': Dictionary)
    requires DictOk(d, ids, hash, pool, names, held) && idx < |ids|
    requires 0 < ids[idx] < |d.dict| && d.dict[ids[idx]].refs == 1
    requires d'.dict == d.dict[ids[idx] := d.dict[ids[idx]].(refs := 0, live := false)]
    requires d'.free == d.free + [ids[idx]]
    requires var h := d.dict[ids[idx]].hash;
             d'.byHash == if h in d.byHash && d.byHash[h] == ids[idx] then d.byHash - {h} else d.byHash
    requires d'.bitmaps == d.bitmaps - {ids[idx]} && d'.cardinality == d.cardinality - 1
    ensures d.dict[ids[idx]].live && d.dict[ids[idx]].internID in held
    ensures DictOk(d', ids[idx := 0], hash, pool.Released(ids[idx]), names, held - multiset{d.dict[ids[idx]].internID})
    ensures ids[idx] !in RefsOf(ids[idx := 0]) && pool.Released(ids[idx]).strs == pool.strs - {ids[idx]}
  {
    var k := ids[idx];
    LastRowLeftPool(d, hash, pool, names, k, d');
    LastRowGone(ids, idx, pool);
    RefsAfterUpdate(InternIds(d.dict), k, 0);
  }

  lemma LastRowGone(ids: seq<nat>, idx: nat, pool: Contents)
    requires idx < |ids| && pool.refs == RefsOf(ids) && ids[idx] in pool.strs && pool.refs[ids[idx]] == 1
    ensures pool.Released(ids[idx]).refs == RefsOf(ids[idx := 0])
    ensures pool.Released(ids[idx]).strs == pool.strs - {ids[idx]}
    ensures |pool.Released(ids[idx]).strs| == |pool.strs| - 1
  {
    RefsAfterUpdate(ids, idx, 0);
    assert ids[idx] !in pool.Released(ids[idx]).refs;
  }

  lemma KeysGrow(bitmaps: map<nat, set<nat>>, strs: map<nat, string>, k: nat, bits: set<nat>, s: string)
    requires bitmaps.Keys == strs.Keys
    ensures bitmaps[k := bits].Keys == strs[k := s].Keys
    ensures k !in strs ==> |strs[k := s]| == |strs| + 1
    ensures k in strs && strs[k] == s ==> strs[k := s] == strs
  {
  }

  lemma RowJoinedPool(d: Dictionary, hash: string -> nat, pool: Contents, names: map<nat, string>, k: nat,
                      d': Dictionary)
    requires SlotsOk(d, hash, pool, names)
    requires k in pool.strs && k < |d.dict|
    requires d'.dict == d.dict[k := d.dict[k].(refs := d.dict[k].refs + 1)] && d'.free == d.free &&
        d'.byHash == d.byHash
    ensures SlotsOk(d', hash, pool.Shared(k, pool.strs[k]), names)
    ensures InternIds(d'.dict) == InternIds(d.dict)
  {
    var slot := d.dict[k].(refs := d.dict[k].refs + 1);
    assert EntryOk(Entries(d.dict, names)[k], k, hash, pool);
    SlotReplaced(d.dict, names, k, slot);
    Joined(Entries(d.dict, names), d.free, d.byHash, hash, pool, k);
  }

  /** A row joins a slot that is live already. */
  lemma RowJoined(d: Dictionary, ids: seq<nat>, hash: string -> nat, pool: Contents,
                  names: map<nat, string>, held: multiset<nat>, idx: nat, k: nat, bits: set<nat>)
    requires DictOk(d, ids, hash, pool, names, held) && idx < |ids| && ids[idx] == 0
    requires k in pool.strs
    ensures 0 < k < |d.dict|
    ensures var d' := d.(dict := d.dict[k := d.dict[k].(refs := d.dict[k].refs + 1)], bitmaps := d.bitmaps[k := bits]);
            DictOk(d', ids[idx := k], hash, pool.Shared(k, pool.strs[k]), names, held)
    ensures pool.Shared(k, pool.strs[k]).strs == pool.strs
  {
    var d' := d.(dict := d.dict[k := d.dict[k].(refs := d.dict[k].refs + 1)], bitmaps := d.bitmaps[k := bits]);
    RowJoinedPool(d, hash, pool, names, k, d');
    RefsAfterUpdate(ids, idx, k);
    KeysGrow(d.bitmaps, pool.strs, k, bits, pool.strs[k]);
  }

  lemma SlotAdded(dict: seq<DictSlot>, names: map<nat, string>, k: nat, slot: DictSlot, s: string)
    requires Named(dict, names) && k <= |dict| && (k < |dict| ==> !dict[k].live)
    requires slot.live && slot.internID != 0
    requires slot.internID in RefsOf(InternIds(dict)) ==> slot.internID in names && names[slot.internID] == s
    ensures var names' := names[slot.internID := s];
            var dict' := if k < |dict| then dict[k := slot] else dict + [slot];
            && Named(dict', names')
            && Entries(dict', names') == Placed(Entries(dict, names), k, Entry(s, slot.hash, slot.refs, true))
            && RefsOf(InternIds(dict')) == RefsOf(InternIds(dict)) + multiset{slot.internID}
  {
    var names' := names[slot.internID := s];
    var dict' := if k < |dict| then dict[k := slot] else dict + [slot];
    forall j | 0 <= j < |dict| && dict[j].live && dict[j].internID == slot.internID
        ensures names[dict[j].internID] == s {
      assert InternIds(dict)[j] in multiset(InternIds(dict));
    }
    assert Named(dict', names');
    assert Entries(dict', names') == Placed(Entries(dict, names), k, Entry(s, slot.hash, slot.refs, true));
    SlotRefsAdded(dict, k, slot);
  }

  lemma SlotRefsAdded(dict: seq<DictSlot>, k: nat, slot: DictSlot)
    requires k <= |dict| && (k < |dict| ==> !dict[k].live) && slot.live && slot.internID != 0
    ensures var dict' := if k < |dict| then dict[k := slot] else dict + [slot];
            RefsOf(InternIds(dict')) == RefsOf(InternIds(dict)) + multiset{slot.internID}
  {
    hide RefsOf;
    if k < |dict| {
      assert InternIds(dict[k := slot]) == InternIds(dict)[k := slot.internID];
      RefsFilled(InternIds(dict), k, slot.internID);
    } else {
      assert InternIds(dict + [slot]) == InternIds(dict) + [slot.internID];
      RefsAfterPush(InternIds(dict), slot.internID);
    }
  }

  /** A new value takes a fresh dictionary slot, which the row is about to hold. */
  lemma SlotCreated(d: Dictionary, ids: seq<nat>, hash: string -> nat, pool: Contents,
                    names: map<nat, string>, held: multiset<nat>, s: string, slot: DictSlot, k: nat, d': Dictionary)
    requires DictOk(d, ids, hash, pool, names, held)
    requires s != "" && slot == DictSlot(slot.internID, hash(s), 1, true) && slot.internID != 0
    requires slot.internID in held ==> slot.internID in names && names[slot.internID] == s
    requires slot.hash in d.byHash ==> !Injective(hash)
    requires k == if |d.free| > 0 then d.free[|d.free| - 1] else |d.dict|
    requires k <= |d.dict| ==> d'.dict == if k < |d.dict| then d.dict[k := slot] else d.dict + [slot]
    requires d'.free == if |d.free| > 0 then d.free[..|d.free| - 1] else d.free
    requires d'.byHash == if slot.hash in d.byHash then d.byHash else d.byHash[slot.hash := k]
    ensures 0 < k <= |d.dict| && k !in pool.strs && (k < |d.dict| ==> !d.dict[k].live)
    ensures SlotsOk(d', hash, pool.Shared(k, s), names[slot.internID := s])
    ensures RefsOf(InternIds(d'.dict)) == held + multiset{slot.internID}
  {
    Allocated(Entries(d.dict, names), d.free, d.byHash, hash, pool, k, Entry(s, slot.hash, 1, true));
    if k < |d.dict| {
      assert EntryOk(Entries(d.dict, names)[k], k, hash, pool);
    }
    SlotAdded(d.dict, names, k, slot, s);
  }

  /** Once the row holds the new slot, everything counts again. */
  lemma SlotTaken(d: Dictionary, ids: seq<nat>, hash: string -> nat, pool: Contents, names: map<nat, string>,
                  idx: nat, k: nat, s: string)
    requires idx < |ids| && ids[idx] == 0 && k !in pool.strs && k != 0
    requires pool.refs == RefsOf(ids)
    requires SlotsOk(d, hash, pool.Shared(k, s), names)
    requires d.cardinality == |pool.strs| + 1 && d.bitmaps.Keys == pool.strs.Keys + {k}
    ensures DictOk(d, ids[idx := k], hash, pool.Shared(k, s), names, RefsOf(InternIds(d.dict)))
  {
    RefsAfterUpdate(ids, idx, k);
  }

  /** The bitmaps after row idx has left its slot: a slot that no row holds loses its bitmap. */
  function WithoutRow(bitmaps: map<nat, set<nat>>, ids: seq<nat>, idx: nat): map<nat, set<nat>>
    requires idx < |ids|
  {
    if ids[idx] == 0 || ids[idx] in RefsOf(ids[idx := 0]) then bitmaps else bitmaps - {ids[idx]}
  }

  /** The bitmaps after a row with sequence number seq has joined slot k. */
  function WithRow(bitmaps: map<nat, set<nat>>, k: nat, seqNo: nat): map<nat, set<nat>> {
    if k == 0 then bitmaps
    else bitmaps[k := (if k in bitmaps then bitmaps[k] else {}) + {seqNo % U32}]
  }

  /** Overwriting row idx keeps the index exact, unless the row is written twice under one sequence
      number, first with a value that other rows hold and then with another one. */
  ghost predicate LeavesNoGhost(ids: seq<nat>, stamps: seq<int>, idx: nat, seqNo: nat, k: nat)
    requires |ids| == |stamps| && idx < |ids|
  {
    stamps[idx] < seqNo || ids[idx] == 0 || ids[idx] == k || ids[idx] !in RefsOf(ids[idx := 0])
  }

  /** What becomes of an index entry that was accounted for when its slot idx is overwritten. */
  lemma EntryOverwritten(ids: seq<nat>, stamps: seq<int>, idx: nat, seqNo: nat, k: nat, g: nat, x: nat)
    requires |ids| == |stamps| && idx < |ids| && idx == seqNo % |ids| && stamps[idx] <= seqNo
    requires Accounted(x, g, ids, stamps)
    ensures Accounted(x, g, ids[idx := k], stamps[idx := seqNo])
         || (x == seqNo == stamps[idx] && g == ids[idx] && g != k)
  {
  }

  lemma OverwriteEntries(bitmaps: map<nat, set<nat>>, ids: seq<nat>, stamps: seq<int>, idx: nat, seqNo: nat, k: nat,
                         stale: set<nat>, g: nat, x: nat)
    requires |ids| == |stamps| && idx < |ids| && idx == seqNo % |ids| && stamps[idx] <= seqNo < U32
    requires Exact(bitmaps, ids, stamps, stale) && x !in stale
    requires var b := WithRow(WithoutRow(bitmaps, ids, idx), k, seqNo); g in b && x in b[g]
    ensures Accounted(x, g, ids[idx := k], stamps[idx := seqNo])
         || (x == seqNo == stamps[idx] && g == ids[idx] && g != k && g in WithoutRow(bitmaps, ids, idx))
  {
    var kept := WithoutRow(bitmaps, ids, idx);
    if g in kept && x in kept[g] {
      assert x in bitmaps[g];
      EntryOverwritten(ids, stamps, idx, seqNo, k, g, x);
    }
  }

  /** From an index that is exact off some stale numbers, an overwrite makes at most its own number stale,
      and does so exactly if it leaves a row listed under an id that it no longer holds. */
  lemma OverwriteExact(bitmaps: map<nat, set<nat>>, ids: seq<nat>, stamps: seq<int>, idx: nat, seqNo: nat, k: nat,
                       stale: set<nat>)
    requires |ids| == |stamps| && idx < |ids| && idx == seqNo % |ids| && stamps[idx] <= seqNo < U32
    requires 0 !in bitmaps && Indexed(bitmaps, ids, stamps) && Exact(bitmaps, ids, stamps, stale)
    ensures var b := WithRow(WithoutRow(bitmaps, ids, idx), k, seqNo);
            && Exact(b, ids[idx := k], stamps[idx := seqNo], stale + {seqNo})
            && (seqNo !in stale ==>
                  (Exact(b, ids[idx := k], stamps[idx := seqNo], stale) <==> LeavesNoGhost(ids, stamps, idx, seqNo, k)))
  {
    hide WithRow, WithoutRow, Accounted, Indexed, LeavesNoGhost;
    var b := WithRow(WithoutRow(bitmaps, ids, idx), k, seqNo);
    var ids', stamps' := ids[idx := k], stamps[idx := seqNo];
    forall g, x | g in b && x in b[g] && x !in stale
      ensures Accounted(x, g, ids', stamps') || (x == seqNo && !LeavesNoGhost(ids, stamps, idx, seqNo, k))
    {
      OverwriteEntries(bitmaps, ids, stamps, idx, seqNo, k, stale, g, x);
      if x == seqNo == stamps[idx] && g == ids[idx] && g != k && g in WithoutRow(bitmaps, ids, idx) {
        GhostStays(bitmaps, ids, stamps, idx, seqNo, k);
      }
    }
    if !LeavesNoGhost(ids, stamps, idx, seqNo, k) && seqNo !in stale {
      GhostListed(bitmaps, ids, stamps, idx, seqNo, k);
    }
  }

  lemma GhostStays(bitmaps: map<nat, set<nat>>, ids: seq<nat>, stamps: seq<int>, idx: nat, seqNo: nat, k: nat)
    requires |ids| == |stamps| && idx < |ids| && 0 !in bitmaps
    requires stamps[idx] == seqNo && ids[idx] != k && ids[idx] in WithoutRow(bitmaps, ids, idx)
    ensures !LeavesNoGhost(ids, stamps, idx, seqNo, k)
  {
  }

  lemma GhostListed(bitmaps: map<nat, set<nat>>, ids: seq<nat>, stamps: seq<int>, idx: nat, seqNo: nat, k: nat)
    requires |ids| == |stamps| && idx < |ids| && idx == seqNo % |ids| && stamps[idx] <= seqNo < U32
    requires Indexed(bitmaps, ids, stamps) && !LeavesNoGhost(ids, stamps, idx, seqNo, k)
    ensures var b := WithRow(WithoutRow(bitmaps, ids, idx), k, seqNo);
            ids[idx] in b && seqNo in b[ids[idx]] && !Accounted(seqNo, ids[idx], ids[idx := k], stamps[idx := seqNo])
  {
    assert seqNo in bitmaps[ids[idx]];
  }

  lemma OverwriteIndexed(bitmaps: map<nat, set<nat>>, ids: seq<nat>, stamps: seq<int>, idx: nat, seqNo: nat, k: nat)
    requires |ids| == |stamps| && idx < |ids| && Indexed(bitmaps, ids, stamps)
    ensures Indexed(WithRow(WithoutRow(bitmaps, ids, idx), k, seqNo), ids[idx := k], stamps[idx := seqNo])
  {
    var b := WithRow(WithoutRow(bitmaps, ids, idx), k, seqNo);
    var ids', stamps' := ids[idx := k], stamps[idx := seqNo];
    forall i | 0 <= i < |ids'| && ids'[i] != 0 ensures ids'[i] in b && stamps'[i] % U32 in b[ids'[i]] {
      if i != idx {
        assert ids[idx := 0][i] == ids[i];
        assert ids[i] in RefsOf(ids[idx := 0]);
      }
    }
  }
}

module Columns {
  import opened Pools
  import opened Ledger
  import opened Dictionaries
  import opened Options
  import opened Sequences
  import Interning

  datatype Kind = Dict | Raw | F64

  const MAX_DICT: nat := 16384

  /** The fields of a column as one value: the concrete ones, then what they mean.
      - vals and nums: what each ring slot shows, one text ("" for none) or one number;
      - stamps: the sequence number each slot was last written under, -1 before the first;
      - held and names: the interner references the column owns and the texts behind them;
      - pool: in dictionary mode, what each dictionary id means. */
  datatype State = State(kind: Kind, d: Dictionary, ids: seq<nat>, floats: seq<real>, presence: seq<bool>,
                         vals: seq<string>, nums: seq<Option<real>>, stamps: seq<int>,
                         held: multiset<nat>, names: map<nat, string>, pool: Contents)
  {
    ghost predicate StringsOk() {
      && |ids| == |presence|
      && (forall i :: 0 <= i < |ids| ==> presence[i] == (ids[i] != 0))
      && (forall i :: 0 <= i < |nums| ==> nums[i] == None)
    }

    ghost predicate NumbersOk() {
      && |floats| == |presence| == |nums|
      && (forall i :: 0 <= i < |vals| ==> vals[i] == "")
      && (forall i :: 0 <= i < |nums| ==> nums[i] == if presence[i] then Some(floats[i]) else None)
    }

    ghost predicate SizesOk() {
      0 < |presence| == |vals| == |nums| == |stamps|
    }

    ghost predicate Ok(hash: string -> nat) {
      match kind
      case Dict =>
        && SizesOk() && StringsOk() && DictOk(d, ids, hash, pool, names, held)
        && Shows(ids, pool.strs, vals) && Indexed(d.bitmaps, ids, stamps)
      case Raw =>
        && SizesOk() && StringsOk() && held == RefsOf(ids)
        && Shows(ids, names, vals)
      case F64 =>
        SizesOk() && NumbersOk() && held == multiset{}
    }

    /** The inverted-index lookup. */
    ghost function BitmapOf(hash: string -> nat, s: string): Option<set<nat>> {
      if kind == Dict && hash(s) in d.byHash && d.byHash[hash(s)] in d.bitmaps then Some(d.bitmaps[d.byHash[hash(s)]])
      else None
    }

    /** Row idx empties: the part that every string mode shares. */
    ghost function Cleared(idx: nat): State
      requires |ids| == |presence| == |vals| && idx < |ids|
    {
      this.(ids := ids[idx := 0], presence := presence[idx := false], vals := vals[idx := ""])
    }

    /** Row idx shows s under id k. */
    ghost function Filled(idx: nat, k: nat, s: string): State
      requires |ids| == |presence| == |vals| && idx < |ids|
    {
      this.(ids := ids[idx := k], presence := presence[idx := true], vals := vals[idx := s])
    }
  }

  /** A dictionary slot counts exactly the rows that hold it, and is live exactly while one does. */
  lemma SlotCountsAreRows(st: State, hash: string -> nat, k: nat)
    requires st.Ok(hash) && st.kind == Dict && 0 < k < |st.d.dict|
    ensures st.d.dict[k].refs == multiset(st.ids)[k]
    ensures st.d.dict[k].live <==> st.d.dict[k].refs > 0
    ensures st.d.dict[k].live ==> st.d.dict[k].internID in st.names
    ensures forall i :: 0 <= i < |st.ids| ==> (st.presence[i] <==> st.ids[i] != 0)
  {
    assert EntryOk(Entries(st.d.dict, st.names)[k], k, hash, st.pool);
  }

  lemma PresentRowHoldsLiveSlot(st: State, hash: string -> nat, idx: nat)
    requires st.Ok(hash) && st.kind == Dict && idx < |st.ids| && st.ids[idx] != 0
    ensures st.ids[idx] < |st.d.dict| && st.d.dict[st.ids[idx]].refs >= 1 && st.d.dict[st.ids[idx]].live
    ensures st.d.dict[st.ids[idx]].internID in st.held && st.d.dict[st.ids[idx]].internID in st.names
    ensures st.names[st.d.dict[st.ids[idx]].internID] == st.vals[idx]
  {
    var k := st.ids[idx];
    assert k in st.pool.strs;
    assert EntryOk(Entries(st.d.dict, st.names)[k], k, hash, st.pool);
    assert InternIds(st.d.dict)[k] in multiset(InternIds(st.d.dict));
  }

  lemma ShowsWithout(ids: seq<nat>, texts: map<nat, string>, vals: seq<string>, idx: nat, texts': map<nat, string>)
    requires Shows(ids, texts, vals) && idx < |ids|
    requires forall i :: 0 <= i < |ids| && i != idx && ids[i] != 0 ==>
        ids[i] in texts' && texts'[ids[i]] == texts[ids[i]]
    ensures Shows(ids[idx := 0], texts', vals[idx := ""])
  {
  }

  lemma IndexedWithout(bitmaps: map<nat, set<nat>>, ids: seq<nat>, stamps: seq<int>, idx: nat)
    requires idx < |ids| && Indexed(bitmaps, ids, stamps)
    ensures Indexed(WithoutRow(bitmaps, ids, idx), ids[idx := 0], stamps)
  {
    OverwriteIndexed(bitmaps, ids, stamps, idx, 0, 0);
    var b := WithoutRow(bitmaps, ids, idx);
    forall i | 0 <= i < |ids| && ids[idx := 0][i] != 0
      ensures ids[idx := 0][i] in b && stamps[i] % U32 in b[ids[idx := 0][i]]
    {
      assert stamps[idx := 0][i] == stamps[i];
    }
  }

  lemma LeaveSharedOk(st: State, hash: string -> nat, idx: nat, d': Dictionary)
    requires st.Ok(hash) && st.kind == Dict && idx < |st.ids|
    requires 0 < st.ids[idx] < |st.d.dict| && st.d.dict[st.ids[idx]].refs > 1
    requires var k := st.ids[idx];
             d' == st.d.(dict := st.d.dict[k := st.d.dict[k].(refs := st.d.dict[k].refs - 1)])
    ensures st.Cleared(idx).(d := d', pool := st.pool.Released(st.ids[idx])).Ok(hash)
    ensures WithoutRow(st.d.bitmaps, st.ids, idx) == st.d.bitmaps
  {
    hide DictOk;
    RowLeft(st.d, st.ids, hash, st.pool, st.names, st.held, idx, d');
    ShowsWithout(st.ids, st.pool.strs, st.vals, idx, st.pool.strs);
    IndexedWithout(st.d.bitmaps, st.ids, st.stamps, idx);
  }

  lemma NobodyHolds(ids: seq<nat>, idx: nat, k: nat)
    requires idx < |ids| && k != 0 && k !in RefsOf(ids[idx := 0])
    ensures forall i :: 0 <= i < |ids| && i != idx ==> ids[i] != k
  {
    forall i | 0 <= i < |ids| && i != idx ensures ids[i] != k {
      assert ids[idx := 0][i] in multiset(ids[idx := 0]);
    }
  }

  lemma ShowsForgotten(ids: seq<nat>, texts: map<nat, string>, vals: seq<string>, idx: nat)
    requires Shows(ids, texts, vals) && idx < |ids| && ids[idx] != 0 && ids[idx] !in RefsOf(ids[idx := 0])
    ensures Shows(ids[idx := 0], texts - {ids[idx]}, vals[idx := ""])
  {
    NobodyHolds(ids, idx, ids[idx]);
    ShowsWithout(ids, texts, vals, idx, texts - {ids[idx]});
  }

  lemma BitmapGone(bitmaps: map<nat, set<nat>>, ids: seq<nat>, idx: nat)
    requires idx < |ids| && ids[idx] != 0 && ids[idx] !in RefsOf(ids[idx := 0])
    ensures WithoutRow(bitmaps, ids, idx) == bitmaps - {ids[idx]}
  {
  }

  lemma LeaveLastOk(st: State, hash: string -> nat, idx: nat, d': Dictionary)
    requires st.Ok(hash) && st.kind == Dict && idx < |st.ids|
    requires 0 < st.ids[idx] < |st.d.dict| && st.d.dict[st.ids[idx]].refs == 1
    requires d'.dict == st.d.dict[st.ids[idx] := st.d.dict[st.ids[idx]].(refs := 0, live := false)]
    requires d'.free == st.d.free + [st.ids[idx]]
    requires var h := st.d.dict[st.ids[idx]].hash;
             d'.byHash == if h in st.d.byHash && st.d.byHash[h] == st.ids[idx] then st.d.byHash - {h} else st.d.byHash
    requires d'.bitmaps == st.d.bitmaps - {st.ids[idx]} && d'.cardinality == st.d.cardinality - 1
    ensures st.Cleared(idx).(d := d', pool := st.pool.Released(st.ids[idx]),
                             held := st.held - multiset{st.d.dict[st.ids[idx]].internID}).Ok(hash)
    ensures WithoutRow(st.d.bitmaps, st.ids, idx) == d'.bitmaps
  {
    hide DictOk, Indexed, WithoutRow, InternIds, RefsOf, Shows, Contents.Released;
    LastRowLeft(st.d, st.ids, hash, st.pool, st.names, st.held, idx, d');
    BitmapGone(st.d.bitmaps, st.ids, idx);
    ShowsForgotten(st.ids, st.pool.strs, st.vals, idx);
    IndexedWithout(st.d.bitmaps, st.ids, st.stamps, idx);
  }

  lemma LeaveRawOk(st: State, hash: string -> nat, idx: nat)
    requires st.Ok(hash) && st.kind == Raw && idx < |st.ids| && st.ids[idx] != 0
    ensures st.ids[idx] in st.held
    ensures st.Cleared(idx).(held := st.held - multiset{st.ids[idx]}).Ok(hash)
  {
    RefsAfterUpdate(st.ids, idx, 0);
    assert st.ids[idx] in multiset(st.ids);
  }

  lemma LeaveNumberOk(st: State, hash: string -> nat, idx: nat)
    requires st.Ok(hash) && st.kind == F64 && idx < |st.presence|
    ensures st.vals[idx := ""] == st.vals
    ensures st.(floats := st.floats[idx := 0.0], presence := st.presence[idx := false],
        nums := st.nums[idx := None]).Ok(hash)
  {
  }

  lemma SetNumberOk(st: State, hash: string -> nat, idx: nat, v: real)
    requires st.Ok(hash) && st.kind == F64 && idx < |st.presence|
    ensures st.(floats := st.floats[idx := v], presence := st.presence[idx := true],
        nums := st.nums[idx := Some(v)]).Ok(hash)
  {
  }

  /** An empty row may be stamped with any sequence number. */
  lemma StampOk(st: State, hash: string -> nat, idx: nat, seqNo: nat)
    requires st.Ok(hash) && idx < |st.presence| && !st.presence[idx]
    ensures st.(stamps := st.stamps[idx := seqNo]).Ok(hash)
  {
    hide DictOk;
  }

  lemma ShowsWith(ids: seq<nat>, texts: map<nat, string>, vals: seq<string>, idx: nat, k: nat, s: string)
    requires Shows(ids, texts, vals) && idx < |ids| && s != "" && k != 0
    requires k in texts && texts[k] != s ==> forall i :: 0 <= i < |ids| && i != idx ==> ids[i] != k
    ensures Shows(ids[idx := k], texts[k := s], vals[idx := s])
  {
  }

  lemma IndexedWith(bitmaps: map<nat, set<nat>>, ids: seq<nat>, stamps: seq<int>, idx: nat, seqNo: nat, k: nat)
    requires |ids| == |stamps| && idx < |ids| && Indexed(bitmaps, ids, stamps) && ids[idx] == 0
    ensures Indexed(WithRow(bitmaps, k, seqNo), ids[idx := k], stamps[idx := seqNo])
  {
    OverwriteIndexed(bitmaps, ids, stamps, idx, seqNo, k);
  }

  lemma JoinOk(st: State, hash: string -> nat, idx: nat, seqNo: nat, k: nat, d': Dictionary)
    requires st.Ok(hash) && st.kind == Dict && idx < |st.ids| && st.ids[idx] == 0
    requires k in st.pool.strs && k < |st.d.dict| && st.pool.strs[k] != "" && k != 0
    requires d' == st.d.(dict := st.d.dict[k := st.d.dict[k].(refs := st.d.dict[k].refs + 1)],
                         bitmaps := WithRow(st.d.bitmaps, k, seqNo))
    ensures st.pool.Shared(k, st.pool.strs[k]).strs == st.pool.strs
    ensures st.Filled(idx, k, st.pool.strs[k]).(d := d', pool := st.pool.Shared(k, st.pool.strs[k]),
                                                stamps := st.stamps[idx := seqNo]).Ok(hash)
  {
    hide DictOk;
    RowJoined(st.d, st.ids, hash, st.pool, st.names, st.held, idx, k, d'.bitmaps[k]);
    ShowsWith(st.ids, st.pool.strs, st.vals, idx, k, st.pool.strs[k]);
    IndexedWith(st.d.bitmaps, st.ids, st.stamps, idx, seqNo, k);
  }

  lemma RawFillOk(st: State, hash: string -> nat, idx: nat, seqNo: nat, id: nat, s: string)
    requires st.Ok(hash) && st.kind == Raw && idx < |st.ids| && st.ids[idx] == 0
    requires s != "" && id != 0 && (id in st.held ==> id in st.names && st.names[id] == s)
    ensures st.Filled(idx, id, s).(held := st.held + multiset{id}, names := st.names[id := s],
                                   stamps := st.stamps[idx := seqNo]).Ok(hash)
  {
    hide RefsOf, Shows, DictOk, Indexed;
    RefsFilled(st.ids, idx, id);
    ShowsWith(st.ids, st.names, st.vals, idx, id, s);
  }

  /** Two dictionaries whose slots differ in their counts only. */
  ghost predicate SameSlots(dict: seq<DictSlot>, dict': seq<DictSlot>) {
    && |dict| == |dict'|
    && forall k :: 0 <= k < |dict| ==> dict[k].live == dict'[k].live && dict[k].internID == dict'[k].internID
  }

  lemma SlotIsHeld(dict: seq<DictSlot>, k: nat)
    requires k < |dict| && dict[k].live && dict[k].internID != 0
    ensures dict[k].internID in RefsOf(InternIds(dict))
  {
    assert InternIds(dict)[k] in multiset(InternIds(dict));
  }

  /** A column whose dictionary has just gained a slot that no row holds yet: enough to convert it. */
  ghost predicate Promotable(st: State) {
    && st.kind == Dict && st.SizesOk() && st.StringsOk()
    && Named(st.d.dict, st.names)
    && st.held == RefsOf(InternIds(st.d.dict))
    && (forall i :: 0 <= i < |st.ids| ==>
          if st.ids[i] == 0 then st.vals[i] == ""
          else st.ids[i] < |st.d.dict| && st.d.dict[st.ids[i]].live &&
               st.names[st.d.dict[st.ids[i]].internID] == st.vals[i] != "")
  }

  /** The first i rows hold interner ids of their own; the others are as they were. */
  ghost predicate RowsRetained(st: State, ids: seq<nat>, dict: seq<DictSlot>, i: nat) {
    && i <= |ids| == |st.ids|
    && SameSlots(dict, st.d.dict)
    && (forall j :: i <= j < |ids| ==> ids[j] == st.ids[j])
    && (forall j :: 0 <= j < i && j < |st.vals| ==>
          (ids[j] == 0) == (st.ids[j] == 0) && (ids[j] != 0 ==> ids[j] in st.names && st.names[ids[j]] == st.vals[j]))
  }

  lemma NothingRetained(st: State)
    ensures RowsRetained(st, st.ids, st.d.dict, 0)
  {
  }

  lemma RowToRetain(st: State, ids: seq<nat>, dict: seq<DictSlot>, i: nat)
    requires Promotable(st) && RowsRetained(st, ids, dict, i) && i < |ids|
    ensures i < |st.presence| && st.presence[i] == (ids[i] != 0)
    ensures ids[i] == 0 ==> RowsRetained(st, ids, dict, i + 1)
    ensures ids[i] != 0 ==> ids[i] < |dict| && dict[ids[i]].internID in st.held && dict[ids[i]].internID != 0
    ensures ids[i] != 0 ==>
              var s := dict[ids[i]];
              RowsRetained(st, ids[i := s.internID], dict[ids[i] := s.(refs := if s.refs > 0 then s.refs - 1 else 0)],
                  i + 1)
  {
    if ids[i] != 0 {
      SlotIsHeld(st.d.dict, ids[i]);
    }
  }

  lemma PromotedOk(st: State, hash: string -> nat, ids: seq<nat>, dict: seq<DictSlot>)
    requires Promotable(st) && RowsRetained(st, ids, dict, |ids|)
    ensures forall i :: 0 <= i < |st.ids| && st.ids[i] == 0 ==> i < |ids| && ids[i] == 0
    ensures |ids| == |st.ids| && Named(dict, st.names) && st.held == RefsOf(InternIds(dict))
    ensures st.(kind := Raw, d := Dictionary([], [], map[], map[], 0), ids := ids, held := RefsOf(ids)).Ok(hash)
  {
    assert InternIds(dict) == InternIds(st.d.dict);
  }

  lemma SharedTexts(c: Contents, k: nat, s: string)
    ensures c.Shared(k, s).strs == c.strs[k := s]
  {
  }

  lemma WithRowKeys(bitmaps: map<nat, set<nat>>, k: nat, seqNo: nat)
    requires k != 0
    ensures WithRow(bitmaps, k, seqNo).Keys == bitmaps.Keys + {k}
  {
  }

  lemma DictParts(st: State, hash: string -> nat)
    requires st.kind == Dict
    ensures st.Ok(hash) <==>
              && st.SizesOk() && st.StringsOk() && DictOk(st.d, st.ids, hash, st.pool, st.names, st.held)
              && Shows(st.ids, st.pool.strs, st.vals) && Indexed(st.d.bitmaps, st.ids, st.stamps)
  {
  }

  lemma FilledStrings(st: State, idx: nat, k: nat, s: string)
    requires st.StringsOk() && st.SizesOk() && idx < |st.ids| && k != 0
    ensures st.Filled(idx, k, s).StringsOk()
  {
  }

  lemma TakeOk(st: State, hash: string -> nat, idx: nat, seqNo: nat, s: string, k: nat, d': Dictionary,
               held': multiset<nat>, names': map<nat, string>)
    requires st.Ok(hash) && st.kind == Dict && idx < |st.ids| && st.ids[idx] == 0 && s != ""
    requires k !in st.pool.strs && k != 0
    requires SlotsOk(d', hash, st.pool.Shared(k, s), names') && held' == RefsOf(InternIds(d'.dict))
    requires d'.cardinality == st.d.cardinality + 1 && d'.bitmaps == st.d.bitmaps
    ensures st.Filled(idx, k, s).(d := d'.(bitmaps := WithRow(d'.bitmaps, k, seqNo)), pool := st.pool.Shared(k, s),
                                  held := held', names := names', stamps := st.stamps[idx := seqNo]).Ok(hash)
  {
    hide SlotsOk, DictOk, Shows, Indexed, RefsOf, InternIds, WithRow, Contents.Shared, State.Ok, State.StringsOk;
    DictParts(st, hash);
    Sizes(st, hash);
    SharedTexts(st.pool, k, s);
    WithRowKeys(st.d.bitmaps, k, seqNo);
    var d2 := d'.(bitmaps := WithRow(d'.bitmaps, k, seqNo));
    SlotsIgnoreBitmaps(d', d2, hash, st.pool.Shared(k, s), names');
    DictCounts(st.d, st.ids, hash, st.pool, st.names, st.held);
    SlotTaken(d2, st.ids, hash, st.pool, names', idx, k, s);
    ShowsWith(st.ids, st.pool.strs, st.vals, idx, k, s);
    IndexedWith(st.d.bitmaps, st.ids, st.stamps, idx, seqNo, k);
    FilledStrings(st, idx, k, s);
    var st' := st.Filled(idx, k, s).(d := d2, pool := st.pool.Shared(k, s), held := held', names := names',
                                     stamps := st.stamps[idx := seqNo]);
    SameStrings(st.Filled(idx, k, s), st');
    DictParts(st', hash);
  }

  lemma SameStrings(st: State, st': State)
    requires st.ids == st'.ids && st.presence == st'.presence && st.nums == st'.nums
    ensures st.StringsOk() <==> st'.StringsOk()
  {
  }

  lemma NewSlotPromotable(st: State, hash: string -> nat, k: nat, s: string, d': Dictionary, held': multiset<nat>,
                          names': map<nat, string>)
    requires st.Ok(hash) && st.kind == Dict && k !in st.pool.strs && k != 0
    requires SlotsOk(d', hash, st.pool.Shared(k, s), names') && held' == RefsOf(InternIds(d'.dict))
    ensures Promotable(st.(d := d', held := held', names := names'))
  {
    forall i | 0 <= i < |st.ids| && st.ids[i] != 0
      ensures st.ids[i] < |d'.dict| && d'.dict[st.ids[i]].live &&
          names'[d'.dict[st.ids[i]].internID] == st.vals[i] != ""
    {
      assert EntryOk(Entries(d'.dict, names')[st.ids[i]], st.ids[i], hash, st.pool.Shared(k, s));
    }
  }

  lemma Sizes(st: State, hash: string -> nat)
    requires st.Ok(hash)
    ensures 0 < |st.presence| == |st.vals| == |st.nums| == |st.stamps|
    ensures |st.presence| == if st.kind == F64 then |st.floats| else |st.ids|
  {
  }

  lemma PresenceMatches(st: State, hash: string -> nat, idx: nat)
    requires st.Ok(hash) && st.kind != F64 && idx < |st.presence|
    ensures idx < |st.ids| && st.presence[idx] == (st.ids[idx] != 0)
    ensures st.presence[idx] == (st.vals[idx] != "")
  {
  }

  lemma SlotIsNamed(st: State, hash: string -> nat, k: nat)
    requires st.Ok(hash) && st.kind == Dict && k in st.pool.strs
    ensures 0 < k < |st.d.dict| && st.d.dict[k].live && st.pool.strs[k] != ""
    ensures st.d.dict[k].internID in st.held && st.d.dict[k].internID in st.names
    ensures st.names[st.d.dict[k].internID] == st.pool.strs[k]
  {
    assert EntryOk(Entries(st.d.dict, st.names)[k], k, hash, st.pool);
    assert InternIds(st.d.dict)[k] in multiset(InternIds(st.d.dict));
  }

  /** In dictionary mode: row idx was overwritten under seqNo, in the rows and in the index. */
  ghost predicate Overwritten(st: State, st': State, idx: nat, seqNo: nat) {
    && idx < |st.ids| == |st'.ids|
    && st'.ids == st.ids[idx := st'.ids[idx]]
    && st'.d.bitmaps == WithRow(WithoutRow(st.d.bitmaps, st.ids, idx), st'.ids[idx], seqNo)
  }

  lemma HashIsLive(st: State, hash: string -> nat, s: string)
    requires st.Ok(hash) && st.kind == Dict && hash(s) in st.d.byHash
    ensures st.d.byHash[hash(s)] in st.pool.strs && st.d.byHash[hash(s)] != 0
    ensures st.pool.strs[st.d.byHash[hash(s)]] != s ==> !Injective(hash)
  {
    IndexedIsLive(Entries(st.d.dict, st.names), st.d.free, st.d.byHash, hash, st.pool, s);
  }

  ghost function IdsHeld(ids: seq<nat>): set<nat> {
    set i | 0 <= i < |ids| && ids[i] != 0 :: ids[i]
  }

  lemma {:induction false} FewIds(ids: seq<nat>)
    ensures |IdsHeld(ids)| <= |ids|
    decreases |ids|
  {
    if ids != [] {
      var n := |ids| - 1;
      FewIds(ids[..n]);
      assert IdsHeld(ids) == IdsHeld(ids[..n]) + if ids[n] != 0 then {ids[n]} else {};
    }
  }

  lemma OtherIds(ids: seq<nat>, idx: nat)
    requires idx < |ids| && ids[idx] == 0
    ensures forall k :: k in IdsHeld(ids[..idx] + ids[idx + 1..]) <==> k in RefsOf(ids)
  {
    var others := ids[..idx] + ids[idx + 1..];
    forall k ensures k in IdsHeld(others) <==> k in RefsOf(ids) {
      if k in RefsOf(ids) {
        assert k in multiset(ids);
        var i :| 0 <= i < |ids| && ids[i] == k;
        assert others[if i < idx then i else i - 1] == k;
      }
      if k in IdsHeld(others) {
        var i :| 0 <= i < |others| && others[i] == k;
        assert ids[if i < idx then i else i + 1] == k;
        assert k in multiset(ids);
      }
    }
  }

  /** While a row is empty there are fewer values than rows. */
  lemma CardinalityFits(st: State, hash: string -> nat, idx: nat)
    requires st.Ok(hash) && st.kind == Dict && idx < |st.ids| && st.ids[idx] == 0
    ensures st.d.cardinality < |st.ids|
  {
    hide RefsOf, IdsHeld, Shows, Indexed, Named;
    var others := st.ids[..idx] + st.ids[idx + 1..];
    FewIds(others);
    OtherIds(st.ids, idx);
    assert st.pool.strs.Keys == IdsHeld(others);
  }

  lemma SlotAvailable(st: State, hash: string -> nat)
    requires st.Ok(hash) && st.kind == Dict
    ensures |st.d.free| > 0 ==> 0 < st.d.free[|st.d.free| - 1] < |st.d.dict|
    ensures |st.d.dict| > 0
  {
  }

  lemma NewSlot(st: State, hash: string -> nat, s: string, slot: DictSlot, k: nat, d': Dictionary)
    requires st.Ok(hash) && st.kind == Dict
    requires s != "" && slot == DictSlot(slot.internID, hash(s), 1, true) && slot.internID != 0
    requires slot.internID in st.held ==> slot.internID in st.names && st.names[slot.internID] == s
    requires slot.hash in st.d.byHash ==> !Injective(hash)
    requires k == if |st.d.free| > 0 then st.d.free[|st.d.free| - 1] else |st.d.dict|
    requires k <= |st.d.dict| ==> d'.dict == if k < |st.d.dict| then st.d.dict[k := slot] else st.d.dict + [slot]
    requires d'.free == if |st.d.free| > 0 then st.d.free[..|st.d.free| - 1] else st.d.free
    requires d'.byHash == if slot.hash in st.d.byHash then st.d.byHash else st.d.byHash[slot.hash := k]
    ensures k != 0 && k !in st.pool.strs && k !in st.ids
    ensures SlotsOk(d', hash, st.pool.Shared(k, s), st.names[slot.internID := s])
    ensures st.held + multiset{slot.internID} == RefsOf(InternIds(d'.dict))
  {
    hide PoolOk, SlotsOk, Named;
    SlotCreated(st.d, st.ids, hash, st.pool, st.names, st.held, s, slot, k, d');
  }

  lemma PositiveCardinality(st: State, hash: string -> nat, idx: nat)
    requires st.Ok(hash) && st.kind == Dict && idx < |st.ids| && st.ids[idx] != 0
    ensures st.d.cardinality > 0
  {
    assert st.ids[idx] in st.pool.strs;
  }

  /** Evicting an absent row changes nothing. */
  lemma NoNumber(st: State, hash: string -> nat, idx: nat)
    requires st.Ok(hash) && st.kind != F64 && idx < |st.presence|
    ensures st.nums == st.nums[idx := None]
  {
  }

  lemma NoText(st: State, hash: string -> nat, idx: nat)
    requires st.Ok(hash) && st.kind == F64 && idx < |st.presence|
    ensures st.vals == st.vals[idx := ""]
  {
  }

  lemma AbsentRow(st: State, hash: string -> nat, idx: nat)
    requires st.Ok(hash) && idx < |st.presence| && !st.presence[idx]
    ensures st.vals == st.vals[idx := ""] && st.nums == st.nums[idx := None]
    ensures st.kind != F64 ==> st.ids == st.ids[idx := 0] && WithoutRow(st.d.bitmaps, st.ids, idx) == st.d.bitmaps
  {
  }

  /** A column no row has been written to. */
  ghost function Fresh(kind: Kind, cap: nat): State {
    State(kind, Dictionary(if kind == Dict then [DictSlot(0, 0, 0, false)] else [], [], map[], map[], 0),
          Repeat(if kind == F64 then 0 else cap, 0), Repeat(if kind == F64 then cap else 0, 0.0), Repeat(cap, false),
          Repeat(cap, ""), Repeat(cap, None), Repeat(cap, -1), multiset{}, map[], EMPTY)
  }

  lemma FreshOk(kind: Kind, cap: nat, hash: string -> nat)
    requires cap > 0
    ensures Fresh(kind, cap).Ok(hash)
  {
    var st := Fresh(kind, cap);
    AllZero(st.ids);
    if kind == Dict {
      EmptyDictionary(st.ids, hash);
    }
  }

  /** Releases one of the references that a holder owns. */
  method GiveUp(intern: Interning.Interner, id: nat, ghost held: multiset<nat>, ghost names: map<nat, string>)
    requires intern.Valid() && Agrees(held, names, intern.contents) && id in held
    modifies intern
    ensures intern.Valid() && Agrees(held - multiset{id}, names, intern.contents)
    ensures Transfers(old(intern.contents), intern.contents, held, held - multiset{id})
  {
    hide Interning.Interner.Valid, Agrees, Transfers;
    hide Contents.Released, Contents.Shared, Contents.WellFormed;
    ReleasedFrom(intern.contents, held, names, id);
    intern.Release(id);
  }

  /** A holder takes a second reference to something it already holds. */
  method TakeAgain(intern: Interning.Interner, id: nat, ghost held: multiset<nat>, ghost names: map<nat, string>)
    requires intern.Valid() && Agrees(held, names, intern.contents) && id in held
    modifies intern
    ensures intern.Valid() && Agrees(held + multiset{id}, names, intern.contents)
    ensures Transfers(old(intern.contents), intern.contents, held, held + multiset{id})
  {
    hide Interning.Interner.Valid, Agrees, Transfers, Contents.Released, Contents.Shared, Contents.WellFormed;
    HeldIsKnown(held, names, intern.contents, id);
    SharedInto(intern.contents, held, names, id, names[id]);
    intern.Retain(id);
  }

  /** Interns a text on behalf of a holder. */
  method TakeUp(intern: Interning.Interner, s: string, ghost held: multiset<nat>, ghost names: map<nat, string>)
    returns (id: nat)
    requires intern.Valid() && Agrees(held, names, intern.contents) && s != ""
    modifies intern, intern.arena
    ensures id != 0 && (id in held ==> id in names && names[id] == s)
    ensures intern.Valid() && Agrees(held + multiset{id}, names[id := s], intern.contents)
    ensures Transfers(old(intern.contents), intern.contents, held, held + multiset{id})
  {
    hide Interning.Interner.Valid, Transfers, Contents.Released, Contents.Shared, Contents.WellFormed;
    id := intern.Intern(s);
    SharedInto(old(intern.contents), held, names, id, s);
  }

  /** Without collisions, two rows share a dictionary id exactly when they show the same text. */
  lemma SameTextSameId(st: State, hash: string -> nat, i: nat, j: nat)
    requires st.Ok(hash) && st.kind == Dict && Injective(hash) && i < |st.ids| && j < |st.ids| && st.ids[i] != 0
    ensures st.vals[i] == st.vals[j] <==> st.ids[i] == st.ids[j]
  {
    if st.ids[j] != 0 && st.vals[i] == st.vals[j] {
      LiveTextsAreDistinct(Entries(st.d.dict, st.names), st.d.free, st.d.byHash, hash, st.pool, st.ids[i], st.ids[j]);
    }
  }

  /** Row idx can be overwritten with s under seqNo without leaving a wrong index entry: it was
      last written under an earlier number, or was empty, or shows s already, or shows a value that no
      other row shows. */
  ghost predicate SafeOverwrite(vals: seq<string>, stamps: seq<int>, idx: nat, seqNo: nat, s: string)
    requires |vals| == |stamps| && idx < |vals|
  {
    || stamps[idx] < seqNo
    || vals[idx] == ""
    || vals[idx] == s
    || forall j :: 0 <= j < |vals| && j != idx ==> vals[j] != vals[idx]
  }

  /** The index is exact off the stale numbers. */
  ghost predicate IndexExact(st: State, stale: set<nat>) {
    |st.ids| == |st.stamps| > 0 && Exact(st.d.bitmaps, st.ids, st.stamps, stale)
  }

  lemma SoleHolder(st: State, hash: string -> nat, idx: nat)
    requires st.Ok(hash) && st.kind == Dict && Injective(hash) && idx < |st.ids| && st.ids[idx] != 0
    ensures st.ids[idx] !in RefsOf(st.ids[idx := 0])
       <==> forall j :: 0 <= j < |st.vals| && j != idx ==> st.vals[j] != st.vals[idx]
  {
    var others := st.ids[idx := 0];
    forall j | 0 <= j < |st.ids| && j != idx ensures st.vals[j] == st.vals[idx] <==> others[j] == st.ids[idx] {
      SameTextSameId(st, hash, idx, j);
    }
    if st.ids[idx] in RefsOf(others) {
      var j :| 0 <= j < |others| && others[j] == st.ids[idx];
      assert st.vals[j] == st.vals[idx];
    } else {
      NobodyHolds(st.ids, idx, st.ids[idx]);
    }
  }

  lemma SafeOverwriteById(st: State, st': State, hash: string -> nat, idx: nat, seqNo: nat)
    requires st.Ok(hash) && st'.Ok(hash) && st.kind == Dict && st'.kind == Dict && Injective(hash)
    requires Overwritten(st, st', idx, seqNo) && st'.vals == st.vals[idx := st'.vals[idx]]
    ensures LeavesNoGhost(st.ids, st.stamps, idx, seqNo, st'.ids[idx])
       <==> SafeOverwrite(st.vals, st.stamps, idx, seqNo, st'.vals[idx])
  {
    if st.ids[idx] != 0 {
      SoleHolder(st, hash, idx);
      if st.ids[idx] in RefsOf(st.ids[idx := 0]) {
        var j :| 0 <= j < |st.ids| && st.ids[idx := 0][j] == st.ids[idx];
        SameTextSameId(st, hash, idx, j);
        SameTextSameId(st', hash, j, idx);
      }
    }
  }

  /** From an exact index, overwriting a row leads to an exact index if and only if the overwrite is
      safe; this is the exact condition under which the inverted index can be trusted. An unsafe one
      makes no other number stale than its own. */
  lemma OverwriteKeepsExactIff(st: State, st': State, hash: string -> nat, idx: nat, seqNo: nat, stale: set<nat>)
    requires st.Ok(hash) && st'.Ok(hash) && st.kind == Dict && st'.kind == Dict && Injective(hash)
    requires Overwritten(st, st', idx, seqNo) && st'.vals == st.vals[idx := st'.vals[idx]]
    requires st'.stamps == st.stamps[idx := seqNo] && st.stamps[idx] <= seqNo < U32 && idx == seqNo % |st.ids|
    requires IndexExact(st, stale)
    ensures IndexExact(st', stale + {seqNo})
    ensures seqNo !in stale ==>
        (IndexExact(st', stale) <==> SafeOverwrite(st.vals, st.stamps, idx, seqNo, st'.vals[idx]))
    ensures st.stamps[idx] < seqNo ==> IndexExact(st', stale)
  {
    hide State.Ok, SafeOverwrite, Exact, Injective, WithRow, WithoutRow;
    Sizes(st, hash);
    SafeOverwriteById(st, st', hash, idx, seqNo);
    NoBitmapForZero(st, hash);
    OverwriteExact(st.d.bitmaps, st.ids, st.stamps, idx, seqNo, st'.ids[idx], stale);
    if st.stamps[idx] < seqNo && seqNo in stale {
      assert stale + {seqNo} == stale;
    }
  }

  /** A stale number is really listed wrongly: its row shows one text and is listed under another. */
  lemma StaleIsListed(st: State, hash: string -> nat, stale: set<nat>, seqNo: nat)
    requires st.Ok(hash) && st.kind == Dict && Injective(hash)
    requires IndexExact(st, stale + {seqNo}) && !IndexExact(st, stale)
    requires st.stamps[seqNo % |st.ids|] == seqNo
    ensures exists t :: t != "" && t != st.vals[seqNo % |st.ids|] && t in st.vals
                     && st.BitmapOf(hash, t).Some? && seqNo in st.BitmapOf(hash, t).value
  {
    var k, x :| k in st.d.bitmaps && x in st.d.bitmaps[k] && x !in stale && !Accounted(x, k, st.ids, st.stamps);
    assert x == seqNo;
    var i := seqNo % |st.ids|;
    var t := st.pool.strs[k];
    LiveTextsAreIndexed(Entries(st.d.dict, st.names), st.d.free, st.d.byHash, hash, st.pool, t);
    assert k in st.pool.refs && k in multiset(st.ids);
    var j :| 0 <= j < |st.ids| && st.ids[j] == k;
    assert st.vals[j] == t;
    BitmapKnown(st, hash, t);
    SameTextSameId(st, hash, j, i);
    LiveTextsAreDistinct(Entries(st.d.dict, st.names), st.d.free, st.d.byHash, hash, st.pool, st.d.byHash[hash(t)], k);
  }

  lemma NoBitmapForZero(st: State, hash: string -> nat)
    requires st.Ok(hash) && st.kind == Dict
    ensures 0 !in st.d.bitmaps && Indexed(st.d.bitmaps, st.ids, st.stamps)
  {
    assert 0 !in st.pool.strs;
  }

  /** What the index lookup means: without collisions it answers None exactly for texts that no row
      shows; otherwise its set has every row that shows the text and, off the stale numbers, no other
      live row. */
  lemma BitmapMeaning(st: State, hash: string -> nat, s: string, stale: set<nat>)
    requires st.Ok(hash) && st.kind == Dict && Injective(hash)
    ensures st.BitmapOf(hash, s).Some? <==> s != "" && s in st.vals
    ensures st.BitmapOf(hash, s).Some? ==>
              forall i :: 0 <= i < |st.vals| && st.vals[i] == s ==> st.stamps[i] % U32 in st.BitmapOf(hash, s).value
    ensures st.BitmapOf(hash, s).Some? && IndexExact(st, stale) ==>
              forall x :: x in st.BitmapOf(hash, s).value && x !in stale ==>
                var i := x % |st.vals|; x < st.stamps[i] || (x == st.stamps[i] && st.vals[i] == s)
  {
    BitmapKnown(st, hash, s);
    if st.BitmapOf(hash, s).Some? {
      var k := st.d.byHash[hash(s)];
      forall i | 0 <= i < |st.vals| && st.vals[i] == s
        ensures st.stamps[i] % U32 in st.d.bitmaps[k]
      {
        LiveTextsAreDistinct(Entries(st.d.dict, st.names), st.d.free, st.d.byHash, hash, st.pool, st.ids[i], k);
      }
      if IndexExact(st, stale) {
        forall x | x in st.d.bitmaps[k] && x !in stale
          ensures var i := x % |st.vals|; x < st.stamps[i] || (x == st.stamps[i] && st.vals[i] == s)
        {
          assert Accounted(x, k, st.ids, st.stamps);
        }
      }
    }
  }

  lemma BitmapKnown(st: State, hash: string -> nat, s: string)
    requires st.Ok(hash) && st.kind == Dict && Injective(hash)
    ensures st.BitmapOf(hash, s).Some? <==> s != "" && s in st.vals
    ensures st.BitmapOf(hash, s).Some? ==>
              st.d.byHash[hash(s)] in st.pool.strs && st.pool.strs[st.d.byHash[hash(s)]] == s &&
                  st.d.byHash[hash(s)] in st.d.bitmaps
  {
    if st.BitmapOf(hash, s).Some? {
      var k := st.d.byHash[hash(s)];
      IndexedIsLive(Entries(st.d.dict, st.names), st.d.free, st.d.byHash, hash, st.pool, s);
      assert k in st.pool.refs && k in multiset(st.ids);
      var i :| 0 <= i < |st.ids| && st.ids[i] == k;
      assert st.vals[i] == s;
    } else if s != "" && s in st.vals {
      var i :| 0 <= i < |st.vals| && st.vals[i] == s;
      assert st.ids[i] in st.pool.strs;
      LiveTextsAreIndexed(Entries(st.d.dict, st.names), st.d.free, st.d.byHash, hash, st.pool, s);
      assert false;
    }
  }

  class Column {
    const name: string
    const hash: string -> nat
    var kind: Kind
    var ids: seq<nat>
    var floats: seq<real>
    var presence: seq<bool>
    var d: Dictionary

    ghost var vals: seq<string>
    ghost var nums: seq<Option<real>>
    ghost var stamps: seq<int>
    ghost var held: multiset<nat>
    ghost var names: map<nat, string>
    ghost var pool: Contents

    ghost function St(): State
      reads this
    {
      State(kind, d, ids, floats, presence, vals, nums, stamps, held, names, pool)
    }

    ghost predicate Valid()
      reads this
      ensures Valid() ==> 0 < |presence| == |vals| == |nums| == |stamps|
    {
      St().Ok(hash)
    }

    /** Everything a string operation may assume about the column and its interner. */
    ghost predicate Ready(intern: Interning.Interner)
      reads this, intern, intern.arena
    {
      Valid() && intern.Valid() && Agrees(held, names, intern.contents)
    }

    constructor (name: string, kind: Kind, cap: nat, hash: string -> nat)
      requires cap > 0
      ensures Valid() && this.name == name && this.kind == kind && this.hash == hash
      ensures St() == Fresh(kind, cap)
    {
      this.name, this.kind, this.hash := name, kind, hash;
      ids := Repeat(if kind == F64 then 0 else cap, 0);
      floats := Repeat(if kind == F64 then cap else 0, 0.0);
      presence := Repeat(cap, false);
      d := Dictionary(if kind == Dict then [DictSlot(0, 0, 0, false)] else [], [], map[], map[], 0);
      vals, nums, stamps := Repeat(cap, ""), Repeat(cap, None), Repeat(cap, -1);
      held, names, pool := multiset{}, map[], EMPTY;
      new;
      hide State.Ok;
      FreshOk(kind, cap, hash);
    }

    method GetString(idx: nat, intern: Interning.Interner) returns (s: string)
      requires Ready(intern) && idx < |presence|
      ensures s == vals[idx]
    {
      if !presence[idx] {
        return "";
      }
      match kind {
        case Dict =>
          var id := ids[idx];
          PresentRowHoldsLiveSlot(St(), hash, idx);
          if id >= |d.dict| {
            return "";
          }
          s := intern.Get(d.dict[id].internID);
        case Raw =>
          s := intern.Get(ids[idx]);
          assert ids[idx] in multiset(ids);
        case F64 =>
          s := "";
      }
    }

    method GetF64(idx: nat) returns (v: real, ok: bool)
      requires Valid() && idx < |presence| && kind == F64
      ensures nums[idx] == if ok then Some(v) else None
    {
      if !presence[idx] {
        return 0.0, false;
      }
      return floats[idx], true;
    }

    method SetF64(idx: nat, v: real)
      requires Valid() && idx < |presence| && kind == F64
      modifies this`nums, this`floats, this`presence
      ensures Valid() && |presence| == old(|presence|) && nums == old(nums)[idx := Some(v)]
    {
      hide State.Ok;
      Sizes(St(), hash);
      SetNumberOk(St(), hash, idx, v);
      floats := floats[idx := v];
      presence := presence[idx := true];
      nums := nums[idx := Some(v)];
    }

    /** Drops the row at idx and every reference it had. */
    method EvictSlot(idx: nat, intern: Interning.Interner)
      requires Ready(intern) && idx < |presence|
      modifies this, intern
      ensures Ready(intern) && kind == old(kind) && stamps == old(stamps)
      ensures vals == old(vals)[idx := ""] && nums == old(nums)[idx := None]
      ensures presence == old(presence)[idx := false]
      ensures Transfers(old(intern.contents), intern.contents, old(held), held)
      ensures kind != F64 ==> ids == old(ids)[idx := 0]
      ensures kind == Dict ==> d.bitmaps == WithoutRow(old(d.bitmaps), old(ids), idx)
    {
      hide State.Ok, Agrees, Transfers, WithoutRow, Interning.Interner.Valid;
      hide Contents.Released, Contents.Shared, Contents.WellFormed;
      ghost var st := St();
      Sizes(st, hash);
      if !presence[idx] {
        AbsentRow(st, hash, idx);
        HeldIsBacked(held, names, intern.contents);
        Idle(intern.contents, held);
        return;
      }
      match kind {
        case Dict =>
          PresenceMatches(st, hash, idx);
          PresentRowHoldsLiveSlot(st, hash, idx);
          NoNumber(st, hash, idx);
          if d.dict[ids[idx]].refs > 1 {
            LeaveShared(idx, intern);
          } else {
            LeaveLast(idx, intern);
          }
        case Raw =>
          NoNumber(st, hash, idx);
          PresenceMatches(st, hash, idx);
          LeaveRaw(idx, intern);
        case F64 =>
          HeldIsBacked(held, names, intern.contents);
          Idle(intern.contents, held);
          ClearNumber(idx);
      }
    }

    method ClearNumber(idx: nat)
      requires Valid() && idx < |presence| && kind == F64
      modifies this`floats, this`presence, this`nums
      ensures Valid()
      ensures presence == old(presence)[idx := false] && nums == old(nums)[idx := None] && vals == vals[idx := ""]
    {
      hide State.Ok;
      Sizes(St(), hash);
      LeaveNumberOk(St(), hash, idx);
      floats := floats[idx := 0.0];
      presence := presence[idx := false];
      nums := nums[idx := None];
    }

    /** The row leaves a slot that others still hold. */
    method LeaveShared(idx: nat, intern: Interning.Interner)
      requires Ready(intern) && idx < |ids| && kind == Dict
      requires 0 < ids[idx] < |d.dict| && d.dict[ids[idx]].refs > 1
      modifies this`d, this`pool, this`vals, this`ids, this`presence
      ensures Ready(intern)
      ensures vals == old(vals)[idx := ""] && ids == old(ids)[idx := 0] && presence == old(presence)[idx := false]
      ensures d.bitmaps == WithoutRow(old(d.bitmaps), old(ids), idx)
      ensures Transfers(old(intern.contents), intern.contents, old(held), held)
    {
      hide State.Ok, Agrees, Transfers, WithoutRow, Interning.Interner.Valid;
      hide Contents.Released, Contents.Shared, Contents.WellFormed;
      Sizes(St(), hash);
      var id := ids[idx];
      var slot := d.dict[id].(refs := d.dict[id].refs - 1);
      LeaveSharedOk(St(), hash, idx, d.(dict := d.dict[id := slot]));
      HeldIsBacked(held, names, intern.contents);
      Idle(intern.contents, held);
      d := d.(dict := d.dict[id := slot]);
      pool := pool.Released(id);
      ClearRow(idx);
    }

    /** The last row leaves a slot, which is recycled. */
    method LeaveLast(idx: nat, intern: Interning.Interner)
      requires Ready(intern) && idx < |ids| && kind == Dict
      requires 0 < ids[idx] < |d.dict| && d.dict[ids[idx]].refs == 1 && d.dict[ids[idx]].internID in held
      modifies this`d, this`vals, this`ids, this`presence, this`held, this`pool, intern
      ensures Ready(intern)
      ensures vals == old(vals)[idx := ""] && ids == old(ids)[idx := 0] && presence == old(presence)[idx := false]
      ensures d.bitmaps == WithoutRow(old(d.bitmaps), old(ids), idx)
      ensures Transfers(old(intern.contents), intern.contents, old(held), held)
    {
      hide State.Ok, Agrees, Transfers, WithoutRow, Interning.Interner.Valid, RefsOf, InternIds, Injective;
      hide Contents.Released, Contents.Shared, Contents.WellFormed;
      Sizes(St(), hash);
      PositiveCardinality(St(), hash, idx);
      var id := ids[idx];
      var s := d.dict[id];
      var d' := Dictionary(d.dict[id := s.(refs := 0, live := false)], d.free + [id],
                           if s.hash in d.byHash && d.byHash[s.hash] == id then d.byHash - {s.hash} else d.byHash,
                           d.bitmaps - {id}, d.cardinality - 1);
      LeaveLastOk(St(), hash, idx, d');
      GiveUp(intern, s.internID, held, names);
      LeaveFor(idx, d', pool.Released(id), held - multiset{s.internID});
    }

    /** The row at idx goes, and with it what the new dictionary does not have. */
    method LeaveFor(idx: nat, d': Dictionary, ghost pool': Contents, ghost held': multiset<nat>)
      requires |ids| == |presence| == |vals| && idx < |ids|
      requires St().Cleared(idx).(d := d', pool := pool', held := held').Ok(hash)
      modifies this`d, this`vals, this`ids, this`presence, this`held, this`pool
      ensures Valid() && d == d' && held == held' && pool == pool'
      ensures vals == old(vals)[idx := ""] && ids == old(ids)[idx := 0] && presence == old(presence)[idx := false]
    {
      hide State.Ok;
      d, pool, held := d', pool', held';
      ClearRow(idx);
    }

    method ClearRow(idx: nat)
      requires idx < |ids| == |presence| == |vals|
      modifies this`vals, this`ids, this`presence
      ensures ids == old(ids)[idx := 0] && presence == old(presence)[idx := false] && vals == old(vals)[idx := ""]
    {
      vals := vals[idx := ""];
      ids := ids[idx := 0];
      presence := presence[idx := false];
    }

    method LeaveRaw(idx: nat, intern: Interning.Interner)
      requires Ready(intern) && idx < |ids| && kind == Raw && ids[idx] != 0
      modifies this`held, this`vals, this`ids, this`presence, intern
      ensures Ready(intern)
      ensures vals == old(vals)[idx := ""] && ids == old(ids)[idx := 0] && presence == old(presence)[idx := false]
      ensures Transfers(old(intern.contents), intern.contents, old(held), held)
    {
      hide State.Ok, Agrees, Transfers, WithoutRow, Interning.Interner.Valid;
      hide Contents.Released, Contents.Shared, Contents.WellFormed;
      Sizes(St(), hash);
      LeaveRawOk(St(), hash, idx);
      GiveUp(intern, ids[idx], held, names);
      held := held - multiset{ids[idx]};
      ClearRow(idx);
    }

    /** Does a dictionary id stand for s? */
    method DictEqual(id: nat, s: string, intern: Interning.Interner) returns (same: bool)
      requires Ready(intern) && kind == Dict && id in pool.strs
      ensures same == (pool.strs[id] == s)
    {
      SlotIsNamed(St(), hash, id);
      if id >= |d.dict| || !d.dict[id].live {
        return false;
      }
      var text := intern.Get(d.dict[id].internID);
      same := text == s;
    }

    /** The row at idx, now empty, joins the slot of a value the dictionary already has. */
    method JoinSlot(idx: nat, seqNo: nat, id: nat)
      requires Valid() && kind == Dict && idx < |ids| && ids[idx] == 0 && id in pool.strs
      modifies this`d, this`pool, this`vals, this`ids, this`presence, this`stamps
      ensures Valid()
      ensures vals == old(vals)[idx := old(pool.strs)[id]] && stamps == old(stamps)[idx := seqNo]
      ensures ids == old(ids)[idx := id] && d.bitmaps == WithRow(old(d.bitmaps), id, seqNo)
      ensures |presence| == old(|presence|) && pool.strs == old(pool.strs)
    {
      hide State.Ok, Contents.Shared;
      Sizes(St(), hash);
      SlotIsNamed(St(), hash, id);
      var slot := d.dict[id].(refs := d.dict[id].refs + 1);
      var d' := d.(dict := d.dict[id := slot], bitmaps := WithRow(d.bitmaps, id, seqNo));
      JoinOk(St(), hash, idx, seqNo, id, d');
      FillRow(idx, seqNo, id, pool.strs[id]);
      d, pool := d', pool.Shared(id, pool.strs[id]);
    }

    /** Stores s in raw mode: the row holds the interner id itself. */
    method SetRaw(idx: nat, seqNo: nat, s: string, intern: Interning.Interner) returns (id: nat)
      requires Ready(intern) && kind == Raw && idx < |ids| && ids[idx] == 0 && s != ""
      modifies this`ids, this`presence, this`vals, this`stamps, this`held, this`names, intern, intern.arena
      ensures Ready(intern) && |presence| == old(|presence|)
      ensures vals == old(vals)[idx := s] && stamps == old(stamps)[idx := seqNo]
      ensures Transfers(old(intern.contents), intern.contents, old(held), held)
    {
      hide State.Ok, Agrees, Transfers, Interning.Interner.Valid;
      Sizes(St(), hash);
      ghost var st := St();
      id := TakeUp(intern, s, held, names);
      RawFillOk(st, hash, idx, seqNo, id, s);
      held, names := held + multiset{id}, names[id := s];
      FillRow(idx, seqNo, id, s);
    }

    method FillRow(idx: nat, ghost seqNo: nat, id: nat, ghost s: string)
      requires idx < |ids| == |presence| == |vals| == |stamps|
      modifies this`ids, this`presence, this`vals, this`stamps
      ensures ids == old(ids)[idx := id] && presence == old(presence)[idx := true]
      ensures vals == old(vals)[idx := s] && stamps == old(stamps)[idx := seqNo]
    {
      ids := ids[idx := id];
      presence := presence[idx := true];
      vals, stamps := vals[idx := s], stamps[idx := seqNo];
    }

    /** Converts the column from dictionary ids to interner ids. No row shows anything else
        afterwards, and each present row owns exactly one interner reference. */
    method PromoteToRaw(intern: Interning.Interner)
      requires Promotable(St()) && intern.Valid() && Agrees(held, names, intern.contents)
      modifies this`ids, this`d, this`kind, this`held, intern
      ensures Ready(intern) && kind == Raw
      ensures |ids| == old(|ids|) && forall i :: 0 <= i < |ids| && old(ids)[i] == 0 ==> ids[i] == 0
      ensures Transfers(old(intern.contents), intern.contents, old(held), held)
    {
      hide Promotable, RowsRetained, Named, State.Ok, Agrees, Transfers, RefsOf, Interning.Interner.Valid;
      ghost var st, c0, slotRefs := St(), intern.contents, held;
      RetainRows(intern);
      ghost var c1, rowRefs := intern.contents, RefsOf(ids);
      PromotedOk(st, hash, ids, d.dict);
      ReleaseSlots(intern, rowRefs);
      Composed(c0, c1, intern.contents, slotRefs, slotRefs + rowRefs, rowRefs);
      d := Dictionary([], [], map[], map[], 0);
      kind := Raw;
      held := rowRefs;
    }

    /** First pass: every present row takes a reference of its own and keeps the interner id. */
    method RetainRows(intern: Interning.Interner)
      requires Promotable(St()) && intern.Valid() && Agrees(held, names, intern.contents)
      modifies this`ids, this`d, intern
      ensures intern.Valid() && Agrees(held + RefsOf(ids), names, intern.contents)
      ensures Transfers(old(intern.contents), intern.contents, held, held + RefsOf(ids))
      ensures RowsRetained(old(St()), ids, d.dict, |ids|)
    {
      hide Promotable, RowsRetained, Agrees, Transfers, Done, Interning.Interner.Valid;
      ghost var st, c0 := St(), intern.contents;
      var i := 0;
      NothingRetained(st);
      DoneAtEnds(held, ids);
      HeldIsBacked(held, names, intern.contents);
      Idle(intern.contents, held);
      while i < |ids|
        invariant 0 <= i <= |ids|
        invariant intern.Valid() && Agrees(Done(held, ids, i), names, intern.contents)
        invariant Transfers(c0, intern.contents, held, Done(held, ids, i))
        invariant RowsRetained(st, ids, d.dict, i)
      {
        RetainRow(i, intern, st, c0);
        i := i + 1;
      }
      DoneAtEnds(held, ids);
    }

    method RetainRow(i: nat, intern: Interning.Interner, ghost st: State, ghost c0: Contents)
      requires Promotable(st) && RowsRetained(st, ids, d.dict, i) && i < |ids|
      requires st.presence == presence && st.names == names && st.held == held
      requires intern.Valid() && Agrees(Done(held, ids, i), names, intern.contents)
      requires Transfers(c0, intern.contents, held, Done(held, ids, i))
      modifies this`ids, this`d, intern
      ensures |ids| == old(|ids|) && RowsRetained(st, ids, d.dict, i + 1)
      ensures intern.Valid() && Agrees(Done(held, ids, i + 1), names, intern.contents)
      ensures Transfers(c0, intern.contents, held, Done(held, ids, i + 1))
    {
      hide Promotable, RowsRetained, Agrees, Transfers, Done, Interning.Interner.Valid, Contents.WellFormed, RefsOf;
      RowToRetain(st, ids, d.dict, i);
      ghost var done := Done(held, ids, i);
      HeldByDone(held, ids, i);
      if presence[i] {
        var s := d.dict[ids[i]];
        ghost var before := intern.contents;
        TakeAgain(intern, s.internID, done, names);
        Composed(c0, before, intern.contents, held, done, done + multiset{s.internID});
        DoneOneMore(held, ids, i, s.internID);
        d := d.(dict := d.dict[ids[i] := s.(refs := if s.refs > 0 then s.refs - 1 else 0)]);
        ids := ids[i := s.internID];
      } else {
        DoneOneMore(held, ids, i, 0);
      }
    }

    /** Second pass: the dictionary slots, each of which owned one reference, let go of it. */
    method ReleaseSlots(intern: Interning.Interner, ghost rowRefs: multiset<nat>)
      requires intern.Valid() && held == RefsOf(InternIds(d.dict)) && Agrees(held + rowRefs, names, intern.contents)
      requires Named(d.dict, names)
      modifies intern
      ensures intern.Valid() && Agrees(rowRefs, names, intern.contents)
      ensures Transfers(old(intern.contents), intern.contents, held + rowRefs, rowRefs)
    {
      hide Agrees, Transfers, Named, Interning.Interner.Valid;
      ghost var c0, slotIds := intern.contents, InternIds(d.dict);
      var k := 0;
      HeldIsBacked(held + rowRefs, names, intern.contents);
      Idle(intern.contents, held + rowRefs);
      assert slotIds[0..] == slotIds;
      while k < |d.dict|
        invariant 0 <= k <= |d.dict|
        invariant intern.Valid() && Agrees(RefsOf(slotIds[k..]) + rowRefs, names, intern.contents)
        invariant Transfers(c0, intern.contents, held + rowRefs, RefsOf(slotIds[k..]) + rowRefs)
      {
        ReleaseSlot(k, intern, rowRefs, held + rowRefs, c0);
        k := k + 1;
      }
      assert slotIds[k..] == [];
      RefsOfNone();
      assert RefsOf([]) + rowRefs == rowRefs;
    }

    method ReleaseSlot(k: nat, intern: Interning.Interner, ghost rowRefs: multiset<nat>, ghost all: multiset<nat>,
                       ghost c0: Contents)
      requires k < |d.dict| && Named(d.dict, names)
      requires intern.Valid() && Agrees(RefsOf(InternIds(d.dict)[k..]) + rowRefs, names, intern.contents)
      requires Transfers(c0, intern.contents, all, RefsOf(InternIds(d.dict)[k..]) + rowRefs)
      modifies intern
      ensures intern.Valid() && Agrees(RefsOf(InternIds(d.dict)[k + 1..]) + rowRefs, names, intern.contents)
      ensures Transfers(c0, intern.contents, all, RefsOf(InternIds(d.dict)[k + 1..]) + rowRefs)
    {
      hide Agrees, Transfers, Interning.Interner.Valid;
      ghost var slotIds := InternIds(d.dict);
      RefsOfSuffix(slotIds, k);
      ghost var x, y := RefsOf(slotIds[k..]) + rowRefs, RefsOf(slotIds[k + 1..]) + rowRefs;
      if d.dict[k].live {
        ghost var before := intern.contents;
        assert x - multiset{slotIds[k]} == y;
        GiveUp(intern, d.dict[k].internID, x, names);
        Composed(c0, before, intern.contents, all, x, y);
      } else {
        assert x == y;
      }
    }

    /** The row at idx, now empty, takes a value the dictionary does not have; a dictionary that
        grows past its limit turns the column raw. */
    method SetNew(idx: nat, seqNo: nat, s: string, intern: Interning.Interner) returns (id: nat)
      requires idx < |ids| == |presence| && Ready(intern) && kind == Dict && ids[idx] == 0 && s != ""
      requires hash(s) in d.byHash ==> !Injective(hash)
      modifies this, intern, intern.arena
      ensures |presence| == old(|presence|) && Ready(intern) && kind != F64
      ensures vals == old(vals)[idx := s] && nums == old(nums) && stamps == old(stamps)[idx := seqNo]
      ensures Transfers(old(intern.contents), intern.contents, old(held), held)
      ensures kind == Raw ==> |presence| > MAX_DICT
      ensures kind == Dict ==> ids == old(ids)[idx := id] && id != 0 && id !in old(ids)
      ensures kind == Dict ==> d.bitmaps == WithRow(old(d.bitmaps), id, seqNo)
    {
      hide State.Ok, SlotsOk, Promotable, Agrees, Transfers, Interning.Interner.Valid, Contents.Shared, RefsOf;
      hide WithRow, Injective, InternIds, Contents.WellFormed;
      ghost var st, c0 := St(), intern.contents;
      Sizes(st, hash);
      CardinalityFits(st, hash, idx);
      var internID := TakeUp(intern, s, held, names);
      var k := AllocateSlot(s, internID);
      names, held := names[internID := s], held + multiset{internID};
      if d.cardinality > MAX_DICT {
        NewSlotPromotable(st, hash, k, s, d, held, names);
        id := Overflow(idx, seqNo, s, intern, c0, st.held);
      } else {
        TakeSlot(idx, seqNo, s, k, st);
        id := k;
      }
    }

    /** Finds a dictionary slot for a new value: the most recently freed one, or one more. */
    method AllocateSlot(s: string, internID: nat) returns (k: nat)
      requires Valid() && kind == Dict && s != "" && internID != 0
      requires internID in held ==> internID in names && names[internID] == s
      requires hash(s) in d.byHash ==> !Injective(hash)
      modifies this`d
      ensures k != 0 && k !in pool.strs && k !in ids
      ensures SlotsOk(d, hash, pool.Shared(k, s), names[internID := s])
      ensures held + multiset{internID} == RefsOf(InternIds(d.dict))
      ensures d.bitmaps == old(d.bitmaps) && d.cardinality == old(d.cardinality) + 1
    {
      hide State.Ok, SlotsOk, RefsOf;
      SlotAvailable(St(), hash);
      var n := |d.free|;
      k := if n > 0 then d.free[n - 1] else |d.dict|;
      var slot := DictSlot(internID, hash(s), 1, true);
      var d' := Dictionary(if k < |d.dict| then d.dict[k := slot] else d.dict + [slot],
                           if n > 0 then d.free[..n - 1] else d.free,
                           if slot.hash in d.byHash then d.byHash else d.byHash[slot.hash := k],
                           d.bitmaps, d.cardinality + 1);
      NewSlot(St(), hash, s, slot, k, d');
      d := d';
    }

    /** The row takes the slot that was allocated for it. */
    method TakeSlot(idx: nat, seqNo: nat, s: string, k: nat, ghost st: State)
      requires st.Ok(hash) && st.kind == Dict && idx < |ids| && ids[idx] == 0 && s != ""
      requires St() == st.(d := d, held := held, names := names) && k !in pool.strs && k != 0
      requires SlotsOk(d, hash, pool.Shared(k, s), names) && held == RefsOf(InternIds(d.dict))
      requires d.bitmaps == st.d.bitmaps && d.cardinality == st.d.cardinality + 1
      modifies this`d, this`pool, this`vals, this`ids, this`presence, this`stamps
      ensures Valid() && |presence| == old(|presence|)
      ensures vals == old(vals)[idx := s] && stamps == old(stamps)[idx := seqNo]
      ensures ids == old(ids)[idx := k] && d.bitmaps == WithRow(old(d.bitmaps), k, seqNo)
    {
      hide State.Ok, SlotsOk, Contents.Shared, RefsOf;
      Sizes(st, hash);
      TakeOk(st, hash, idx, seqNo, s, k, d, held, names);
      d, pool := d.(bitmaps := WithRow(d.bitmaps, k, seqNo)), pool.Shared(k, s);
      FillRow(idx, seqNo, k, s);
    }

    /** The dictionary has outgrown its limit. */
    method Overflow(idx: nat, seqNo: nat, s: string, intern: Interning.Interner, ghost c0: Contents,
                    ghost held0: multiset<nat>)
      returns (id: nat)
      requires Promotable(St()) && intern.Valid() && Agrees(held, names, intern.contents)
      requires idx < |ids| && ids[idx] == 0 && s != "" && Transfers(c0, intern.contents, held0, held)
      modifies this`ids, this`presence, this`vals, this`stamps, this`held, this`names, this`d, this`kind, intern,
          intern.arena
      ensures Ready(intern) && kind == Raw && |presence| == old(|presence|)
      ensures vals == old(vals)[idx := s] && stamps == old(stamps)[idx := seqNo]
      ensures Transfers(c0, intern.contents, held0, held)
    {
      hide State.Ok, Promotable, Agrees, Transfers, Interning.Interner.Valid;
      ghost var c1, held1 := intern.contents, held;
      PromoteToRaw(intern);
      ghost var c2, held2 := intern.contents, held;
      id := SetRaw(idx, seqNo, s, intern);
      Composed(c1, c2, intern.contents, held1, held2, held);
      Composed(c0, c1, intern.contents, held0, held1, held);
    }

    /** Stores s for the row at idx under sequence number seqNo, replacing what the row had; a numeric column
        only forgets the row. `stale` are the numbers off which the index was exact. */
    method SetString(idx: nat, seqNo: nat, s: string, intern: Interning.Interner, ghost stale: set<nat>)
      requires Ready(intern) && idx < |presence|
      modifies this, intern, intern.arena
      ensures |presence| == old(|presence|) && Ready(intern) && (kind == F64 <==> old(kind) == F64)
      ensures vals == (if kind == F64 then old(vals) else old(vals)[idx := s]) && stamps == old(stamps)[idx := seqNo]
      ensures nums == if kind == F64 then old(nums)[idx := None] else old(nums)
      ensures Transfers(old(intern.contents), intern.contents, old(held), held)
      ensures kind == Dict ==> old(kind) == Dict
      ensures kind == Raw && old(kind) == Dict ==> |presence| > MAX_DICT
      ensures kind == Dict && old(IndexTrusted(idx, seqNo, stale)) ==>
                && IndexExact(St(), stale + {seqNo})
                && (IndexExact(St(), stale) <==> SafeOverwrite(old(vals), old(stamps), idx, seqNo, s))
    {
      hide State.Ok, Agrees, Transfers, Interning.Interner.Valid, IndexExact, SafeOverwrite, Overwritten;
      ghost var st := St();
      Sizes(st, hash);
      if kind == F64 {
        NoText(st, hash, idx);
        Clear(idx, seqNo, intern);
        return;
      }
      Replace(idx, seqNo, s, intern);
      if kind == Dict && st.stamps[idx] <= seqNo < U32 && idx == seqNo % |presence| && Injective(hash) &&
          IndexExact(st, stale) {
        Sizes(st, hash);
        OverwriteKeepsExactIff(st, St(), hash, idx, seqNo, stale);
      }
    }

    /** The index is exact off the stale numbers, collisions are excluded, and the row's number is new among
        them and fits the bitmaps. */
    ghost predicate IndexTrusted(idx: nat, seqNo: nat, stale: set<nat>)
      requires idx < |stamps|
      reads this
    {
      && Injective(hash) && kind == Dict && IndexExact(St(), stale) && seqNo !in stale
      && stamps[idx] <= seqNo < U32 && |presence| > 0 && idx == seqNo % |presence|
    }

    method Replace(idx: nat, seqNo: nat, s: string, intern: Interning.Interner)
      requires Ready(intern) && kind != F64 && idx < |presence|
      modifies this, intern, intern.arena
      ensures |presence| == old(|presence|) && Ready(intern) && kind != F64
      ensures vals == old(vals)[idx := s] && nums == old(nums) && stamps == old(stamps)[idx := seqNo]
      ensures Transfers(old(intern.contents), intern.contents, old(held), held)
      ensures kind == Dict ==> old(kind) == Dict && Overwritten(old(St()), St(), idx, seqNo)
      ensures kind == Raw && old(kind) == Dict ==> |presence| > MAX_DICT
    {
      hide State.Ok, Agrees, Transfers, WithoutRow, Interning.Interner.Valid;
      ghost var st, c0 := St(), intern.contents;
      Sizes(st, hash);
      NoNumber(st, hash, idx);
      EvictSlot(idx, intern);
      Sizes(St(), hash);
      PresenceMatches(St(), hash, idx);
      ghost var c1, held1 := intern.contents, held;
      if s == "" {
        StampOk(St(), hash, idx, seqNo);
        stamps := stamps[idx := seqNo];
        return;
      }
      var id := Store(idx, seqNo, s, intern);
      Composed(c0, c1, intern.contents, st.held, held1, held);
    }

    /** The non-empty half of SetString, on a row that has been evicted. */
    method Store(idx: nat, seqNo: nat, s: string, intern: Interning.Interner) returns (id: nat)
      requires idx < |ids| == |presence| && Ready(intern) && kind != F64 && ids[idx] == 0 && s != ""
      modifies this, intern, intern.arena
      ensures |presence| == old(|presence|) && Ready(intern) && kind != F64
      ensures vals == old(vals)[idx := s] && nums == old(nums) && stamps == old(stamps)[idx := seqNo]
      ensures Transfers(old(intern.contents), intern.contents, old(held), held)
      ensures kind == Dict ==> old(kind) == Dict && ids == old(ids)[idx := id] && id != 0
      ensures kind == Dict ==> d.bitmaps == WithRow(old(d.bitmaps), id, seqNo)
      ensures kind == Raw && old(kind) == Dict ==> |presence| > MAX_DICT
    {
      hide State.Ok, Agrees, Transfers, WithRow, Interning.Interner.Valid;
      if kind == Raw {
        id := SetRaw(idx, seqNo, s, intern);
        return;
      }
      if hash(s) in d.byHash {
        HashIsLive(St(), hash, s);
        var existing := d.byHash[hash(s)];
        var same := DictEqual(existing, s, intern);
        if same {
          HeldIsBacked(held, names, intern.contents);
          Idle(intern.contents, held);
          JoinSlot(idx, seqNo, existing);
          return existing;
        }
      }
      id := SetNew(idx, seqNo, s, intern);
    }

    /** Evicts the row at idx for the row with sequence number seqNo that will take its place. */
    method EvictAt(idx: nat, ghost seqNo: nat, intern: Interning.Interner, ghost stale: set<nat>)
      requires Ready(intern) && idx < |presence|
      modifies this, intern
      ensures Ready(intern) && kind == old(kind) && |presence| == old(|presence|)
      ensures vals == old(vals)[idx := ""] && nums == old(nums)[idx := None] && stamps == old(stamps)[idx := seqNo]
      ensures Transfers(old(intern.contents), intern.contents, old(held), held)
      ensures kind == Dict && old(IndexTrusted(idx, seqNo, stale)) && old(stamps[idx]) < seqNo ==>
          IndexExact(St(), stale)
    {
      hide State.Ok, Agrees, Transfers, Interning.Interner.Valid, IndexExact, Overwritten;
      ghost var st := St();
      Clear(idx, seqNo, intern);
      if kind == Dict && st.stamps[idx] < seqNo < U32 && idx == seqNo % |presence| && Injective(hash) &&
          IndexExact(st, stale) {
        Sizes(st, hash);
        OverwriteKeepsExactIff(st, St(), hash, idx, seqNo, stale);
      }
    }

    method Clear(idx: nat, ghost seqNo: nat, intern: Interning.Interner)
      requires Ready(intern) && idx < |presence|
      modifies this, intern
      ensures Ready(intern) && kind == old(kind) && |presence| == old(|presence|)
      ensures vals == old(vals)[idx := ""] && nums == old(nums)[idx := None] && stamps == old(stamps)[idx := seqNo]
      ensures Transfers(old(intern.contents), intern.contents, old(held), held)
      ensures kind == Dict ==> Overwritten(old(St()), St(), idx, seqNo)
    {
      hide State.Ok, Agrees, Transfers, WithoutRow, Interning.Interner.Valid;
      Sizes(St(), hash);
      EvictSlot(idx, intern);
      Sizes(St(), hash);
      StampOk(St(), hash, idx, seqNo);
      stamps := stamps[idx := seqNo];
    }

    /** The indexed sequence numbers of the rows that hold s; None when the column has no index
        or the value is unknown. */
    method BitmapForValue(s: string) returns (bits: Option<set<nat>>)
      requires Valid()
      ensures bits == St().BitmapOf(hash, s)
    {
      if kind != Dict {
        return None;
      }
      var h := hash(s);
      if h !in d.byHash {
        return None;
      }
      var id := d.byHash[h];
      if id in d.bitmaps {
        return Some(d.bitmaps[id]);
      }
      return None;
    }
  }
}

