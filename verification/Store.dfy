/** The in-memory log engine: a ring of rows over hot columns, a per-row tail of key/value pairs, a
    string interner and a blob slab. */

/** The references that the parts of a store hold, and how they add up. */
module Holdings {
  import opened Pools
  import opened Ledger
  import opened Rows

  datatype KV = KV(keyID: nat, valID: nat, isBlob: bool)

  ghost function Sum(hs: seq<multiset<nat>>): multiset<nat> {
    if |hs| == 0 then multiset{} else Sum(hs[..|hs| - 1]) + hs[|hs| - 1]
  }

  lemma {:induction false} SumUpdate(hs: seq<multiset<nat>>, i: nat, h: multiset<nat>)
    requires i < |hs|
    ensures hs[i] <= Sum(hs)
    ensures Sum(hs[i := h]) == Sum(hs) - hs[i] + h
    decreases |hs|
  {
    var n := |hs| - 1;
    if i == n {
      assert hs[i := h][..n] == hs[..n];
    } else {
      SumUpdate(hs[..n], i, h);
      assert hs[i := h][..n] == hs[..n][i := h];
    }
  }

  lemma {:induction false} SumOfTwo(hs: seq<multiset<nat>>, i: nat, j: nat)
    requires i < |hs| && j < |hs| && i != j
    ensures hs[i] + hs[j] <= Sum(hs)
  {
    SumUpdate(hs, i, multiset{});
    SumUpdate(hs[i := multiset{}], j, multiset{});
  }

  lemma SumPush(hs: seq<multiset<nat>>, h: multiset<nat>)
    ensures Sum(hs + [h]) == Sum(hs) + h
  {
    assert (hs + [h])[..|hs|] == hs;
  }

  lemma {:induction false} SumOfNothing(hs: seq<multiset<nat>>)
    requires forall i :: 0 <= i < |hs| ==> hs[i] == multiset{}
    ensures Sum(hs) == multiset{}
    decreases |hs|
  {
    if |hs| > 0 {
      SumOfNothing(hs[..|hs| - 1]);
    }
  }

  function KeyIds(kvs: seq<KV>): (r: seq<nat>)
    ensures |r| == |kvs|
    ensures forall j :: 0 <= j < |kvs| ==> r[j] == kvs[j].keyID
  {
    seq(|kvs|, j requires 0 <= j < |kvs| => kvs[j].keyID)
  }

  /** The value ids of the blob pairs, or of the other pairs; 0 elsewhere. */
  function ValIds(kvs: seq<KV>, blobs: bool): (r: seq<nat>)
    ensures |r| == |kvs|
    ensures forall j :: 0 <= j < |kvs| ==> r[j] == if kvs[j].isBlob == blobs then kvs[j].valID else 0
  {
    seq(|kvs|, j requires 0 <= j < |kvs| => if kvs[j].isBlob == blobs then kvs[j].valID else 0)
  }

  function TextRefs(kvs: seq<KV>): multiset<nat> {
    RefsOf(KeyIds(kvs)) + RefsOf(ValIds(kvs, false))
  }

  function BlobRefs(kvs: seq<KV>): multiset<nat> {
    RefsOf(ValIds(kvs, true))
  }

  function TextOf(kv: KV): multiset<nat> {
    One(kv.keyID) + if kv.isBlob then multiset{} else One(kv.valID)
  }

  function BlobOf(kv: KV): multiset<nat> {
    if kv.isBlob then One(kv.valID) else multiset{}
  }

  lemma IdsPush(kvs: seq<KV>, kv: KV)
    ensures RefsOf(KeyIds(kvs + [kv])) == RefsOf(KeyIds(kvs)) + One(kv.keyID)
    ensures forall b :: RefsOf(ValIds(kvs + [kv], b)) == RefsOf(ValIds(kvs, b)) + (if kv.isBlob == b then One(kv.valID)
        else multiset{})
  {
    assert KeyIds(kvs + [kv]) == KeyIds(kvs) + [kv.keyID];
    RefsAfterPush(KeyIds(kvs), kv.keyID);
    forall b ensures RefsOf(ValIds(kvs + [kv], b)) == RefsOf(ValIds(kvs, b)) + (if kv.isBlob == b then One(kv.valID)
        else multiset{}) {
      var id := if kv.isBlob == b then kv.valID else 0;
      assert ValIds(kvs + [kv], b) == ValIds(kvs, b) + [id];
      RefsAfterPush(ValIds(kvs, b), id);
    }
  }

  lemma RefsPush(kvs: seq<KV>, kv: KV)
    ensures TextRefs(kvs + [kv]) == TextRefs(kvs) + TextOf(kv)
    ensures BlobRefs(kvs + [kv]) == BlobRefs(kvs) + BlobOf(kv)
  {
    hide RefsOf, One;
    IdsPush(kvs, kv);
  }

  lemma IdsFirst(kvs: seq<KV>, j: nat)
    requires j < |kvs|
    ensures RefsOf(KeyIds(kvs[j..])) == One(kvs[j].keyID) + RefsOf(KeyIds(kvs[j + 1..]))
    ensures forall b :: RefsOf(ValIds(kvs[j..], b))
                     == (if kvs[j].isBlob == b then One(kvs[j].valID) else multiset{}) + RefsOf(ValIds(kvs[j + 1..], b))
  {
    assert KeyIds(kvs)[j..] == KeyIds(kvs[j..]) && KeyIds(kvs)[j + 1..] == KeyIds(kvs[j + 1..]);
    RefsOfSuffix(KeyIds(kvs), j);
    forall b ensures RefsOf(ValIds(kvs[j..], b))
                  == (if kvs[j].isBlob == b then One(kvs[j].valID) else multiset{}) + RefsOf(ValIds(kvs[j + 1..], b))
    {
      assert ValIds(kvs, b)[j..] == ValIds(kvs[j..], b) && ValIds(kvs, b)[j + 1..] == ValIds(kvs[j + 1..], b);
      RefsOfSuffix(ValIds(kvs, b), j);
    }
  }

  lemma RefsFirst(kvs: seq<KV>, j: nat)
    requires j < |kvs|
    ensures TextRefs(kvs[j..]) == TextOf(kvs[j]) + TextRefs(kvs[j + 1..])
    ensures BlobRefs(kvs[j..]) == BlobOf(kvs[j]) + BlobRefs(kvs[j + 1..])
  {
    hide RefsOf, One;
    IdsFirst(kvs, j);
  }

  function TextRows(tailKV: seq<seq<KV>>): (r: seq<multiset<nat>>)
    ensures |r| == |tailKV|
    ensures forall i :: 0 <= i < |tailKV| ==> r[i] == TextRefs(tailKV[i])
  {
    seq(|tailKV|, i requires 0 <= i < |tailKV| => TextRefs(tailKV[i]))
  }

  function BlobRows(tailKV: seq<seq<KV>>): (r: seq<multiset<nat>>)
    ensures |r| == |tailKV|
    ensures forall i :: 0 <= i < |tailKV| ==> r[i] == BlobRefs(tailKV[i])
  {
    seq(|tailKV|, i requires 0 <= i < |tailKV| => BlobRefs(tailKV[i]))
  }

  ghost function AllText(tailKV: seq<seq<KV>>): multiset<nat> {
    Sum(TextRows(tailKV))
  }

  ghost function AllBlobs(tailKV: seq<seq<KV>>, ansi: seq<nat>): multiset<nat> {
    Sum(BlobRows(tailKV)) + RefsOf(ansi)
  }

  lemma TextAfter(tailKV: seq<seq<KV>>, i: nat, kvs: seq<KV>)
    requires i < |tailKV|
    ensures TextRefs(tailKV[i]) <= AllText(tailKV)
    ensures AllText(tailKV[i := kvs]) == AllText(tailKV) - TextRefs(tailKV[i]) + TextRefs(kvs)
  {
    SumUpdate(TextRows(tailKV), i, TextRefs(kvs));
    assert TextRows(tailKV[i := kvs]) == TextRows(tailKV)[i := TextRefs(kvs)];
  }

  lemma BlobsAfter(tailKV: seq<seq<KV>>, ansi: seq<nat>, i: nat, kvs: seq<KV>, id: nat)
    requires i < |tailKV| && i < |ansi|
    ensures BlobRefs(tailKV[i]) + One(ansi[i]) <= AllBlobs(tailKV, ansi)
    ensures AllBlobs(tailKV[i := kvs], ansi[i := id])
         == AllBlobs(tailKV, ansi) - (BlobRefs(tailKV[i]) + One(ansi[i])) + (BlobRefs(kvs) + One(id))
  {
    SumUpdate(BlobRows(tailKV), i, BlobRefs(kvs));
    assert BlobRows(tailKV[i := kvs]) == BlobRows(tailKV)[i := BlobRefs(kvs)];
    RefsAfterUpdate(ansi, i, id);
  }

  /** A pair of ids stands for a pair of texts. */
  ghost predicate Means(kv: KV, p: Pair, texts: map<nat, string>, blobs: map<nat, string>) {
    && (if kv.keyID == 0 then p.key == "" else kv.keyID in texts && texts[kv.keyID] == p.key != "")
    && kv.isBlob == p.isBlob
    && if kv.valID == 0 then p.val == ""
       else if kv.isBlob then kv.valID in blobs && blobs[kv.valID] == p.val != ""
       else kv.valID in texts && texts[kv.valID] == p.val != ""
  }

  ghost predicate TailMeans(kvs: seq<KV>, tail: seq<Pair>, texts: map<nat, string>, blobs: map<nat, string>) {
    && |kvs| == |tail|
    && forall j :: 0 <= j < |kvs| ==> Means(kvs[j], tail[j], texts, blobs)
  }
}

module Stores {
  import opened Pools
  import opened Ledger
  import opened Dictionaries
  import opened Columns
  import opened Options
  import opened Sequences
  import opened Rows
  import opened Holdings
  import opened Bits
  import opened Queries
  import Interning
  import Blobs

  /** The ring: slot i holds the last row whose number is i modulo the capacity, so the last `cap`
      rows are all there, each in its own slot. */
  ghost predicate RingOk(slots: seq<Row>, occ: seq<int>, log: seq<Row>, head: nat, tail: nat) {
    && 0 < |slots| == |occ| && |log| == head
    && tail == (if head > |slots| then head - |slots| else 0)
    && (forall i :: 0 <= i < |occ| ==> -1 <= occ[i] < head && (occ[i] >= 0 ==> slots[i] == log[occ[i]]))
    && (forall s :: tail <= s < head ==> occ[s % |slots|] == s)
  }

  lemma ModDistinct(a: nat, b: nat, n: nat)
    requires a < b < a + n
    ensures a % n != b % n
  {
    if a % n == b % n {
      assert b - a == n * (b / n - a / n);
      MulOrder(a / n, b / n, n);
      MulOrder(b / n, a / n + 1, n);
    }
  }

  lemma RingStep(slots: seq<Row>, occ: seq<int>, log: seq<Row>, head: nat, tail: nat, row: Row)
    requires RingOk(slots, occ, log, head, tail)
    ensures var n := |slots|; var idx := head % n;
            && occ[idx] < head
            && RingOk(slots[idx := row], occ[idx := head], log + [row], head + 1, if head + 1 > n then head + 1 - n
                else tail)
  {
    var n := |slots|;
    var tail' := if head + 1 > n then head + 1 - n else tail;
    forall s | tail' <= s < head + 1 ensures occ[head % n := head][s % n] == s {
      if s < head {
        ModDistinct(s, head, n);
      }
    }
  }

  /** Live rows stand in different slots. */
  lemma LiveSlotsDistinct(slots: seq<Row>, occ: seq<int>, log: seq<Row>, head: nat, tail: nat, a: nat, b: nat)
    requires RingOk(slots, occ, log, head, tail) && tail <= a < b < head
    ensures a % |slots| != b % |slots|
    ensures slots[a % |slots|] == log[a] && slots[b % |slots|] == log[b]
  {
    assert occ[a % |slots|] == a && occ[b % |slots|] == b;
  }

  /** Slot by slot, a column shows what the rows say, stamped with the number of the row. */
  ghost predicate ColShows(vals: seq<string>, nums: seq<Option<real>>, stamps: seq<int>, name: string,
                           slots: seq<Row>, occ: seq<int>, busy: int)
  {
    && |vals| == |nums| == |stamps| == |slots| == |occ|
    && forall i :: 0 <= i < |slots| ==>
         && vals[i] == slots[i].Str(name)
         && nums[i] == slots[i].Num(name)
         && stamps[i] <= occ[i]
         && (vals[i] != "" && i != busy ==> stamps[i] == occ[i])
  }

  lemma ShowsOther(vals: seq<string>, nums: seq<Option<real>>, stamps: seq<int>, name: string,
                   slots: seq<Row>, occ: seq<int>, busy: int, idx: nat, row: Row)
    requires ColShows(vals, nums, stamps, name, slots, occ, busy) && idx < |slots|
    requires row.Str(name) == slots[idx].Str(name) && row.Num(name) == slots[idx].Num(name)
    ensures ColShows(vals, nums, stamps, name, slots[idx := row], occ, busy)
  {
  }

  ghost predicate KeysKnown(slots: seq<Row>, keys: set<string>) {
    forall i :: 0 <= i < |slots| ==> slots[i].strs.Keys <= keys && slots[i].nums.Keys <= keys
  }

  lemma KeysWith(slots: seq<Row>, keys: set<string>, idx: nat, row: Row)
    requires KeysKnown(slots, keys) && idx < |slots|
    requires row.strs.Keys <= keys && row.nums.Keys <= keys
    ensures KeysKnown(slots[idx := row], keys)
  {
  }

  lemma KeysHere(slots: seq<Row>, keys: set<string>, idx: nat)
    requires KeysKnown(slots, keys) && idx < |slots|
    ensures slots[idx].strs.Keys <= keys && slots[idx].nums.Keys <= keys
  {
  }

  lemma ShowsText(vals: seq<string>, nums: seq<Option<real>>, stamps: seq<int>, name: string,
                  slots: seq<Row>, occ: seq<int>, busy: int, idx: nat, row: Row, s: string)
    requires ColShows(vals, nums, stamps, name, slots, occ, busy) && idx < |slots|
    requires row.Str(name) == s && row.Num(name) == slots[idx].Num(name)
    ensures ColShows(vals[idx := s], nums, stamps[idx := occ[idx]], name, slots[idx := row], occ, busy)
  {
  }

  /** Row idx may take text s in column `name` without leaving a wrong index entry: it shows nothing
      there yet, or s already, or a text that no other row shows. */
  ghost predicate SafeRow(slots: seq<Row>, name: string, idx: nat, s: string)
    requires idx < |slots|
  {
    var had := slots[idx].Str(name);
    had == "" || had == s || forall j :: 0 <= j < |slots| && j != idx ==> slots[j].Str(name) != had
  }

  lemma SafeBySlots(vals: seq<string>, nums: seq<Option<real>>, stamps: seq<int>, name: string,
                    slots: seq<Row>, occ: seq<int>, busy: int, idx: nat, s: string)
    requires ColShows(vals, nums, stamps, name, slots, occ, busy) && idx < |slots| && idx != busy && occ[idx] >= 0
    ensures stamps[idx] <= occ[idx]
    ensures SafeOverwrite(vals, stamps, idx, occ[idx], s) <==> SafeRow(slots, name, idx, s)
  {
    if vals[idx] != "" {
      assert stamps[idx] == occ[idx];
      forall j | 0 <= j < |slots| ensures vals[j] == slots[j].Str(name) {
      }
    }
  }

  /** The buffers beside the columns show what the rows say. */
  ghost predicate Plain(sourceID: seq<nat>, textMode: seq<bool>, tailKV: seq<seq<KV>>, ansi: seq<nat>, slots: seq<Row>,
                        texts: map<nat, string>, payloads: map<nat, string>)
  {
    && |tailKV| == |sourceID| == |textMode| == |ansi| == |slots|
    && (forall i :: 0 <= i < |slots| ==>
          && sourceID[i] == slots[i].source && textMode[i] == slots[i].text
          && TailMeans(tailKV[i], slots[i].tail, texts, payloads)
          && AnsiMeans(ansi[i], slots[i].ansi, payloads))
  }

  /** Every reference is accounted for: the interner counts exactly what the columns and the tail
      pairs hold, the slab exactly what the tail pairs and the ANSI entries hold. `due` is what a
      running operation has taken but not yet stored, or has unstored but not yet released. */
  ghost predicate Balanced(interned: Contents, slab: Contents, owed: seq<multiset<nat>>, tailKV: seq<seq<KV>>,
                           ansi: seq<nat>, due: Due, texts: map<nat, string>, payloads: map<nat, string>)
  {
    && interned.refs == Sum(owed) + (AllText(tailKV) + due.texts)
    && slab.refs == AllBlobs(tailKV, ansi) + due.blobs
    && Agrees(AllText(tailKV) + due.texts, texts, interned)
    && Agrees(AllBlobs(tailKV, ansi) + due.blobs, payloads, slab)
  }

  datatype Due = Due(texts: multiset<nat>, blobs: multiset<nat>)

  const NOTHING := Due(multiset{}, multiset{})

  lemma PlainWith(sourceID: seq<nat>, textMode: seq<bool>, tailKV: seq<seq<KV>>, ansi: seq<nat>, slots: seq<Row>,
                  texts: map<nat, string>, payloads: map<nat, string>, idx: nat, row: Row)
    requires Plain(sourceID, textMode, tailKV, ansi, slots, texts, payloads) && idx < |slots|
    requires row == slots[idx].(strs := row.strs, nums := row.nums)
    ensures Plain(sourceID, textMode, tailKV, ansi, slots[idx := row], texts, payloads)
  {
  }

  /** A column settles with the interner; the books still balance and no other holder notices. */
  lemma ColumnSettles(before: Contents, after: Contents, slab: Contents, owed: seq<multiset<nat>>, j: nat,
                      held: multiset<nat>, tailKV: seq<seq<KV>>, ansi: seq<nat>, due: Due, texts: map<nat, string>,
                      payloads: map<nat, string>)
    requires Balanced(before, slab, owed, tailKV, ansi, due, texts, payloads) && j < |owed|
    requires Transfers(before, after, owed[j], held)
    ensures Balanced(after, slab, owed[j := held], tailKV, ansi, due, texts, payloads)
    ensures forall k, names :: 0 <= k < |owed| && k != j && Agrees(owed[k], names, before) ==>
        Agrees(owed[k], names, after)
  {
    hide Agrees, AllText, AllBlobs, Sum;
    SumUpdate(owed, j, held);
    var rest := AllText(tailKV) + due.texts;
    assert owed[j] + rest <= before.refs;
    OthersAgree(before, after, owed[j], held, rest, texts);
    forall k, names | 0 <= k < |owed| && k != j && Agrees(owed[k], names, before)
        ensures Agrees(owed[k], names, after) {
      SumOfTwo(owed, j, k);
      OthersAgree(before, after, owed[j], held, owed[k], names);
    }
  }

  lemma BooksAgree(interned: Contents, slab: Contents, owed: seq<multiset<nat>>, tailKV: seq<seq<KV>>,
                   ansi: seq<nat>, due: Due, texts: map<nat, string>, payloads: map<nat, string>)
    requires Balanced(interned, slab, owed, tailKV, ansi, due, texts, payloads)
    ensures Agrees(AllText(tailKV) + due.texts, texts, interned)
    ensures Agrees(AllBlobs(tailKV, ansi) + due.blobs, payloads, slab)
    ensures interned.WellFormed() && slab.WellFormed() ==> 0 !in due.texts && 0 !in due.blobs
    ensures forall x :: x in due.texts ==> x in texts
    ensures forall x :: x in due.blobs ==> x in payloads
  {
  }

  /** The tail texts settle with the interner. */
  lemma TextsSettle(before: Contents, after: Contents, slab: Contents, owed: seq<multiset<nat>>,
                    tailKV: seq<seq<KV>>, ansi: seq<nat>, due: Due, due': Due, texts: map<nat, string>,
                    texts': map<nat, string>, payloads: map<nat, string>)
    requires Balanced(before, slab, owed, tailKV, ansi, due, texts, payloads) && due'.blobs == due.blobs
    requires Transfers(before, after, AllText(tailKV) + due.texts, AllText(tailKV) + due'.texts)
    requires Agrees(AllText(tailKV) + due'.texts, texts', after)
    ensures Balanced(after, slab, owed, tailKV, ansi, due', texts', payloads)
    ensures forall k, names :: 0 <= k < |owed| && Agrees(owed[k], names, before) ==> Agrees(owed[k], names, after)
  {
    var t := AllText(tailKV) + due.texts;
    forall k, names | 0 <= k < |owed| && Agrees(owed[k], names, before) ensures Agrees(owed[k], names, after) {
      SumUpdate(owed, k, multiset{});
      OthersAgree(before, after, t, AllText(tailKV) + due'.texts, owed[k], names);
    }
  }

  lemma TextTaken(before: Contents, after: Contents, slab: Contents, owed: seq<multiset<nat>>, tailKV: seq<seq<KV>>,
                  ansi: seq<nat>, due: Due, texts: map<nat, string>, payloads: map<nat, string>, id: nat, s: string)
    requires Balanced(before, slab, owed, tailKV, ansi, due, texts, payloads)
    requires Transfers(before, after, AllText(tailKV) + due.texts, AllText(tailKV) + due.texts + multiset{id})
    requires Agrees(AllText(tailKV) + due.texts + multiset{id}, texts[id := s], after)
    ensures Balanced(after, slab, owed, tailKV, ansi, due.(texts := due.texts + multiset{id}), texts[id := s], payloads)
    ensures forall k, names :: 0 <= k < |owed| && Agrees(owed[k], names, before) ==> Agrees(owed[k], names, after)
  {
    hide Agrees, Transfers, Balanced;
    var due' := due.(texts := due.texts + multiset{id});
    assert AllText(tailKV) + due.texts + multiset{id} == AllText(tailKV) + due'.texts;
    TextsSettle(before, after, slab, owed, tailKV, ansi, due, due', texts, texts[id := s], payloads);
  }

  lemma TextReleased(before: Contents, after: Contents, slab: Contents, owed: seq<multiset<nat>>, tailKV: seq<seq<KV>>,
                     ansi: seq<nat>, due: Due, texts: map<nat, string>, payloads: map<nat, string>, id: nat)
    requires Balanced(before, slab, owed, tailKV, ansi, due, texts, payloads) && id in due.texts
    requires Transfers(before, after, AllText(tailKV) + due.texts, AllText(tailKV) + due.texts - multiset{id})
    requires Agrees(AllText(tailKV) + due.texts - multiset{id}, texts, after)
    ensures Balanced(after, slab, owed, tailKV, ansi, due.(texts := due.texts - multiset{id}), texts, payloads)
    ensures forall k, names :: 0 <= k < |owed| && Agrees(owed[k], names, before) ==> Agrees(owed[k], names, after)
  {
    hide Agrees, Transfers, Balanced;
    var due' := due.(texts := due.texts - multiset{id});
    assert AllText(tailKV) + due.texts - multiset{id} == AllText(tailKV) + due'.texts;
    TextsSettle(before, after, slab, owed, tailKV, ansi, due, due', texts, texts, payloads);
  }

  lemma SameSizes(sourceID: seq<nat>, textMode: seq<bool>, tailKV: seq<seq<KV>>, ansi: seq<nat>, slots: seq<Row>,
                  texts: map<nat, string>, payloads: map<nat, string>)
    requires Plain(sourceID, textMode, tailKV, ansi, slots, texts, payloads)
    ensures |tailKV| == |sourceID| == |textMode| == |ansi| == |slots|
  {
  }

  /** The slab settles. */
  lemma BlobsSettle(interned: Contents, before: Contents, after: Contents, owed: seq<multiset<nat>>,
                    tailKV: seq<seq<KV>>, ansi: seq<nat>, due: Due, due': Due, texts: map<nat, string>,
                    payloads: map<nat, string>, payloads': map<nat, string>)
    requires Balanced(interned, before, owed, tailKV, ansi, due, texts, payloads) && due'.texts == due.texts
    requires Transfers(before, after, AllBlobs(tailKV, ansi) + due.blobs, AllBlobs(tailKV, ansi) + due'.blobs)
    requires Agrees(AllBlobs(tailKV, ansi) + due'.blobs, payloads', after)
    ensures Balanced(interned, after, owed, tailKV, ansi, due', texts, payloads')
  {
  }

  lemma BlobTaken(interned: Contents, before: Contents, after: Contents, owed: seq<multiset<nat>>, tailKV: seq<seq<KV>>,
                  ansi: seq<nat>, due: Due, texts: map<nat, string>, payloads: map<nat, string>, id: nat, s: string)
    requires Balanced(interned, before, owed, tailKV, ansi, due, texts, payloads)
    requires Transfers(before, after, AllBlobs(tailKV, ansi) + due.blobs,
                       AllBlobs(tailKV, ansi) + due.blobs + multiset{id})
    requires Agrees(AllBlobs(tailKV, ansi) + due.blobs + multiset{id}, payloads[id := s], after)
    ensures Balanced(interned, after, owed, tailKV, ansi, due.(blobs := due.blobs + multiset{id}), texts,
        payloads[id := s])
  {
    hide Agrees, Transfers, Balanced, AllBlobs;
    var due' := due.(blobs := due.blobs + multiset{id});
    assert AllBlobs(tailKV, ansi) + due.blobs + multiset{id} == AllBlobs(tailKV, ansi) + due'.blobs;
    BlobsSettle(interned, before, after, owed, tailKV, ansi, due, due', texts, payloads, payloads[id := s]);
  }

  lemma BlobReleased(interned: Contents, before: Contents, after: Contents, owed: seq<multiset<nat>>,
                     tailKV: seq<seq<KV>>,
                     ansi: seq<nat>, due: Due, texts: map<nat, string>, payloads: map<nat, string>, id: nat)
    requires Balanced(interned, before, owed, tailKV, ansi, due, texts, payloads) && id in due.blobs
    requires Transfers(before, after, AllBlobs(tailKV, ansi) + due.blobs,
                       AllBlobs(tailKV, ansi) + due.blobs - multiset{id})
    requires Agrees(AllBlobs(tailKV, ansi) + due.blobs - multiset{id}, payloads, after)
    ensures Balanced(interned, after, owed, tailKV, ansi, due.(blobs := due.blobs - multiset{id}), texts, payloads)
  {
    hide Agrees, Transfers, Balanced, AllBlobs;
    var due' := due.(blobs := due.blobs - multiset{id});
    assert AllBlobs(tailKV, ansi) + due.blobs - multiset{id} == AllBlobs(tailKV, ansi) + due'.blobs;
    BlobsSettle(interned, before, after, owed, tailKV, ansi, due, due', texts, payloads, payloads);
  }

  lemma {:induction false} HeldByTail(tailKV: seq<seq<KV>>, i: nat, j: nat)
    requires i < |tailKV| && j < |tailKV[i]|
    ensures tailKV[i][j].keyID != 0 ==> tailKV[i][j].keyID in AllText(tailKV)
    ensures tailKV[i][j].valID != 0 && !tailKV[i][j].isBlob ==> tailKV[i][j].valID in AllText(tailKV)
    ensures tailKV[i][j].valID != 0 && tailKV[i][j].isBlob ==> tailKV[i][j].valID in Sum(BlobRows(tailKV))
  {
    var kvs := tailKV[i];
    assert KeyIds(kvs)[j] in multiset(KeyIds(kvs));
    assert ValIds(kvs, false)[j] in multiset(ValIds(kvs, false));
    assert ValIds(kvs, true)[j] in multiset(ValIds(kvs, true));
    SumUpdate(TextRows(tailKV), i, multiset{});
    SumUpdate(BlobRows(tailKV), i, multiset{});
    assert TextRefs(kvs) <= AllText(tailKV);
  }

  /** A text that is interned for the tail does not change what the pairs there mean. */
  lemma PlainRetexted(sourceID: seq<nat>, textMode: seq<bool>, tailKV: seq<seq<KV>>, ansi: seq<nat>, slots: seq<Row>,
                      texts: map<nat, string>, payloads: map<nat, string>, id: nat, s: string)
    requires Plain(sourceID, textMode, tailKV, ansi, slots, texts, payloads)
    requires id in AllText(tailKV) ==> id in texts && texts[id] == s
    ensures Plain(sourceID, textMode, tailKV, ansi, slots, texts[id := s], payloads)
  {
    forall i | 0 <= i < |slots| ensures TailMeans(tailKV[i], slots[i].tail, texts[id := s], payloads) {
      forall j | 0 <= j < |tailKV[i]| ensures Means(tailKV[i][j], slots[i].tail[j], texts[id := s], payloads) {
        assert Means(tailKV[i][j], slots[i].tail[j], texts, payloads);
        HeldByTail(tailKV, i, j);
      }
    }
  }

  lemma PlainRepaid(sourceID: seq<nat>, textMode: seq<bool>, tailKV: seq<seq<KV>>, ansi: seq<nat>, slots: seq<Row>,
                    texts: map<nat, string>, payloads: map<nat, string>, id: nat, s: string)
    requires Plain(sourceID, textMode, tailKV, ansi, slots, texts, payloads)
    requires id in AllBlobs(tailKV, ansi) ==> id in payloads && payloads[id] == s
    ensures Plain(sourceID, textMode, tailKV, ansi, slots, texts, payloads[id := s])
  {
    forall i | 0 <= i < |slots|
      ensures TailMeans(tailKV[i], slots[i].tail, texts, payloads[id := s])
      ensures AnsiMeans(ansi[i], slots[i].ansi, payloads[id := s])
    {
      assert ansi[i] in multiset(ansi);
      forall j | 0 <= j < |tailKV[i]| ensures Means(tailKV[i][j], slots[i].tail[j], texts, payloads[id := s]) {
        assert Means(tailKV[i][j], slots[i].tail[j], texts, payloads);
        HeldByTail(tailKV, i, j);
      }
    }
  }

  lemma PairAttached(interned: Contents, slab: Contents, owed: seq<multiset<nat>>, sourceID: seq<nat>,
                     textMode: seq<bool>,
                     tailKV: seq<seq<KV>>, ansi: seq<nat>, slots: seq<Row>, due: Due, due': Due,
                     texts: map<nat, string>,
                     payloads: map<nat, string>, idx: nat, kv: KV, p: Pair)
    requires Balanced(interned, slab, owed, tailKV, ansi, due, texts, payloads)
    requires Plain(sourceID, textMode, tailKV, ansi, slots, texts, payloads)
    requires idx < |slots| && Means(kv, p, texts, payloads)
    requires due.texts == due'.texts + TextOf(kv) && due.blobs == due'.blobs + BlobOf(kv)
    ensures Balanced(interned, slab, owed, tailKV[idx := tailKV[idx] + [kv]], ansi, due', texts, payloads)
    ensures Plain(sourceID, textMode, tailKV[idx := tailKV[idx] + [kv]], ansi,
                  slots[idx := slots[idx].(tail := slots[idx].tail + [p])], texts, payloads)
  {
    hide Agrees, TextRefs, BlobRefs, TextOf, BlobOf, One, AllText, AllBlobs;
    RefsPush(tailKV[idx], kv);
    TextAfter(tailKV, idx, tailKV[idx] + [kv]);
    BlobsAfter(tailKV, ansi, idx, tailKV[idx] + [kv], ansi[idx]);
    assert ansi[idx := ansi[idx]] == ansi;
    var tail' := tailKV[idx := tailKV[idx] + [kv]];
    assert AllText(tail') + due'.texts == AllText(tailKV) + due.texts;
    assert AllBlobs(tail', ansi) + due'.blobs == AllBlobs(tailKV, ansi) + due.blobs;
  }

  lemma TailDetached(interned: Contents, slab: Contents, owed: seq<multiset<nat>>, sourceID: seq<nat>,
                     textMode: seq<bool>,
                     tailKV: seq<seq<KV>>, ansi: seq<nat>, slots: seq<Row>, due: Due, texts: map<nat, string>,
                     payloads: map<nat, string>, idx: nat)
    requires Balanced(interned, slab, owed, tailKV, ansi, due, texts, payloads)
    requires Plain(sourceID, textMode, tailKV, ansi, slots, texts, payloads) && idx < |slots|
    ensures var due' := Due(due.texts + TextRefs(tailKV[idx]), due.blobs + BlobRefs(tailKV[idx]));
            Balanced(interned, slab, owed, tailKV[idx := []], ansi, due', texts, payloads)
    ensures Plain(sourceID, textMode, tailKV[idx := []], ansi, slots[idx := slots[idx].(tail := [])], texts, payloads)
  {
    NoPairs();
    hide Agrees, TextRefs, BlobRefs, One, AllText, AllBlobs;
    TextAfter(tailKV, idx, []);
    BlobsAfter(tailKV, ansi, idx, [], ansi[idx]);
    assert ansi[idx := ansi[idx]] == ansi;
    var tail' := tailKV[idx := []];
    assert AllText(tail') + (due.texts + TextRefs(tailKV[idx])) == AllText(tailKV) + due.texts;
    assert AllBlobs(tail', ansi) + (due.blobs + BlobRefs(tailKV[idx])) == AllBlobs(tailKV, ansi) + due.blobs;
  }

  lemma NoRefs()
    ensures One(0) == multiset{}
  {
  }

  lemma NoPairs()
    ensures TextRefs([]) == multiset{} && BlobRefs([]) == multiset{}
  {
  }

  lemma AnsiSet(interned: Contents, slab: Contents, owed: seq<multiset<nat>>, sourceID: seq<nat>, textMode: seq<bool>,
                tailKV: seq<seq<KV>>, ansi: seq<nat>, slots: seq<Row>, due: Due, texts: map<nat, string>,
                payloads: map<nat, string>, idx: nat, id: nat, bytes: string)
    requires Balanced(interned, slab, owed, tailKV, ansi, due, texts, payloads)
    requires Plain(sourceID, textMode, tailKV, ansi, slots, texts, payloads) && idx < |slots|
    requires ansi[idx] == 0 && id in due.blobs && id != 0 && AnsiMeans(id, bytes, payloads)
    ensures Balanced(interned, slab, owed, tailKV, ansi[idx := id], due.(blobs := due.blobs - multiset{id}), texts,
        payloads)
    ensures Plain(sourceID, textMode, tailKV, ansi[idx := id], slots[idx := slots[idx].(ansi := bytes)], texts,
        payloads)
  {
    hide Agrees, BlobRefs, AllText, AllBlobs;
    BlobsAfter(tailKV, ansi, idx, tailKV[idx], id);
    assert tailKV[idx := tailKV[idx]] == tailKV;
    assert AllBlobs(tailKV, ansi[idx := id]) + (due.blobs - multiset{id}) == AllBlobs(tailKV, ansi) + due.blobs;
  }

  lemma AnsiCleared(interned: Contents, slab: Contents, owed: seq<multiset<nat>>, sourceID: seq<nat>,
                    textMode: seq<bool>,
                    tailKV: seq<seq<KV>>, ansi: seq<nat>, slots: seq<Row>, due: Due, texts: map<nat, string>,
                    payloads: map<nat, string>, idx: nat)
    requires Balanced(interned, slab, owed, tailKV, ansi, due, texts, payloads)
    requires Plain(sourceID, textMode, tailKV, ansi, slots, texts, payloads) && idx < |slots|
    ensures Balanced(interned, slab, owed, tailKV, ansi[idx := 0], due.(blobs := due.blobs + One(ansi[idx])), texts,
        payloads)
    ensures Plain(sourceID, textMode, tailKV, ansi[idx := 0], slots[idx := slots[idx].(ansi := "")], texts, payloads)
  {
    hide Agrees, BlobRefs, AllText, AllBlobs, One;
    BlobsAfter(tailKV, ansi, idx, tailKV[idx], 0);
    assert tailKV[idx := tailKV[idx]] == tailKV;
    NoRefs();
    assert AllBlobs(tailKV, ansi[idx := 0]) + (due.blobs + One(ansi[idx])) == AllBlobs(tailKV, ansi) + due.blobs;
  }

  lemma PlainSet(sourceID: seq<nat>, textMode: seq<bool>, tailKV: seq<seq<KV>>, ansi: seq<nat>, slots: seq<Row>,
                 texts: map<nat, string>, payloads: map<nat, string>, idx: nat, source: nat, text: bool)
    requires Plain(sourceID, textMode, tailKV, ansi, slots, texts, payloads) && idx < |slots|
    ensures Plain(sourceID[idx := source], textMode[idx := text], tailKV, ansi,
                  slots[idx := slots[idx].(source := source, text := text)], texts, payloads)
  {
  }

  lemma ShowsNumber(vals: seq<string>, nums: seq<Option<real>>, stamps: seq<int>, slots: seq<Row>, occ: seq<int>,
                    busy: int,
                    idx: nat, v: real)
    requires ColShows(vals, nums, stamps, "ts", slots, occ, busy) && idx < |slots|
    ensures ColShows(vals, nums[idx := Some(v)], stamps, "ts",
        slots[idx := slots[idx].(nums := slots[idx].nums["ts" := v])],
                     occ, busy)
  {
  }

  lemma ShowsGone(vals: seq<string>, nums: seq<Option<real>>, stamps: seq<int>, name: string,
                  slots: seq<Row>, occ: seq<int>, busy: int)
    requires ColShows(vals, nums, stamps, name, slots, occ, busy) && 0 <= busy < |slots|
    ensures ColShows(vals[busy := ""], nums[busy := None], stamps[busy := occ[busy]], name,
                     slots[busy := slots[busy].Without(name)], occ, busy)
  {
  }

  lemma ShowsFresh(st: State, slots: seq<Row>, occ: seq<int>, busy: int, key: string, keys: set<string>)
    requires st == Fresh(st.kind, |slots|) && |occ| == |slots| && key !in keys && KeysKnown(slots, keys)
    requires forall i :: 0 <= i < |occ| ==> occ[i] >= -1
    ensures ColShows(st.vals, st.nums, st.stamps, key, slots, occ, busy)
    ensures |st.presence| == |slots|
  {
  }

  lemma BooksGrow(interned: Contents, slab: Contents, owed: seq<multiset<nat>>, tailKV: seq<seq<KV>>,
                  ansi: seq<nat>, due: Due, texts: map<nat, string>, payloads: map<nat, string>)
    requires Balanced(interned, slab, owed, tailKV, ansi, due, texts, payloads)
    ensures Balanced(interned, slab, owed + [multiset{}], tailKV, ansi, due, texts, payloads)
  {
    SumPush(owed, multiset{});
  }

  lemma NothingHeld(held: multiset<nat>, c: Contents, names: map<nat, string>)
    requires held == multiset{}
    ensures Agrees(held, names, c)
  {
  }

  lemma FreshIndexExact(kind: Kind, cap: nat, stale: set<nat>)
    requires cap > 0 && kind == Dict
    ensures IndexExact(Fresh(kind, cap), stale)
  {
  }

  ghost predicate AnsiMeans(id: nat, ansi: string, payloads: map<nat, string>) {
    if id == 0 then ansi == "" else id in payloads && payloads[id] == ansi != ""
  }

  /** Releases one of the references to the slab that a holder owns. */
  method GiveUpBlob(blobs: Blobs.BlobSlab, id: nat, ghost held: multiset<nat>, ghost names: map<nat, string>)
    requires blobs.Valid() && Agrees(held, names, blobs.contents) && id in held
    modifies blobs
    ensures blobs.Valid() && Agrees(held - multiset{id}, names, blobs.contents)
    ensures Transfers(old(blobs.contents), blobs.contents, held, held - multiset{id})
  {
    hide Blobs.BlobSlab.Valid, Agrees, Transfers, Contents.Released, Contents.Shared, Contents.WellFormed;
    ReleasedFrom(blobs.contents, held, names, id);
    blobs.Release(id);
  }

  /** Stores a payload on behalf of a holder. */
  method TakeUpBlob(blobs: Blobs.BlobSlab, s: string, ghost held: multiset<nat>, ghost names: map<nat, string>)
    returns (id: nat)
    requires blobs.Valid() && Agrees(held, names, blobs.contents) && s != ""
    modifies blobs
    ensures id != 0 && (id in held ==> id in names && names[id] == s)
    ensures blobs.Valid() && Agrees(held + multiset{id}, names[id := s], blobs.contents)
    ensures Transfers(old(blobs.contents), blobs.contents, held, held + multiset{id})
  {
    hide Blobs.BlobSlab.Valid, Transfers, Contents.Released, Contents.Shared, Contents.WellFormed;
    id := blobs.Put(s);
    SharedInto(old(blobs.contents), held, names, id, s);
  }

  /** `place` tells where each hot column stands in `cols`, and each stands once. */
  ghost predicate Registered(hot: map<string, Column>, place: map<string, nat>, cols: seq<Column>) {
    && hot.Keys == place.Keys
    && (forall n :: n in place ==> place[n] < |cols| && hot[n] == cols[place[n]] && cols[place[n]].name == n)
    && (forall j :: 0 <= j < |cols| ==> cols[j].name in place && place[cols[j].name] == j)
  }

  lemma RegisteredWith(hot: map<string, Column>, place: map<string, nat>, cols: seq<Column>, c: Column)
    requires Registered(hot, place, cols) && c.name !in hot
    ensures Registered(hot[c.name := c], place[c.name := |cols|], cols + [c])
  {
  }

  lemma KeysMore(slots: seq<Row>, keys: set<string>, more: set<string>)
    requires KeysKnown(slots, keys) && keys <= more
    ensures KeysKnown(slots, more)
  {
  }

  /** A dictionary column has an index that is exact off the stale numbers. */
  ghost predicate ExactColumn(c: Column, stale: set<nat>)
    reads c
  {
    c.kind == Dict ==> IndexExact(c.St(), stale)
  }

  lemma MoreStale(c: Column, stale: set<nat>, more: set<nat>)
    requires ExactColumn(c, stale) && stale <= more
    ensures ExactColumn(c, more)
  {
  }

  /** Slot idx of the column was last written under an earlier number. */
  ghost predicate Ahead(c: Column, idx: nat, seqNo: nat)
    reads c
  {
    idx < |c.stamps| && c.stamps[idx] < seqNo
  }

  lemma NothingThere(slots: seq<Row>, name: string, idx: nat, s: string)
    requires idx < |slots| && slots[idx].Str(name) == ""
    ensures SafeRow(slots, name, idx, s)
  {
  }

  lemma StampsBelow(vals: seq<string>, nums: seq<Option<real>>, stamps: seq<int>, name: string,
                    slots: seq<Row>, occ: seq<int>, busy: int, idx: nat)
    requires ColShows(vals, nums, stamps, name, slots, occ, busy) && idx < |slots|
    ensures |stamps| == |slots| && stamps[idx] <= occ[idx]
  {
  }

  lemma ShowsBusy(vals: seq<string>, nums: seq<Option<real>>, stamps: seq<int>, name: string,
                  slots: seq<Row>, occ: seq<int>, idx: nat, seqNo: nat)
    requires ColShows(vals, nums, stamps, name, slots, occ, -1) && idx < |slots| && occ[idx] < seqNo
    ensures ColShows(vals, nums, stamps, name, slots, occ[idx := seqNo], idx)
  {
  }

  lemma ShowsIdle(vals: seq<string>, nums: seq<Option<real>>, stamps: seq<int>, name: string,
                  slots: seq<Row>, occ: seq<int>, busy: nat)
    requires ColShows(vals, nums, stamps, name, slots, occ, busy) && busy < |slots| && slots[busy].strs == map[]
    ensures ColShows(vals, nums, stamps, name, slots, occ, -1)
  {
  }

  lemma DueLess(kvs: seq<KV>, j: nat)
    requires j < |kvs|
    ensures TextOf(kvs[j]) <= TextRefs(kvs[j..]) && BlobOf(kvs[j]) <= BlobRefs(kvs[j..])
    ensures TextRefs(kvs[j..]) - TextOf(kvs[j]) == TextRefs(kvs[j + 1..])
    ensures BlobRefs(kvs[j..]) - BlobOf(kvs[j]) == BlobRefs(kvs[j + 1..])
  {
    RefsFirst(kvs, j);
  }

  function Paid(from: multiset<nat>, id: nat): multiset<nat> {
    if id == 0 then from else from - multiset{id}
  }

  function Plus(from: multiset<nat>, id: nat): multiset<nat> {
    if id == 0 then from else from + multiset{id}
  }

  lemma NothingPlus(id: nat)
    ensures id == 0 ==> Plus(multiset{}, id) == multiset{}
    ensures id != 0 ==> Plus(multiset{}, id) == multiset{} + multiset{id}
  {
  }

  /** The two references taken for a pair are what it stores, and they mean what it means. */
  lemma PairReady(kv: KV, p: Pair, texts0: map<nat, string>, texts: map<nat, string>, payloads: map<nat, string>)
    requires if kv.keyID == 0 then p.key == "" else kv.keyID in texts0 && texts0[kv.keyID] == p.key != ""
    requires kv.isBlob == p.isBlob && (kv.valID == 0) == (p.val == "")
    requires texts == if kv.isBlob || kv.valID == 0 then texts0 else texts0[kv.valID := p.val]
    requires kv.isBlob && kv.valID != 0 ==> kv.valID in payloads && payloads[kv.valID] == p.val
    requires !kv.isBlob && kv.valID != 0 && kv.valID == kv.keyID ==> p.key == p.val
    ensures Means(kv, p, texts, payloads)
    ensures kv.isBlob ==> Plus(multiset{}, kv.keyID) == TextOf(kv) && Plus(multiset{}, kv.valID) == BlobOf(kv)
    ensures !kv.isBlob ==> Plus(Plus(multiset{}, kv.keyID), kv.valID) == TextOf(kv) && multiset{} == BlobOf(kv)
  {
  }

  /** A pair's references can be returned one after the other. */
  lemma PairDue(due: Due, kv: KV)
    requires TextOf(kv) <= due.texts && BlobOf(kv) <= due.blobs
    ensures kv.keyID == 0 || kv.keyID in due.texts
    ensures kv.isBlob ==> (kv.valID == 0 || kv.valID in due.blobs)
    ensures kv.isBlob ==>
        Paid(due.texts, kv.keyID) == due.texts - TextOf(kv) &&
        Paid(due.blobs, kv.valID) == due.blobs - BlobOf(kv)
    ensures !kv.isBlob ==> kv.valID == 0 || kv.valID in Paid(due.texts, kv.keyID)
    ensures !kv.isBlob ==>
        Paid(Paid(due.texts, kv.keyID), kv.valID) == due.texts - TextOf(kv) &&
        due.blobs == due.blobs - BlobOf(kv)
  {
    assert kv.keyID != 0 ==> kv.keyID in TextOf(kv);
    if kv.isBlob {
      PaidOne(due.blobs, kv.valID);
      PaidOne(due.texts, kv.keyID);
    } else {
      PaidTwo(due.texts, kv.keyID, kv.valID);
    }
  }

  lemma PaidOne(from: multiset<nat>, id: nat)
    ensures Paid(from, id) == from - One(id) && (One(id) <= from ==> id == 0 || id in from)
  {
  }

  lemma PaidTwo(from: multiset<nat>, a: nat, b: nat)
    requires One(a) + One(b) <= from
    ensures (a == 0 || a in from) && (b == 0 || b in Paid(from, a)) &&
        Paid(Paid(from, a), b) == from - (One(a) + One(b))
  {
    PaidOne(from, a);
    PaidOne(from - One(a), b);
    TakenTwice(from, One(a), One(b));
  }

  lemma TakenTwice(from: multiset<nat>, a: multiset<nat>, b: multiset<nat>)
    requires a + b <= from
    ensures a <= from && b <= from - a && from - a - b == from - (a + b)
  {
  }

  lemma DueSum(a: multiset<nat>, b: multiset<nat>)
    ensures multiset{} + a == a && multiset{} + b == b
  {
  }

  lemma AnsiDue(id: nat)
    ensures id != 0 ==> id in multiset{} + One(id) && multiset{} + One(id) - multiset{id} == multiset{}
    ensures id == 0 ==> multiset{} + One(id) == multiset{}
  {
  }

  /** Only "ts" is numeric. */
  ghost function Kinds(names: set<string>): map<string, bool> {
    map n | n in names :: n == "ts"
  }

  lemma HotKeys(names: set<string>)
    ensures Kinds(names).Keys == names
    ensures forall n :: n in names ==> Kinds(names)[n] == (n == "ts")
  {
  }

  lemma KindsWith(names: set<string>, key: string)
    requires key != "ts"
    ensures Kinds(names + {key}) == Kinds(names)[key := false]
  {
  }

  /** When the payload may be stored without leaving a wrong index entry: always for text; for JSON
      unless normalizing the level replaces a level that other rows show. */
  ghost predicate LevelSafe(slots: seq<Row>, idx: nat, row: Row, rt: Routing, payload: Payload)
    requires idx < |slots|
  {
    payload.Json? && payload.level != "" ==>
      SafeRow(slots[idx := Rows.IngestFields(row, rt, payload.fields).0], "level", idx, payload.level)
  }

  lemma LevelSafeBeside(slots: seq<Row>, idx: nat, row0: Row, row: Row, rt: Routing, payload: Payload)
    requires idx < |slots|
    ensures LevelSafe(slots[idx := row0], idx, row, rt, payload) == LevelSafe(slots, idx, row, rt, payload)
  {
    hide SafeRow, Rows.IngestFields;
    if payload.Json? {
      var r := Rows.IngestFields(row, rt, payload.fields).0;
      assert slots[idx := row0][idx := r] == slots[idx := r];
    }
  }

  lemma AnsiHeld(tailKV: seq<seq<KV>>, ansi: seq<nat>, i: nat)
    requires i < |ansi| && ansi[i] != 0
    ensures ansi[i] in AllBlobs(tailKV, ansi)
  {
    assert ansi[i] in multiset(ansi);
  }

  lemma BlobIsHeld(tailKV: seq<seq<KV>>, ansi: seq<nat>, more: multiset<nat>, id: nat)
    ensures id in Sum(BlobRows(tailKV)) ==> id in AllBlobs(tailKV, ansi) + more
  {
  }

  const DEFAULT_CAP: nat := 524288
  const WELL_KNOWN := ["ts", "level", "service", "env", "version", "msg", "caller", "callerFunc", "trace_id"]

  lemma WellKnownOnce(i: nat)
    requires i < |WELL_KNOWN|
    ensures WELL_KNOWN[i] !in WELL_KNOWN[..i]
  {
    assert forall j :: 0 <= j < i ==> |WELL_KNOWN[j]| != |WELL_KNOWN[i]| || WELL_KNOWN[j][0] != WELL_KNOWN[i][0];
  }

  lemma NothingStored(n: nat)
    requires n > 0
    ensures Balanced(EMPTY, EMPTY, [], Repeat(n, []), Repeat(n, 0), NOTHING, map[], map[])
    ensures Plain(Repeat(n, 0), Repeat(n, false), Repeat(n, []), Repeat(n, 0), Repeat(n, NO_ROW), map[], map[])
    ensures RingOk(Repeat(n, NO_ROW), Repeat(n, -1), [], 0, 0)
    ensures KeysKnown(Repeat(n, NO_ROW), {}) && Registered(map[], map[], [])
  {
    NoPairs();
    SumOfNothing(TextRows(Repeat(n, [])));
    SumOfNothing(BlobRows(Repeat(n, [])));
    AllZero(Repeat(n, 0));
  }

  class Store {
    const cap: nat
    const hash: string -> nat
    const intern: Interning.Interner
    const blobs: Blobs.BlobSlab
    var head: nat
    var tail: nat
    var hot: map<string, Column>
    var tailKV: seq<seq<KV>>
    var sourceID: seq<nat>
    var textMode: seq<bool>
    var ansi: seq<nat>
    var promoCnt: map<string, nat>
    var rowsSeen: nat
    var closed: bool

    /** The columns in some order, the place of each name in it, and what each column holds. */
    ghost var cols: seq<Column>
    ghost var place: map<string, nat>
    ghost var owed: seq<multiset<nat>>
    /** What each ring slot holds, the number of the row it was last given to (-1 before), and the
        slot that is being emptied, if any. */
    ghost var slots: seq<Row>
    ghost var occ: seq<int>
    ghost var busy: int
    /** The texts and payloads behind the ids of the tail pairs and ANSI blobs. */
    ghost var texts: map<nat, string>
    ghost var payloads: map<nat, string>
    ghost var due: Due
    /** The columns whose index may name live rows that no longer show the value. */
    ghost var doubted: set<nat>
    /** Every row ever appended. */
    ghost var log: seq<Row>

    ghost predicate Linked()
      reads `hot, `place, `cols
    {
      Registered(hot, place, cols)
    }

    ghost predicate ColumnOk(c: Column, h: multiset<nat>)
      reads `slots, `occ, `busy, c, intern, intern.arena
    {
      && c.Ready(intern) && |c.presence| == cap && c.hash == hash && h == c.held
      && (c.kind == F64 <==> c.name == "ts") && (c.kind == Raw ==> cap > MAX_DICT)
      && ColShows(c.vals, c.nums, c.stamps, c.name, slots, occ, busy)
    }

    ghost predicate ColumnsOk()
      reads `slots, `occ, `busy, `owed, `cols, cols, intern, intern.arena
    {
      |owed| == |cols| && forall j :: 0 <= j < |cols| ==> ColumnOk(cols[j], owed[j])
    }

    ghost predicate BooksOk()
      reads `owed, `tailKV, `ansi, `due, `texts, `payloads, intern, intern.arena, blobs
    {
      && intern.Valid() && blobs.Valid()
      && Balanced(intern.contents, blobs.contents, owed, tailKV, ansi, due, texts, payloads)
    }

    ghost predicate BuffersOk()
      reads `slots, `occ, `sourceID, `textMode, `tailKV, `ansi, `texts, `payloads
    {
      && 0 < cap == |slots| == |occ| && (forall i :: 0 <= i < |occ| ==> occ[i] >= -1)
      && Plain(sourceID, textMode, tailKV, ansi, slots, texts, payloads)
    }

    /** Rows show things in columns that exist. */
    ghost predicate KeysOk()
      reads `slots, `hot
    {
      KeysKnown(slots, hot.Keys)
    }

    ghost predicate Valid()
      reads `hot, `place, `cols, `owed, `slots, `occ, `busy, `sourceID, `textMode, `tailKV, `ansi, `due, `texts,
          `payloads
      reads cols, intern, intern.arena, blobs
    {
      Linked() && KeysOk() && ColumnsOk() && BuffersOk() && BooksOk()
    }

    /** The columns that every store starts with. */
    ghost predicate HasWellKnown()
      reads `hot
    {
      "ts" in hot && "level" in hot && "msg" in hot
    }

    lemma WellPlaced()
      requires Valid()
      ensures forall n :: n in hot ==> hot[n] in cols
    {
    }

    lemma Sized()
      requires Valid()
      ensures |slots| == |occ| == |ansi| == |tailKV| == cap > 0
    {
    }

    /** Where a column is, and that no other place has it. */
    lemma Locate(name: string)
      requires Valid() && name in hot
      ensures name in place && place[name] < |cols| == |owed| && cols[place[name]] == hot[name] &&
          hot[name].name == name
      ensures forall k :: 0 <= k < |cols| && k != place[name] ==> cols[k] != hot[name] && cols[k].name != name
      ensures ColumnOk(hot[name], owed[place[name]])
    {
    }

    /** One text goes to one column. */
    method PutStr(name: string, idx: nat, seqNo: nat, s: string)
      requires Valid() && name in hot && name != "ts" && idx < cap && occ[idx] == seqNo && busy != idx
      modifies this`slots, this`owed, hot[name], intern, intern.arena
      ensures Valid()
      ensures slots == old(slots)[idx := old(slots[idx]).WithStr(name, s)]
      ensures hot[name].kind == Dict ==> old(hot[name].kind) == Dict
      ensures hot[name].kind == Dict && old(hot[name].IndexTrusted(idx, seqNo, StaleFor(name))) ==>
                && IndexExact(hot[name].St(), StaleFor(name) + {seqNo})
                && (IndexExact(hot[name].St(), StaleFor(name)) <==> SafeRow(old(slots), name, idx, s))
    {
      hide ColShows, Plain, Balanced, Agrees, Transfers, Interning.Interner.Valid, Blobs.BlobSlab.Valid, Column.Valid;
      hide AllText, AllBlobs, Contents.WellFormed, Linked, KeysKnown;
      hide IndexExact, SafeOverwrite, SafeRow, Column.IndexTrusted, StaleFor, Registered;
      Locate(name);
      var c := hot[name];
      ghost var j, c0 := place[name], intern.contents;
      SafeBySlots(c.vals, c.nums, c.stamps, name, slots, occ, busy, idx, s);
      ShowsText(c.vals, c.nums, c.stamps, name, slots, occ, busy, idx, slots[idx].WithStr(name, s), s);
      c.SetString(idx, seqNo, s, intern, StaleFor(name));
      ColumnSettles(c0, intern.contents, blobs.contents, owed, j, c.held, tailKV, ansi, due, texts, payloads);
      ghost var row := slots[idx].WithStr(name, s);
      KeysHere(slots, hot.Keys, idx);
      KeysWith(slots, hot.Keys, idx, row);
      PlainWith(sourceID, textMode, tailKV, ansi, slots, texts, payloads, idx, row);
      ghost var slots0 := slots;
      owed := owed[j := c.held];
      slots := slots[idx := row];
      assert BuffersOk() && BooksOk();
      forall k | 0 <= k < |cols| ensures ColumnOk(cols[k], owed[k]) {
        if k != j {
          assert old(ColumnOk(cols[k], owed[k]));
          ShowsOther(cols[k].vals, cols[k].nums, cols[k].stamps, cols[k].name, slots0, occ, busy, idx, row);
        }
      }
    }

    /** Interns a text of the tail; the reference is due until a pair stores it. */
    method InternText(s: string) returns (id: nat)
      requires Valid()
      modifies this`due, this`texts, intern, intern.arena
      ensures Valid()
      ensures s == "" ==> id == 0 && texts == old(texts) && due == old(due)
      ensures s != "" ==>
          id != 0 && texts == old(texts)[id := s] &&
          due == old(due).(texts := old(due).texts + multiset{id})
      ensures id in old(due).texts ==> id in old(texts) && old(texts)[id] == s
    {
      hide Valid;
      if s == "" {
        id := 0;
        NoZeroDue();
      } else {
        id := TakeText(s);
      }
    }

    lemma NoZeroDue()
      requires Valid()
      ensures 0 !in due.texts && 0 !in due.blobs
    {
      BooksAgree(intern.contents, blobs.contents, owed, tailKV, ansi, due, texts, payloads);
    }

    method TakeText(s: string) returns (id: nat)
      requires Valid() && s != ""
      modifies this`due, this`texts, intern, intern.arena
      ensures Valid()
      ensures id != 0 && texts == old(texts)[id := s] && due == old(due).(texts := old(due).texts + multiset{id})
      ensures id in old(due).texts ==> id in old(texts) && old(texts)[id] == s
    {
      hide ColShows, Plain, Balanced, Agrees, Transfers, Interning.Interner.Valid, Blobs.BlobSlab.Valid, Column.Valid;
      hide AllText, AllBlobs, Contents.WellFormed, Linked;
      ghost var c0, kept := intern.contents, AllText(tailKV) + due.texts;
      BooksAgree(intern.contents, blobs.contents, owed, tailKV, ansi, due, texts, payloads);
      id := TakeUp(intern, s, kept, texts);
      TextTaken(c0, intern.contents, blobs.contents, owed, tailKV, ansi, due, texts, payloads, id, s);
      PlainRetexted(sourceID, textMode, tailKV, ansi, slots, texts, payloads, id, s);
      due, texts := due.(texts := due.texts + multiset{id}), texts[id := s];
      assert BuffersOk() && BooksOk();
      forall k | 0 <= k < |cols| ensures ColumnOk(cols[k], owed[k]) {
        assert old(ColumnOk(cols[k], owed[k]));
      }
    }

    /** Releases a text that is due. */
    method ReleaseText(id: nat)
      requires Valid() && (id == 0 || id in due.texts)
      modifies this`due, intern
      ensures Valid()
      ensures due == if id == 0 then old(due) else old(due).(texts := old(due).texts - multiset{id})
    {
      hide Valid;
      if id != 0 {
        DropText(id);
      }
    }

    method DropText(id: nat)
      requires Valid() && id != 0 && id in due.texts
      modifies this`due, intern
      ensures Valid()
      ensures due == old(due).(texts := old(due).texts - multiset{id})
    {
      hide ColShows, Plain, Balanced, Agrees, Transfers, Interning.Interner.Valid, Blobs.BlobSlab.Valid, Column.Valid;
      hide AllText, AllBlobs, Contents.WellFormed, Linked;
      ghost var c0, kept := intern.contents, AllText(tailKV) + due.texts;
      BooksAgree(intern.contents, blobs.contents, owed, tailKV, ansi, due, texts, payloads);
      GiveUp(intern, id, kept, texts);
      TextReleased(c0, intern.contents, blobs.contents, owed, tailKV, ansi, due, texts, payloads, id);
      due := due.(texts := due.texts - multiset{id});
      assert BuffersOk() && BooksOk();
      forall k | 0 <= k < |cols| ensures ColumnOk(cols[k], owed[k]) {
        assert old(ColumnOk(cols[k], owed[k]));
      }
    }

    /** Stores a payload; the reference is due until a pair or an ANSI entry keeps it. */
    method PutBlob(data: string) returns (id: nat)
      requires Valid()
      modifies this`due, this`payloads, blobs
      ensures Valid()
      ensures data == "" ==> id == 0 && payloads == old(payloads) && due == old(due)
      ensures data != "" ==> id != 0 && payloads == old(payloads)[id := data]
      ensures data != "" ==> due == old(due).(blobs := old(due).blobs + multiset{id})
      ensures id in old(due).blobs ==> id in old(payloads) && old(payloads)[id] == data
    {
      hide Valid;
      if data == "" {
        id := 0;
        NoZeroDue();
      } else {
        id := TakeBlob(data);
      }
    }

    method TakeBlob(data: string) returns (id: nat)
      requires Valid() && data != ""
      modifies this`due, this`payloads, blobs
      ensures Valid()
      ensures id != 0 && payloads == old(payloads)[id := data] &&
          due == old(due).(blobs := old(due).blobs + multiset{id})
      ensures id in old(due).blobs ==> id in old(payloads) && old(payloads)[id] == data
    {
      hide ColShows, Plain, Balanced, Agrees, Transfers, Interning.Interner.Valid, Blobs.BlobSlab.Valid, Column.Valid;
      hide AllText, AllBlobs, Contents.WellFormed, Linked, ColumnsOk;
      ghost var c0, kept := blobs.contents, AllBlobs(tailKV, ansi) + due.blobs;
      BooksAgree(intern.contents, blobs.contents, owed, tailKV, ansi, due, texts, payloads);
      id := TakeUpBlob(blobs, data, kept, payloads);
      BlobTaken(intern.contents, c0, blobs.contents, owed, tailKV, ansi, due, texts, payloads, id, data);
      PlainRepaid(sourceID, textMode, tailKV, ansi, slots, texts, payloads, id, data);
      due, payloads := due.(blobs := due.blobs + multiset{id}), payloads[id := data];
    }

    /** Releases a payload that is due. */
    method ReleaseBlob(id: nat)
      requires Valid() && (id == 0 || id in due.blobs)
      modifies this`due, blobs
      ensures Valid()
      ensures due == if id == 0 then old(due) else old(due).(blobs := old(due).blobs - multiset{id})
    {
      hide Valid;
      if id != 0 {
        DropBlob(id);
      }
    }

    method DropBlob(id: nat)
      requires Valid() && id != 0 && id in due.blobs
      modifies this`due, blobs
      ensures Valid()
      ensures due == old(due).(blobs := old(due).blobs - multiset{id})
    {
      hide ColShows, Plain, Balanced, Agrees, Transfers, Interning.Interner.Valid, Blobs.BlobSlab.Valid, Column.Valid;
      hide AllText, AllBlobs, Contents.WellFormed, Linked, ColumnsOk;
      ghost var c0, kept := blobs.contents, AllBlobs(tailKV, ansi) + due.blobs;
      BooksAgree(intern.contents, blobs.contents, owed, tailKV, ansi, due, texts, payloads);
      GiveUpBlob(blobs, id, kept, payloads);
      BlobReleased(intern.contents, c0, blobs.contents, owed, tailKV, ansi, due, texts, payloads, id);
      due := due.(blobs := due.blobs - multiset{id});
    }

    /** Moves what is due for a pair into the row at idx. */
    method AttachPair(idx: nat, kv: KV, ghost p: Pair)
      requires Valid() && idx < cap && Means(kv, p, texts, payloads)
      requires TextOf(kv) <= due.texts && BlobOf(kv) <= due.blobs
      modifies this`due, this`tailKV, this`slots
      ensures Valid() && due == Due(old(due).texts - TextOf(kv), old(due).blobs - BlobOf(kv))
      ensures slots == old(slots)[idx := old(slots[idx]).(tail := old(slots[idx]).tail + [p])]
    {
      hide ColShows, Plain, Balanced, Agrees, Transfers, Interning.Interner.Valid, Blobs.BlobSlab.Valid, Column.Valid;
      hide AllText, AllBlobs, Contents.WellFormed, Linked;
      hide TextOf, BlobOf, Means;
      ghost var due' := Due(due.texts - TextOf(kv), due.blobs - BlobOf(kv));
      assert due.texts == due'.texts + TextOf(kv) && due.blobs == due'.blobs + BlobOf(kv);
      SameSizes(sourceID, textMode, tailKV, ansi, slots, texts, payloads);
      PairAttached(intern.contents, blobs.contents, owed, sourceID, textMode, tailKV, ansi, slots, due, due', texts,
          payloads,
                   idx, kv, p);
      ghost var row := slots[idx].(tail := slots[idx].tail + [p]);
      ghost var slots0 := slots;
      tailKV, due, slots := tailKV[idx := tailKV[idx] + [kv]], due', slots[idx := row];
      assert BuffersOk() && BooksOk();
      forall k | 0 <= k < |cols| ensures ColumnOk(cols[k], owed[k]) {
        assert old(ColumnOk(cols[k], owed[k]));
        ShowsOther(cols[k].vals, cols[k].nums, cols[k].stamps, cols[k].name, slots0, occ, busy, idx, row);
      }
    }

    /** Takes the pairs of the row at idx out of it; their references are then due. */
    method DetachTail(idx: nat) returns (kvs: seq<KV>)
      requires Valid() && idx < cap
      modifies this`due, this`tailKV, this`slots
      ensures Valid() && due == Due(old(due).texts + TextRefs(kvs), old(due).blobs + BlobRefs(kvs))
      ensures slots == old(slots)[idx := old(slots[idx]).(tail := [])]
    {
      hide ColShows, Plain, Balanced, Agrees, Transfers, Interning.Interner.Valid, Blobs.BlobSlab.Valid, Column.Valid;
      hide AllText, AllBlobs, Contents.WellFormed, Linked;
      hide TextRefs, BlobRefs;
      SameSizes(sourceID, textMode, tailKV, ansi, slots, texts, payloads);
      kvs := tailKV[idx];
      ghost var due' := Due(due.texts + TextRefs(kvs), due.blobs + BlobRefs(kvs));
      TailDetached(intern.contents, blobs.contents, owed, sourceID, textMode, tailKV, ansi, slots, due, texts,
          payloads, idx);
      ghost var row, slots0 := slots[idx].(tail := []), slots;
      tailKV, due, slots := tailKV[idx := []], due', slots[idx := row];
      assert BuffersOk() && BooksOk();
      forall k | 0 <= k < |cols| ensures ColumnOk(cols[k], owed[k]) {
        assert old(ColumnOk(cols[k], owed[k]));
        ShowsOther(cols[k].vals, cols[k].nums, cols[k].stamps, cols[k].name, slots0, occ, busy, idx, row);
      }
    }

    /** Keeps a payload that is due as the ANSI bytes of the row at idx, which has none. */
    method SetAnsi(idx: nat, id: nat, ghost bytes: string)
      requires Valid() && idx < cap == |ansi| && ansi[idx] == 0 && id in due.blobs && AnsiMeans(id, bytes, payloads)
      modifies this`due, this`ansi, this`slots
      ensures Valid() && due == old(due).(blobs := old(due).blobs - multiset{id})
      ensures slots == old(slots)[idx := old(slots[idx]).(ansi := bytes)]
    {
      hide ColShows, Plain, Balanced, Agrees, Transfers, Interning.Interner.Valid, Blobs.BlobSlab.Valid, Column.Valid;
      hide AllText, AllBlobs, Contents.WellFormed, Linked;
      hide AnsiMeans;
      SameSizes(sourceID, textMode, tailKV, ansi, slots, texts, payloads);
      NoZeroDue();
      AnsiSet(intern.contents, blobs.contents, owed, sourceID, textMode, tailKV, ansi, slots, due, texts, payloads,
          idx, id, bytes);
      ghost var row, slots0 := slots[idx].(ansi := bytes), slots;
      ansi, due, slots := ansi[idx := id], due.(blobs := due.blobs - multiset{id}), slots[idx := row];
      assert BuffersOk() && BooksOk();
      forall k | 0 <= k < |cols| ensures ColumnOk(cols[k], owed[k]) {
        assert old(ColumnOk(cols[k], owed[k]));
        ShowsOther(cols[k].vals, cols[k].nums, cols[k].stamps, cols[k].name, slots0, occ, busy, idx, row);
      }
    }

    /** The ANSI entry of the row at idx goes; its reference is then due. */
    method ClearAnsi(idx: nat) returns (id: nat)
      requires Valid() && idx < cap
      modifies this`due, this`ansi, this`slots
      ensures Valid() && |ansi| == cap && ansi[idx] == 0
      ensures due == old(due).(blobs := old(due).blobs + One(id))
      ensures slots == old(slots)[idx := old(slots[idx]).(ansi := "")]
    {
      hide ColShows, Plain, Balanced, Agrees, Transfers, Interning.Interner.Valid, Blobs.BlobSlab.Valid, Column.Valid;
      hide AllText, AllBlobs, Contents.WellFormed, Linked;
      hide One;
      SameSizes(sourceID, textMode, tailKV, ansi, slots, texts, payloads);
      id := ansi[idx];
      AnsiCleared(intern.contents, blobs.contents, owed, sourceID, textMode, tailKV, ansi, slots, due, texts, payloads,
          idx);
      ghost var row, slots0 := slots[idx].(ansi := ""), slots;
      ansi, due, slots := ansi[idx := 0], due.(blobs := due.blobs + One(id)), slots[idx := row];
      assert BuffersOk() && BooksOk();
      forall k | 0 <= k < |cols| ensures ColumnOk(cols[k], owed[k]) {
        assert old(ColumnOk(cols[k], owed[k]));
        ShowsOther(cols[k].vals, cols[k].nums, cols[k].stamps, cols[k].name, slots0, occ, busy, idx, row);
      }
    }

    /** The source id and the text flag of the row at idx. */
    method SetPlain(idx: nat, source: nat, text: bool)
      requires Valid() && idx < cap
      modifies this`sourceID, this`textMode, this`slots
      ensures Valid()
      ensures slots == old(slots)[idx := old(slots[idx]).(source := source, text := text)]
    {
      hide ColShows, Plain, Balanced, Agrees, Transfers, Interning.Interner.Valid, Blobs.BlobSlab.Valid, Column.Valid;
      hide AllText, AllBlobs, Contents.WellFormed, Linked;
      SameSizes(sourceID, textMode, tailKV, ansi, slots, texts, payloads);
      PlainSet(sourceID, textMode, tailKV, ansi, slots, texts, payloads, idx, source, text);
      ghost var row, slots0 := slots[idx].(source := source, text := text), slots;
      sourceID, textMode, slots := sourceID[idx := source], textMode[idx := text], slots[idx := row];
      assert BuffersOk() && BooksOk();
      forall k | 0 <= k < |cols| ensures ColumnOk(cols[k], owed[k]) {
        assert old(ColumnOk(cols[k], owed[k]));
        ShowsOther(cols[k].vals, cols[k].nums, cols[k].stamps, cols[k].name, slots0, occ, busy, idx, row);
      }
    }

    /** One number goes to the numeric column. */
    method PutNum(idx: nat, v: real)
      requires Valid() && "ts" in hot && idx < cap
      modifies this`slots, hot["ts"]
      ensures Valid()
      ensures slots == old(slots)[idx := old(slots[idx]).(nums := old(slots[idx]).nums["ts" := v])]
      ensures old(Exact()) ==> Exact()
    {
      hide ColShows, Plain, Balanced, Agrees, Transfers, Interning.Interner.Valid, Blobs.BlobSlab.Valid, Column.Valid;
      hide AllText, AllBlobs, Contents.WellFormed, Linked, KeysKnown;
      Locate("ts");
      var c := hot["ts"];
      ghost var j, row, slots0 := place["ts"], slots[idx].(nums := slots[idx].nums["ts" := v]), slots;
      ShowsNumber(c.vals, c.nums, c.stamps, slots, occ, busy, idx, v);
      KeysHere(slots, hot.Keys, idx);
      KeysWith(slots, hot.Keys, idx, row);
      PlainWith(sourceID, textMode, tailKV, ansi, slots, texts, payloads, idx, row);
      c.SetF64(idx, v);
      slots := slots[idx := row];
      assert BuffersOk() && BooksOk();
      forall k | 0 <= k < |cols| ensures ColumnOk(cols[k], owed[k]) {
        assert old(ColumnOk(cols[k], owed[k]));
        if k != j {
          ShowsOther(cols[k].vals, cols[k].nums, cols[k].stamps, cols[k].name, slots0, occ, busy, idx, row);
        }
      }
    }

    /** No collisions, and a new sequence number that fits the bitmaps and belongs to the slot. */
    ghost predicate Trusting(idx: nat, seqNo: nat)
      reads `doubted
    {
      Injective(hash) && seqNo < U32 && cap > 0 && idx == seqNo % cap && seqNo !in doubted
    }

    /** The numbers under which the index of a column may be wrong: only levels are ever rewritten. */
    ghost function StaleFor(name: string): set<nat>
      reads `doubted
    {
      if name == "level" then doubted else {}
    }

    /** The row at idx leaves one column. */
    method EvictColumn(name: string, idx: nat, ghost seqNo: nat)
      requires Valid() && name in hot && idx < cap && occ[idx] == seqNo && busy == idx
      modifies this`slots, this`owed, hot[name], intern
      ensures Valid() && slots == old(slots)[idx := old(slots[idx]).Without(name)]
      ensures && old(Ahead(hot[name], idx, seqNo)) && old(ExactColumn(hot[name], StaleFor(name)))
              && Trusting(idx, seqNo) ==>
                ExactColumn(hot[name], StaleFor(name))
    {
      hide ColShows, Plain, Balanced, Agrees, Transfers, Interning.Interner.Valid, Blobs.BlobSlab.Valid, Column.Valid;
      hide AllText, AllBlobs, Contents.WellFormed, Linked, KeysKnown;
      hide IndexExact, Overwritten, Injective;
      Locate(name);
      var c := hot[name];
      ghost var j, c0, row, slots0 := place[name], intern.contents, slots[idx].Without(name), slots;
      ShowsGone(c.vals, c.nums, c.stamps, name, slots, occ, busy);
      c.EvictAt(idx, seqNo, intern, StaleFor(name));
      ColumnSettles(c0, intern.contents, blobs.contents, owed, j, c.held, tailKV, ansi, due, texts, payloads);
      KeysHere(slots, hot.Keys, idx);
      KeysWith(slots, hot.Keys, idx, row);
      PlainWith(sourceID, textMode, tailKV, ansi, slots, texts, payloads, idx, row);
      owed := owed[j := c.held];
      slots := slots[idx := row];
      assert BuffersOk() && BooksOk();
      forall k | 0 <= k < |cols| ensures ColumnOk(cols[k], owed[k]) {
        if k != j {
          assert old(ColumnOk(cols[k], owed[k]));
          ShowsOther(cols[k].vals, cols[k].nums, cols[k].stamps, cols[k].name, slots0, occ, busy, idx, row);
        }
      }
    }

    /** A column no row has been written to fits the store. */
    lemma NewColumnFits(c: Column)
      requires Valid() && c.name !in hot && c.Valid() && c.hash == hash
      requires c.St() == Fresh(c.kind, cap) && (c.kind == F64 <==> c.name == "ts") && c.kind != Raw
      ensures ColumnOk(c, multiset{}) && ExactColumn(c, {})
    {
      hide State.Ok, IndexExact, Plain, Balanced, Agrees, KeysKnown;
      ShowsFresh(c.St(), slots, occ, busy, c.name, hot.Keys);
      NothingHeld(c.held, intern.contents, c.names);
      if c.kind == Dict {
        FreshIndexExact(c.kind, cap, {});
      }
    }

    method NewColumn(key: string, kind: Kind) returns (c: Column)
      requires Valid() && key !in hot && (kind == F64 <==> key == "ts") && kind != Raw
      ensures Valid() && fresh(c) && c.name == key && ColumnOk(c, multiset{}) && ExactColumn(c, {})
    {
      hide Plain, Balanced, Agrees, Interning.Interner.Valid, Blobs.BlobSlab.Valid, Column.Valid, Registered, KeysKnown;
      hide ColumnOk, ExactColumn, Fresh;
      Sized();
      c := new Column(key, kind, cap, hash);
      assert Linked() && KeysOk() && BuffersOk() && BooksOk();
      forall k | 0 <= k < |cols| ensures ColumnOk(cols[k], owed[k]) {
        assert old(ColumnOk(cols[k], owed[k]));
      }
      NewColumnFits(c);
    }

    method Register(c: Column)
      requires Valid() && c.name !in hot && ColumnOk(c, multiset{}) && ExactColumn(c, {})
      modifies this`hot, this`cols, this`place, this`owed
      ensures Valid() && hot == old(hot)[c.name := c] && cols == old(cols) + [c]
      ensures old(Exact()) ==> Exact()
    {
      hide Plain, Balanced, Agrees, Interning.Interner.Valid, Blobs.BlobSlab.Valid, Column.Valid, Registered, KeysKnown;
      hide ColumnOk, ExactColumn;
      BooksGrow(intern.contents, blobs.contents, owed, tailKV, ansi, due, texts, payloads);
      RegisteredWith(hot, place, cols, c);
      KeysMore(slots, hot.Keys, hot[c.name := c].Keys);
      MoreStale(c, {}, StaleFor(c.name));
      hot, place, cols, owed := hot[c.name := c], place[c.name := |cols|], cols + [c], owed + [multiset{}];
      assert BuffersOk() && BooksOk();
      forall k | 0 <= k < |cols| ensures ColumnOk(cols[k], owed[k]) {
        if k < |cols| - 1 {
          assert old(ColumnOk(cols[k], owed[k]));
        }
      }
    }

    /** A key becomes a column. */
    method CreateColumn(key: string, kind: Kind)
      requires Valid() && key !in hot && (kind == F64 <==> key == "ts") && kind != Raw
      modifies this`hot, this`cols, this`place, this`owed
      ensures Valid() && key in hot && hot == old(hot)[key := hot[key]] && cols == old(cols) + [hot[key]] &&
          fresh(hot[key])
      ensures old(Exact()) ==> Exact()
    {
      hide Valid, ColumnOk, ExactColumn;
      var c := NewColumn(key, kind);
      Register(c);
    }

    /** Every dictionary column has an exact index; that of the level column off the doubted numbers. */
    ghost predicate Exact()
      reads `hot, `doubted, hot.Values
    {
      forall n :: n in hot ==> ExactColumn(hot[n], StaleFor(n))
    }

    ghost predicate AllAhead(names: set<string>, idx: nat, seqNo: nat)
      requires names <= hot.Keys
      reads `hot, hot.Values
    {
      forall n :: n in names ==> Ahead(hot[n], idx, seqNo)
    }

    ghost predicate ExactBesides(name: string)
      reads `hot, `doubted, hot.Values
    {
      forall n :: n in hot && n != name ==> ExactColumn(hot[n], StaleFor(n))
    }

    /** What storing a level does to exact indexes: it can only harm its own, under the number it is stored
        for, and does unless it is safe or there is no index. */
    ghost predicate LevelVerdict(seqNo: nat, safe: bool)
      reads `hot, `doubted, hot.Values
    {
      && ExactBesides("level")
      && ("level" in hot ==> ExactColumn(hot["level"], doubted + {seqNo}))
      && (Exact() <==> !LevelIndexed() || safe)
    }

    lemma Unharmed(seqNo: nat)
      ensures Exact() ==> LevelVerdict(seqNo, true)
    {
      hide ExactColumn;
      if Exact() && "level" in hot {
        MoreStale(hot["level"], doubted, doubted + {seqNo});
      }
    }

    /** A new row is going to take the slot idx. */
    ghost method BeginRow(idx: nat, seqNo: nat)
      requires Valid() && idx < cap && busy == -1 && occ[idx] < seqNo
      modifies this`occ, this`busy
      ensures Valid() && busy == idx && occ == old(occ)[idx := seqNo]
      ensures AllAhead(hot.Keys, idx, seqNo)
    {
      hide ColShows, Plain, Balanced, KeysKnown, Interning.Interner.Valid, Blobs.BlobSlab.Valid, Column.Valid;
      ghost var occ0 := occ;
      forall n | n in hot ensures Ahead(hot[n], idx, seqNo) {
        Locate(n);
        StampsBelow(hot[n].vals, hot[n].nums, hot[n].stamps, n, slots, occ, busy, idx);
      }
      occ, busy := occ[idx := seqNo], idx;
      assert Linked() && KeysOk() && BuffersOk() && BooksOk();
      forall k | 0 <= k < |cols| ensures ColumnOk(cols[k], owed[k]) {
        assert old(ColumnOk(cols[k], owed[k]));
        ShowsBusy(cols[k].vals, cols[k].nums, cols[k].stamps, cols[k].name, slots, occ0, idx, seqNo);
      }
    }

    /** The slot has been emptied. */
    ghost method RowIsEmpty()
      requires Valid() && 0 <= busy < cap && slots[busy].strs == map[]
      modifies this`busy
      ensures Valid() && busy == -1
    {
      hide ColShows, Plain, Balanced, KeysKnown, Interning.Interner.Valid, Blobs.BlobSlab.Valid, Column.Valid;
      ghost var busy0 := busy;
      busy := -1;
      assert Linked() && KeysOk() && BuffersOk() && BooksOk();
      forall k | 0 <= k < |cols| ensures ColumnOk(cols[k], owed[k]) {
        assert old(ColumnOk(cols[k], owed[k]));
        ShowsIdle(cols[k].vals, cols[k].nums, cols[k].stamps, cols[k].name, slots, occ, busy0);
      }
    }

    lemma ColumnsDiffer(name: string)
      requires Valid() && name in hot
      ensures hot[name].hash == hash && |hot[name].presence| == |hot[name].stamps| == cap
      ensures forall n :: n in hot && n != name ==> hot[n] != hot[name]
      ensures forall n :: n in hot ==> hot[n] in cols
    {
      Locate(name);
    }

    method EvictOne(name: string, idx: nat, ghost seqNo: nat, ghost todo: set<string>)
      requires Valid() && name in todo && todo <= hot.Keys && idx < cap && occ[idx] == seqNo && busy == idx
      requires AllAhead(todo, idx, seqNo)
      modifies this`slots, this`owed, hot[name], intern
      ensures Valid() && slots == old(slots)[idx := old(slots[idx]).Without(name)]
      ensures AllAhead(todo - {name}, idx, seqNo)
      ensures Trusting(idx, seqNo) && old(Exact()) ==> Exact()
    {
      hide Valid, ExactColumn, Ahead, Trusting;
      ColumnsDiffer(name);
      EvictColumn(name, idx, seqNo);
    }

    /** The row at idx leaves every column. */
    method EvictColumns(idx: nat, ghost seqNo: nat)
      requires Valid() && idx < cap && occ[idx] == seqNo && busy == idx
      requires AllAhead(hot.Keys, idx, seqNo)
      modifies this`slots, this`owed, cols, intern
      ensures Valid() && slots == old(slots)[idx := old(slots[idx]).(strs := map[], nums := map[])]
      ensures Trusting(idx, seqNo) && old(Exact()) ==> Exact()
    {
      hide Linked, KeysKnown, ColumnsOk, BuffersOk, BooksOk, ColumnOk, Exact, Trusting, AllAhead, Row.Dropped;
      Sized();
      ghost var row := slots[idx];
      row.DroppedOneMore({}, "");
      assert hot.Keys - hot.Keys == {};
      assert slots[idx := row] == slots;
      ghost var trusted := Trusting(idx, seqNo) && Exact();
      var todo := hot.Keys;
      while todo != {}
        invariant todo <= hot.Keys && Valid()
        invariant slots == old(slots)[idx := row.Dropped(hot.Keys - todo)]
        invariant AllAhead(todo, idx, seqNo)
        invariant trusted ==> Exact()
      {
        var n :| n in todo;
        ColumnsDiffer(n);
        row.DroppedOneMore(hot.Keys - todo, n);
        assert hot.Keys - (todo - {n}) == hot.Keys - todo + {n};
        EvictOne(n, idx, seqNo, todo);
        todo := todo - {n};
      }
      assert hot.Keys - todo == hot.Keys;
      KeysHere(old(slots), hot.Keys, idx);
      row.DroppedOneMore(hot.Keys, "");
    }

    method ReleasePair(kv: KV)
      requires Valid() && TextOf(kv) <= due.texts && BlobOf(kv) <= due.blobs
      modifies this`due, intern, blobs
      ensures Valid() && due == Due(old(due).texts - TextOf(kv), old(due).blobs - BlobOf(kv))
    {
      hide Valid, TextOf, BlobOf;
      PairDue(due, kv);
      ReleaseText(kv.keyID);
      if kv.isBlob {
        ReleaseBlob(kv.valID);
      } else {
        ReleaseText(kv.valID);
      }
    }

    /** The tail pairs and the ANSI entry of the row at idx go, with their references. */
    method EvictTail(idx: nat)
      requires Valid() && idx < cap && due == NOTHING
      modifies this`due, this`tailKV, this`ansi, this`slots, intern, blobs
      ensures Valid() && due == NOTHING
      ensures |ansi| == cap && ansi[idx] == 0
      ensures slots == old(slots)[idx := old(slots[idx]).(tail := [], ansi := "")]
    {
      hide Valid, TextRefs, BlobRefs, TextOf, BlobOf, One;
      Sized();
      var kvs := DetachTail(idx);
      var j := 0;
      assert kvs[0..] == kvs;
      DueSum(due.texts, due.blobs);
      while j < |kvs|
        invariant 0 <= j <= |kvs| && Valid()
        invariant due == Due(TextRefs(kvs[j..]), BlobRefs(kvs[j..]))
        invariant slots == old(slots)[idx := old(slots[idx]).(tail := [])]
      {
        DueLess(kvs, j);
        ReleasePair(kvs[j]);
        j := j + 1;
      }
      assert kvs[j..] == [];
      NoPairs();
      Sized();
      var id := ClearAnsi(idx);
      assert slots == old(slots)[idx := old(slots[idx]).(tail := [], ansi := "")];
      AnsiDue(id);
      ReleaseBlob(id);
      assert due == NOTHING;
    }

    /** The row at idx leaves the columns to make room for the row seqNo. */
    method VacateColumns(seqNo: nat, idx: nat)
      requires Valid() && idx < cap && busy == -1 && due == NOTHING && occ[idx] < seqNo
      modifies this`slots, this`owed, this`occ, this`busy, cols, intern
      ensures Valid() && busy == idx && occ == old(occ)[idx := seqNo]
      ensures slots == old(slots)[idx := old(slots[idx]).(strs := map[], nums := map[])]
      ensures Trusting(idx, seqNo) && old(Exact()) ==> Exact()
    {
      hide Valid, Trusting, Exact, AllAhead;
      Sized();
      BeginRow(idx, seqNo);
      EvictColumns(idx, seqNo);
    }

    /** Empties the slot idx for the row seqNo; every reference of the row that was there is returned. */
    method EvictRow(seqNo: nat, idx: nat)
      requires Valid() && idx < cap && busy == -1 && due == NOTHING && occ[idx] < seqNo
      modifies this`due, this`tailKV, this`ansi, this`slots, this`owed, this`occ, this`busy, this`sourceID,
          this`textMode
      modifies this`tail, cols, intern, blobs
      ensures Valid() && busy == -1 && due == NOTHING
      ensures |ansi| == cap && ansi[idx] == 0 && occ == old(occ)[idx := seqNo]
      ensures slots == old(slots)[idx := NO_ROW]
      ensures tail == if head > cap then head - cap else old(tail)
      ensures Trusting(idx, seqNo) && old(Exact()) ==> Exact()
    {
      hide Valid, Trusting, Exact, IsPow2;
      Sized();
      VacateColumns(seqNo, idx);
      ClearRest(idx);
      RowIsEmpty();
      if head > cap {
        tail := head - cap;
      }
    }

    /** What a row has beside its columns goes. */
    method ClearRest(idx: nat)
      requires Valid() && idx < cap && due == NOTHING && idx < |slots| && slots[idx].strs == map[] &&
          slots[idx].nums == map[]
      modifies this`due, this`tailKV, this`ansi, this`slots, this`sourceID, this`textMode, intern, blobs
      ensures Valid() && due == NOTHING && |ansi| == cap && ansi[idx] == 0
      ensures slots == old(slots)[idx := NO_ROW]
    {
      hide Valid;
      Sized();
      EvictTail(idx);
      Sized();
      SetPlain(idx, 0, false);
      assert slots == old(slots)[idx := NO_ROW];
    }

    /** One text goes to one column; from exact indexes this leads to exact indexes if and only if the
        column has no index or the row may take the text safely, and else only its number is stale. */
    method PutText(name: string, idx: nat, seqNo: nat, s: string)
      requires Valid() && name in hot && name != "ts" && idx < cap && occ[idx] == seqNo && busy == -1
      modifies this`slots, this`owed, hot[name], intern, intern.arena
      ensures Valid() && slots == old(slots)[idx := old(slots[idx]).WithStr(name, s)]
      ensures Trusting(idx, seqNo) && old(Exact()) ==>
                && ExactBesides(name) && ExactColumn(hot[name], StaleFor(name) + {seqNo})
                && (Exact() <==> hot[name].kind != Dict || SafeRow(old(slots), name, idx, s))
    {
      hide Valid, SafeRow, IndexExact, Injective, ColumnOk;
      ColumnsDiffer(name);
      Sized();
      StampedHere(name, idx);
      PutStr(name, idx, seqNo, s);
    }

    lemma StampedHere(name: string, idx: nat)
      requires Valid() && name in hot && idx < cap
      ensures |occ| == cap && |hot[name].stamps| == cap && hot[name].stamps[idx] <= occ[idx]
    {
      Locate(name);
      StampsBelow(hot[name].vals, hot[name].nums, hot[name].stamps, name, slots, occ, busy, idx);
    }

    /** Stores a cold field as a pair of ids: large and non-string values go to the slab. */
    method AppendTail(idx: nat, key: string, v: JsonVal)
      requires Valid() && idx < cap && due == NOTHING
      modifies this`due, this`texts, this`payloads, this`tailKV, this`slots, intern, intern.arena, blobs
      ensures Valid() && due == NOTHING
      ensures slots == old(slots)[idx := old(slots[idx]).(tail := old(slots[idx]).tail + [TailPair(key, v)])]
    {
      hide Valid, Means, TailPair, TextOf, BlobOf, Plus;
      Sized();
      ghost var p := TailPair(key, v);
      var keyID := InternText(key);
      NothingPlus(keyID);
      ghost var texts1 := texts;
      var valID, isBlob := TailValue(v, keyID, p);
      PairReady(KV(keyID, valID, isBlob), p, texts1, texts, payloads);
      AttachPair(idx, KV(keyID, valID, isBlob), p);
    }

    method TailValue(v: JsonVal, ghost keyID: nat, ghost p: Pair) returns (valID: nat, isBlob: bool)
      requires Valid() && due == Due(Plus(multiset{}, keyID), multiset{}) && p == TailPair(p.key, v)
      modifies this`due, this`texts, this`payloads, intern, intern.arena, blobs
      ensures Valid() && isBlob == p.isBlob && (valID == 0) == (p.val == "")
      ensures due == if isBlob then Due(Plus(multiset{}, keyID), Plus(multiset{}, valID))
                     else Due(Plus(Plus(multiset{}, keyID), valID), multiset{})
      ensures texts == if isBlob || valID == 0 then old(texts) else old(texts)[valID := p.val]
      ensures isBlob && valID != 0 ==> valID in payloads && payloads[valID] == p.val
      ensures !isBlob && valID != 0 && valID == keyID ==> keyID in old(texts) && old(texts)[keyID] == p.val
    {
      hide Valid;
      if |v.raw| >= LARGE {
        valID := PutBlob(v.raw);
        isBlob := true;
      } else if v.Quoted() {
        valID := InternText(v.Text());
        isBlob := false;
      } else {
        valID := PutBlob(v.raw);
        isBlob := true;
      }
    }

    /** The routing of fields, read off the columns and the counters. */
    ghost function Rt(): Routing
      reads `hot, `promoCnt, `rowsSeen
    {
      Routing(Kinds(hot.Keys), promoCnt, rowsSeen)
    }

    ghost predicate Working(idx: nat, seqNo: nat)
      reads `busy, `due, `hot, `occ
    {
      busy == -1 && due == NOTHING && HasWellKnown() && idx < cap && |occ| == cap && occ[idx] == seqNo
    }

    /** What the methods that write one row may assume and must keep. */
    ghost predicate Writing(idx: nat, seqNo: nat)
      reads `hot, `place, `cols, `owed, `slots, `occ, `busy, `sourceID, `textMode, `tailKV, `ansi, `due, `texts,
          `payloads
      reads cols, intern, intern.arena, blobs
    {
      Valid() && Working(idx, seqNo)
    }

    /** Routes one field of a JSON row. */
    method IngestField(idx: nat, seqNo: nat, key: string, v: JsonVal)
      requires Writing(idx, seqNo) && idx < |slots|
      modifies this`hot, this`place, this`cols, this`owed, this`slots, this`tailKV, this`due, this`texts, this`payloads
      modifies this`promoCnt, cols, intern, intern.arena, blobs
      ensures Writing(idx, seqNo) && |slots| == |old(slots)| && idx < |slots|
      ensures (slots[idx], Rt()) == Rows.IngestField(old(slots[idx]), old(Rt()), key, v)
      ensures slots == old(slots)[idx := slots[idx]]
      ensures old(hot.Keys) <= hot.Keys
      ensures forall c :: c in cols ==> c in old(cols) || fresh(c)
      ensures Trusting(idx, seqNo) && old(slots)[idx].Str(key) == "" && old(Exact()) ==> Exact()
    {
      hide Valid, ExactColumn, Trusting, TailPair, Kinds;
      Sized();
      WellPlaced();
      HotKeys(hot.Keys);
      if key == "ts" && v.num.Some? {
        PutNum(idx, v.num.value);
        return;
      }
      if key in hot {
        RouteToColumn(idx, seqNo, key, v);
        return;
      }
      IngestCold(idx, seqNo, key, v);
    }

    /** Counts a cold key and either makes it a hot column or keeps the field in the row's tail. */
    method IngestCold(idx: nat, seqNo: nat, key: string, v: JsonVal)
      requires Writing(idx, seqNo) && idx < |slots| && key !in hot
      modifies this`hot, this`place, this`cols, this`owed, this`slots, this`tailKV, this`due, this`texts, this`payloads
      modifies this`promoCnt, intern, intern.arena, blobs
      ensures Writing(idx, seqNo) && |slots| == |old(slots)| && idx < |slots|
      ensures (slots[idx], Rt()) == Rows.IngestField(old(slots[idx]), old(Rt()), key, v)
      ensures slots == old(slots)[idx := slots[idx]]
      ensures old(hot.Keys) <= hot.Keys
      ensures forall c :: c in cols ==> c in old(cols) || fresh(c)
      ensures Trusting(idx, seqNo) && old(slots)[idx].Str(key) == "" && old(Exact()) ==> Exact()
    {
      hide Writing, Exact, Rt, Trusting, TailPair, Row.WithStr, JsonVal.Text, Rows.IngestField;
      KnownRoutes(idx, seqNo, key);
      ColdField(slots[idx], Rt(), key, v);
      var cnt := CountKey(key);
      if rowsSeen >= 64 && cnt * 100 >= rowsSeen * 50 && cnt >= 32 {
        PromoteKey(idx, seqNo, key, v.Text());
      } else {
        KeepCold(idx, seqNo, key, v);
      }
    }

    lemma KnownRoutes(idx: nat, seqNo: nat, key: string)
      requires Writing(idx, seqNo)
      ensures key in Rt().hot <==> key in hot
      ensures key !in hot ==> key != "ts"
    {
      hide Valid;
      HotKeys(hot.Keys);
    }

    method CountKey(key: string) returns (cnt: nat)
      modifies this`promoCnt
      ensures Rt() == old(Rt()).Counted(key) && cnt == Rt().Count(key) && Rt().seen == rowsSeen
    {
      hide Kinds;
      promoCnt := if key in promoCnt then promoCnt[key := promoCnt[key] + 1]
                  else if |promoCnt| < COUNTED_KEYS then promoCnt[key := 1]
                  else promoCnt;
      cnt := if key in promoCnt then promoCnt[key] else 0;
    }

    /** The field stays in the row's tail. */
    method KeepCold(idx: nat, seqNo: nat, key: string, v: JsonVal)
      requires Writing(idx, seqNo) && idx < |slots|
      modifies this`due, this`texts, this`payloads, this`tailKV, this`slots, intern, intern.arena, blobs
      ensures Writing(idx, seqNo) &&
          slots == old(slots)[idx := old(slots[idx]).(tail := old(slots[idx]).tail + [TailPair(key, v)])]
    {
      hide Valid, TailPair;
      AppendTail(idx, key, v);
    }

    /** The key becomes hot with this row. */
    method PromoteKey(idx: nat, seqNo: nat, key: string, s: string)
      requires Writing(idx, seqNo) && idx < |slots| && key !in hot
      modifies this`hot, this`place, this`cols, this`owed, this`slots, intern, intern.arena
      ensures Writing(idx, seqNo) && |slots| == |old(slots)| && idx < |slots|
      ensures slots == old(slots)[idx := old(slots[idx]).WithStr(key, s)]
      ensures Rt() == old(Rt()).(hot := old(Rt()).hot[key := false])
      ensures old(hot.Keys) <= hot.Keys
      ensures forall c :: c in cols ==> c in old(cols) || fresh(c)
      ensures Trusting(idx, seqNo) && old(slots)[idx].Str(key) == "" && old(Exact()) ==> Exact()
    {
      hide Valid, ExactColumn, Exact, ExactBesides, Trusting, SafeRow, Kinds, Row.WithStr, Row.Str;
      Sized();
      KindsWith(hot.Keys, key);
      CreateColumn(key, Dict);
      if slots[idx].Str(key) == "" {
        NothingThere(slots, key, idx, s);
      }
      assert hot.Keys == old(hot.Keys) + {key};
      PutText(key, idx, seqNo, s);
    }

    method RouteToColumn(idx: nat, seqNo: nat, key: string, v: JsonVal)
      requires Writing(idx, seqNo) && idx < |slots| && key in hot && key in Rt().hot
      modifies this`slots, this`owed, hot[key], intern, intern.arena
      ensures Writing(idx, seqNo) && |slots| == |old(slots)| && idx < |slots|
      ensures slots[idx] == ToColumn(old(slots[idx]), Rt(), key, v)
      ensures slots == old(slots)[idx := slots[idx]]
      ensures Trusting(idx, seqNo) && old(slots)[idx].Str(key) == "" && old(Exact()) ==> Exact()
    {
      hide Valid, ExactColumn, Trusting, SafeRow, Kinds;
      HotKeys(hot.Keys);
      Sized();
      if key == "ts" {
        if v.num.Some? {
          PutNum(idx, v.num.value);
        }
      } else {
        if slots[idx].Str(key) == "" {
          NothingThere(slots, key, idx, v.Text());
        }
        PutText(key, idx, seqNo, v.Text());
      }
    }

    /** The fields of a JSON object, in the order the decoder yields them. */
    method IngestFields(idx: nat, seqNo: nat, fields: seq<(string, JsonVal)>)
      requires Writing(idx, seqNo) && idx < |slots| && DistinctKeys(fields)
      requires forall i :: 0 <= i < |fields| ==> slots[idx].Str(fields[i].0) == ""
      modifies this`hot, this`place, this`cols, this`owed, this`slots, this`tailKV, this`due, this`texts, this`payloads
      modifies this`promoCnt, cols, intern, intern.arena, blobs
      ensures Writing(idx, seqNo) && |slots| == |old(slots)| && idx < |slots|
      ensures (slots[idx], Rt()) == Rows.IngestFields(old(slots[idx]), old(Rt()), fields)
      ensures slots == old(slots)[idx := slots[idx]]
      ensures old(hot.Keys) <= hot.Keys
      ensures forall c :: c in cols ==> c in old(cols) || fresh(c)
      ensures Trusting(idx, seqNo) && old(Exact()) ==> Exact()
    {
      hide Writing, Rt, ExactColumn, Trusting, Rows.IngestField;
      ghost var target := Rows.IngestFields(slots[idx], Rt(), fields);
      var i := 0;
      assert fields[0..] == fields;
      while i < |fields|
        invariant 0 <= i <= |fields|
        invariant Writing(idx, seqNo) && |slots| == |old(slots)| && idx < |slots|
        invariant slots == old(slots)[idx := slots[idx]]
        invariant Rows.IngestFields(slots[idx], Rt(), fields[i..]) == target
        invariant forall j :: i <= j < |fields| ==> slots[idx].Str(fields[j].0) == ""
        invariant old(hot.Keys) <= hot.Keys
        invariant forall c :: c in cols ==> c in old(cols) || fresh(c)
        invariant Trusting(idx, seqNo) && old(Exact()) ==> Exact()
      {
        IngestFieldFrame(slots[idx], Rt(), fields[i].0, fields[i].1);
        assert fields[i..][1..] == fields[i + 1..];
        assert fresh((set c | c in cols) - old(set c | c in cols));
        IngestField(idx, seqNo, fields[i].0, fields[i].1);
        i := i + 1;
      }
    }

    lemma PlainAt(idx: nat)
      requires Valid() && idx < cap
      ensures |sourceID| == |textMode| == |slots| == cap
      ensures sourceID[idx] == slots[idx].source && textMode[idx] == slots[idx].text
    {
    }

    /** Stores the row of a text line. */
    method AppendText(seqNo: nat, idx: nat, line: string, ansiBytes: string, levelHint: string)
      requires Writing(idx, seqNo) && Blank(idx)
      modifies this`owed, this`slots, this`due, this`payloads, this`textMode, this`sourceID, this`ansi
      modifies cols, intern, intern.arena, blobs
      ensures Writing(idx, seqNo) && |slots| == |old(slots)| && idx < |slots|
      ensures slots == old(slots)[idx := TextRow(old(slots[idx]), line, ansiBytes, levelHint)]
      ensures Trusting(idx, seqNo) && old(Exact()) ==> Exact()
    {
      hide Valid, ExactColumn, Exact, ExactBesides, Trusting, SafeRow, Row.WithStr, Row.Str;
      Sized();
      WellPlaced();
      PlainAt(idx);
      ghost var row := slots[idx];
      BlankRow(row.(text := true, ansi := ansiBytes));
      SetPlain(idx, sourceID[idx], true);
      if |ansiBytes| > 0 {
        KeepAnsi(idx, ansiBytes);
      }
      assert slots[idx] == row.(text := true, ansi := ansiBytes);
      NothingThere(slots, "msg", idx, line);
      PutText("msg", idx, seqNo, line);
      if levelHint != "" {
        NothingThere(slots, "level", idx, levelHint);
        PutText("level", idx, seqNo, levelHint);
      }
    }

    method KeepAnsi(idx: nat, bytes: string)
      requires Valid() && due == NOTHING && idx < cap == |ansi| && ansi[idx] == 0 && bytes != ""
      modifies this`due, this`payloads, this`ansi, this`slots, blobs
      ensures Valid() && due == NOTHING
      ensures slots == old(slots)[idx := old(slots[idx]).(ansi := bytes)]
    {
      hide Valid;
      Sized();
      var id := PutBlob(bytes);
      SetAnsi(idx, id, bytes);
      assert multiset{} + multiset{id} - multiset{id} == multiset{};
    }

    /** Stores the row of a JSON object. From exact indexes this leads to exact indexes if and only if
        the level column has no index or can take the normalized level safely. */
    method AppendJson(seqNo: nat, idx: nat, fields: seq<(string, JsonVal)>, level: string)
      requires Writing(idx, seqNo) && idx < |slots| && DistinctKeys(fields)
      requires Blank(idx)
      modifies this`hot, this`place, this`cols, this`owed, this`slots, this`tailKV, this`due, this`texts, this`payloads
      modifies this`promoCnt, this`rowsSeen, cols, intern, intern.arena, blobs
      ensures Writing(idx, seqNo) && |slots| == |old(slots)| && idx < |slots|
      ensures slots == old(slots)[idx := slots[idx]]
      ensures var (row, rt) := Rows.IngestFields(old(slots[idx]), old(Rt()), fields);
              && slots[idx] == (if level == "" then row else row.WithStr("level", level))
              && Rt() == rt.(seen := rt.seen + 1)
      ensures forall c :: c in cols ==> c in old(cols) || fresh(c)
      ensures Trusting(idx, seqNo) && old(Exact()) ==>
                LevelVerdict(seqNo, LevelSafe(old(slots), idx, old(slots[idx]), old(Rt()), Json(fields, level)))
    {
      hide Writing, Exact, Trusting, LevelVerdict, SafeRow, Rows.IngestFields, Kinds, Row.WithStr, Row.Str;
      BlankRow(slots[idx]);
      IngestFields(idx, seqNo, fields);
      Unharmed(seqNo);
      ghost var rt := Rt();
      if level != "" {
        assert fresh((set c | c in cols) - old(set c | c in cols));
        PutLevel(idx, seqNo, level);
      }
      rowsSeen := rowsSeen + 1;
      assert Rt() == rt.(seen := rt.seen + 1);
    }

    method PutLevel(idx: nat, seqNo: nat, level: string)
      requires Writing(idx, seqNo) && idx < |slots|
      modifies this`owed, this`slots, cols, intern, intern.arena
      ensures Writing(idx, seqNo) && slots == old(slots)[idx := old(slots[idx]).WithStr("level", level)]
      ensures Trusting(idx, seqNo) && old(Exact()) ==>
                LevelVerdict(seqNo, SafeRow(old(slots), "level", idx, level))
    {
      hide Valid, ExactColumn, Trusting, SafeRow, Row.WithStr;
      Sized();
      WellPlaced();
      PutText("level", idx, seqNo, level);
    }

    /** The invariant between operations. */
    ghost predicate Inv()
      reads this, cols, hot.Values, intern, intern.arena, blobs
    {
      && Valid() && RingOk(slots, occ, log, head, tail) && busy == -1 && due == NOTHING
      && HasWellKnown() && IsPow2(cap) && (Injective(hash) && head <= U32 ==> Exact())
      && (forall x :: x in doubted ==> x < head)
    }

    /** A store without columns. */
    constructor (cap: nat, hash: string -> nat)
      requires cap > 0
      ensures Empty() && this.cap == cap && this.hash == hash
      ensures head == 0 && tail == 0 && busy == -1 && log == [] && promoCnt == map[] && rowsSeen == 0 && !closed &&
          doubted == {}
      ensures fresh(intern) && fresh(intern.arena) && fresh(blobs)
    {
      this.cap, this.hash := cap, hash;
      intern := new Interning.Interner(hash);
      blobs := new Blobs.BlobSlab(hash);
      head, tail, hot, promoCnt, rowsSeen, closed := 0, 0, map[], map[], 0, false;
      tailKV, sourceID, textMode, ansi := Repeat(cap, []), Repeat(cap, 0), Repeat(cap, false), Repeat(cap, 0);
      cols, place, owed := [], map[], [];
      slots, occ, busy := Repeat(cap, NO_ROW), Repeat(cap, -1), -1;
      texts, payloads, due, log, doubted := map[], map[], NOTHING, [], {};
      new;
      hide Interning.Interner.Valid, Blobs.BlobSlab.Valid;
    }

    /** An empty store with the well-known columns, its capacity rounded up to a power of two. */
    static method New(wanted: nat, hash: string -> nat) returns (s: Store)
      requires wanted <= WORD / 2
      ensures s.Inv() && s.log == [] && !s.closed && s.doubted == {} && s.hash == hash
      ensures LeastPow2(s.cap, if wanted == 0 then DEFAULT_CAP else wanted)
      ensures s.Rt() == Routing(Kinds(set n | n in WELL_KNOWN), map[], 0)
      ensures fresh(s) && fresh(s.cols) && fresh(s.intern) && fresh(s.intern.arena) && fresh(s.blobs)
    {
      hide Store.Valid, RingOk, Store.HasWellKnown, Store.Exact, Kinds, Store.Empty, Pow2;
      var n := NextPow2(if wanted == 0 then DEFAULT_CAP else wanted);
      s := new Store(n, hash);
      s.EmptyIsValid();
      s.CreateWellKnown();
    }

    /** No column, no row, no reference. */
    ghost predicate Empty()
      reads this, intern, intern.arena, blobs
    {
      && cap > 0 && intern.Valid() && blobs.Valid() && intern.contents == blobs.contents == EMPTY
      && hot == map[] && place == map[] && cols == [] && owed == []
      && texts == map[] && payloads == map[] && due == NOTHING
      && tailKV == Repeat(cap, []) && sourceID == Repeat<nat>(cap, 0) && textMode == Repeat(cap, false)
      && ansi == Repeat<nat>(cap, 0)
      && slots == Repeat(cap, NO_ROW) && occ == Repeat(cap, -1)
    }

    lemma EmptyIsValid()
      requires Empty()
      ensures Valid() && RingOk(slots, occ, [], 0, 0) && hot == map[] && cols == [] && due == NOTHING
    {
      hide Balanced, Plain, RingOk, KeysKnown, Interning.Interner.Valid, Blobs.BlobSlab.Valid;
      NothingStored(cap);
      assert hot.Keys == {};
    }

    method CreateWellKnown()
      requires Valid() && hot == map[] && cols == []
      modifies this`hot, this`cols, this`place, this`owed
      ensures Valid() && hot.Keys == (set n | n in WELL_KNOWN) && HasWellKnown() && Exact() && fresh(cols)
    {
      hide Valid, ExactColumn;
      var i := 0;
      while i < |WELL_KNOWN|
        invariant 0 <= i <= |WELL_KNOWN| && Valid() && Exact() && fresh(cols)
        invariant forall k :: k in hot <==> k in WELL_KNOWN[..i]
      {
        var name := WELL_KNOWN[i];
        WellKnownOnce(i);
        CreateColumn(name, if name == "ts" then F64 else Dict);
        i := i + 1;
      }
      assert WELL_KNOWN[0] == "ts" && WELL_KNOWN[1] == "level" && WELL_KNOWN[5] == "msg";
    }

    /** The level column has an index. */
    ghost predicate LevelIndexed()
      reads `hot, hot.Values
    {
      "level" in hot && hot["level"].kind == Dict
    }

    /** The row at idx has nothing but its source and timestamp yet. */
    ghost predicate Blank(idx: nat)
      reads `slots, `ansi
    {
      && idx < |slots| == |ansi| && ansi[idx] == 0
      && slots[idx].strs == map[] && !slots[idx].text && slots[idx].ansi == ""
    }

    method AppendPayload(seqNo: nat, idx: nat, payload: Payload)
      requires Writing(idx, seqNo) && idx < |slots|
      requires payload.Json? ==> DistinctKeys(payload.fields)
      requires Blank(idx)
      modifies this`hot, this`place, this`cols, this`owed, this`slots, this`tailKV, this`due, this`texts, this`payloads
      modifies this`promoCnt, this`rowsSeen, this`textMode, this`sourceID, this`ansi, cols, intern, intern.arena, blobs
      ensures Writing(idx, seqNo) && |slots| == |old(slots)| && idx < |slots|
      ensures slots == old(slots)[idx := slots[idx]]
      ensures (slots[idx], Rt()) == Filled(old(slots[idx]), old(Rt()), payload)
      ensures forall c :: c in cols ==> c in old(cols) || fresh(c)
      ensures Trusting(idx, seqNo) && old(Exact()) ==>
                LevelVerdict(seqNo, LevelSafe(old(slots), idx, old(slots[idx]), old(Rt()), payload))
    {
      hide Writing, Exact, Trusting, LevelVerdict, SafeRow, Rows.IngestFields, Row.WithStr, Row.Str, TextRow;
      match payload {
        case Json(fields, level) =>
          AppendJson(seqNo, idx, fields, level);
        case Text(line, ansiBytes, levelHint) =>
          AppendText(seqNo, idx, line, ansiBytes, levelHint);
          Unharmed(seqNo);
        case BadJson(raw) =>
          AppendText(seqNo, idx, raw, "", "");
          Unharmed(seqNo);
      }
    }

    /** Replaces the row at idx by a row with only its source and timestamp. */
    method StartRow(seqNo: nat, idx: nat, inp: Input, now: real)
      requires Valid() && busy == -1 && due == NOTHING && idx < cap == |occ| && occ[idx] < seqNo && HasWellKnown()
      modifies this`due, this`tailKV, this`ansi, this`slots, this`owed, this`occ, this`busy, this`sourceID,
          this`textMode
      modifies this`tail, cols, intern, blobs
      ensures Writing(idx, seqNo) && occ == old(occ)[idx := seqNo]
      ensures idx < |old(slots)| && slots == old(slots)[idx := NewRow(inp, now)] && Blank(idx)
      ensures tail == if head > cap then head - cap else old(tail)
      ensures Trusting(idx, seqNo) && old(Exact()) ==> Exact()
    {
      hide Valid, Exact, Trusting;
      Sized();
      EvictRow(seqNo, idx);
      OpenRow(seqNo, idx, inp, now);
      Sized();
      assert slots == old(slots)[idx := NewRow(inp, now)];
    }

    /** Replaces the row at idx by the row that the input stands for. */
    method WriteRow(seqNo: nat, idx: nat, inp: Input, now: real)
      requires Valid() && busy == -1 && due == NOTHING && idx < cap == |occ| && occ[idx] < seqNo
      requires HasWellKnown()
      requires inp.payload.Json? ==> DistinctKeys(inp.payload.fields)
      modifies this`hot, this`place, this`cols, this`owed, this`slots, this`tailKV, this`due, this`texts, this`payloads
      modifies this`promoCnt, this`rowsSeen, this`textMode, this`sourceID, this`ansi, this`occ, this`busy, this`tail
      modifies cols, intern, intern.arena, blobs
      ensures Writing(idx, seqNo) && |slots| == |old(slots)| && idx < |slots|
      ensures slots == old(slots)[idx := slots[idx]] && occ == old(occ)[idx := seqNo]
      ensures (slots[idx], Rt()) == AppendedRow(old(Rt()), inp, now)
      ensures tail == if head > cap then head - cap else old(tail)
      ensures forall c :: c in cols ==> c in old(cols) || fresh(c)
      ensures Trusting(idx, seqNo) && old(Exact()) ==>
                LevelVerdict(seqNo, LevelSafe(old(slots), idx, NewRow(inp, now), old(Rt()), inp.payload))
    {
      hide Writing, Valid, Exact, SafeRow, LevelSafe, Filled, Trusting, Rt, NewRow, Blank, LevelVerdict, HasWellKnown;
      StartRow(seqNo, idx, inp, now);
      assert fresh((set c | c in cols) - old(set c | c in cols));
      AppendPayload(seqNo, idx, inp.payload);
      LevelSafeBeside(old(slots), idx, NewRow(inp, now), NewRow(inp, now), old(Rt()), inp.payload);
    }

    /** Replaces the row at idx, and doubts its level if that made the index wrong. */
    method WriteAndDoubt(seqNo: nat, idx: nat, inp: Input, now: real)
      requires Valid() && busy == -1 && due == NOTHING && idx < cap == |occ| && occ[idx] < seqNo
      requires HasWellKnown() && |slots| == cap
      requires inp.payload.Json? ==> DistinctKeys(inp.payload.fields)
      modifies this`hot, this`place, this`cols, this`owed, this`slots, this`tailKV, this`due, this`texts, this`payloads
      modifies this`promoCnt, this`rowsSeen, this`textMode, this`sourceID, this`ansi, this`occ, this`busy, this`tail
      modifies this`doubted, cols, intern, intern.arena, blobs
      ensures Writing(idx, seqNo) && |slots| == |old(slots)| && idx < |slots|
      ensures slots == old(slots)[idx := slots[idx]] && occ == old(occ)[idx := seqNo]
      ensures (slots[idx], Rt()) == AppendedRow(old(Rt()), inp, now)
      ensures tail == if head > cap then head - cap else old(tail)
      ensures forall c :: c in cols ==> c in old(cols) || fresh(c)
      ensures old(Trusting(idx, seqNo)) && old(Exact()) ==> Exact()
      ensures doubted == if LevelIndexed() && !LevelSafe(old(slots), idx, NewRow(inp, now), old(Rt()), inp.payload)
                         then old(doubted) + {seqNo} else old(doubted)
      ensures doubted != old(doubted) && old(Trusting(idx, seqNo)) && old(Exact()) ==>
                !ExactColumn(hot["level"], old(doubted))
    {
      hide Writing, Valid, Exact, ExactColumn, LevelVerdict, LevelSafe, Rows.AppendedRow, Rt, NewRow, HasWellKnown,
          Trusting;
      ghost var safe := LevelSafe(slots, idx, NewRow(inp, now), Rt(), inp.payload);
      WriteRow(seqNo, idx, inp, now);
      Doubt(seqNo, safe);
    }

    /** Ingests one row of an open store. */
    method Push(inp: Input, now: real) returns (seqNo: nat)
      requires Inv() && (inp.payload.Json? ==> DistinctKeys(inp.payload.fields))
      modifies this, cols, intern, intern.arena, blobs
      ensures Inv() && closed == old(closed)
      ensures seqNo == old(head) && head == old(head) + 1
      ensures log == old(log) + [AppendedRow(old(Rt()), inp, now).0] && Rt() == AppendedRow(old(Rt()), inp, now).1
      ensures forall c :: c in cols ==> c in old(cols) || fresh(c)
      ensures 0 < |old(slots)| == cap
      ensures doubted == if LevelIndexed() && !LevelSafe(old(slots), seqNo % cap, NewRow(inp, now), old(Rt()),
          inp.payload)
                         then old(doubted) + {seqNo} else old(doubted)
      ensures seqNo in doubted && Injective(hash) && head <= U32 ==> !ExactColumn(hot["level"], old(doubted))
    {
      hide Valid, Exact, ExactColumn, LevelSafe, Rows.AppendedRow, RingOk, IsPow2, Rt, NewRow, HasWellKnown, Injective;
      Sized();
      seqNo := head;
      var idx := RingIndex(seqNo);
      RingStep(slots, occ, log, head, tail, AppendedRow(Rt(), inp, now).0);
      head := head + 1;
      WriteAndDoubt(seqNo, idx, inp, now);
      Record(idx);
    }

    /** The row that has been written becomes part of the log. */
    ghost method Record(idx: nat)
      requires Valid() && idx < |slots| && RingOk(slots, occ, log + [slots[idx]], head, tail) && busy == -1 &&
          due == NOTHING
      requires HasWellKnown() && IsPow2(cap) && (Injective(hash) && head <= U32 ==> Exact())
      requires forall x :: x in doubted ==> x < head
      modifies this`log
      ensures Inv() && log == old(log) + [slots[idx]]
    {
      hide Valid, Exact, RingOk, IsPow2, HasWellKnown, Injective;
      log := log + [slots[idx]];
    }

    /** Ingests one row: the log grows by exactly the row that the input stands for, the oldest row
        leaves when the ring is full, every reference stays accounted for, and the indexes stay exact
        unless normalizing a level overwrites one that other rows show. A closed store takes nothing. */
    method Append(inp: Input, now: real) returns (seqNo: nat)
      requires Inv() && (inp.payload.Json? ==> DistinctKeys(inp.payload.fields))
      modifies this, cols, intern, intern.arena, blobs
      ensures Inv() && closed == old(closed)
      ensures old(closed) ==> seqNo == 0 && log == old(log) && Rt() == old(Rt()) && doubted == old(doubted)
      ensures !old(closed) ==> seqNo == old(head) && head == old(head) + 1
      ensures !old(closed) ==>
          log == old(log) + [AppendedRow(old(Rt()), inp, now).0] &&
          Rt() == AppendedRow(old(Rt()), inp, now).1
      ensures forall c :: c in cols ==> c in old(cols) || fresh(c)
      ensures !old(closed) ==>
                0 < |old(slots)| == cap &&
                doubted == if LevelIndexed() && !LevelSafe(old(slots), seqNo % cap, NewRow(inp, now), old(Rt()),
                    inp.payload)
                           then old(doubted) + {seqNo} else old(doubted)
      ensures !old(closed) && seqNo in doubted && Injective(hash) && head <= U32 ==>
          !ExactColumn(hot["level"], old(doubted))
    {
      hide Inv, LevelSafe, Rt, ExactColumn, Rows.AppendedRow, NewRow, Injective;
      if closed {
        seqNo := 0;
      } else {
        seqNo := Push(inp, now);
      }
    }

    /** A number under which the index has just become wrong is doubted from now on. */
    ghost method Doubt(seqNo: nat, safe: bool)
      modifies this`doubted
      ensures doubted == if LevelIndexed() && !safe then old(doubted) + {seqNo} else old(doubted)
      ensures old(LevelVerdict(seqNo, safe)) ==> Exact()
      ensures old(LevelVerdict(seqNo, safe)) && LevelIndexed() && !safe ==> !ExactColumn(hot["level"], old(doubted))
    {
      hide ExactColumn;
      if LevelIndexed() && !safe {
        doubted := doubted + {seqNo};
      }
    }

    /** seq & mask, for a capacity that is a power of two. */
    method RingIndex(seqNo: nat) returns (idx: nat)
      requires IsPow2(cap)
      ensures cap > 0 && idx == seqNo % cap && idx < cap
    {
      idx := And(seqNo, cap - 1);
      var k: nat :| cap == Pow2(k);
      AndMask(seqNo, k);
    }

    /** The source id and the timestamp of a row whose slot has been emptied. */
    method OpenRow(seqNo: nat, idx: nat, inp: Input, now: real)
      requires Writing(idx, seqNo) && idx < |slots| && slots[idx] == NO_ROW
      modifies this`slots, this`sourceID, this`textMode, cols
      ensures Writing(idx, seqNo) && slots == old(slots)[idx := NewRow(inp, now)]
      ensures old(Exact()) ==> Exact()
    {
      hide Valid, ExactColumn;
      Sized();
      WellPlaced();
      SetPlain(idx, inp.source, false);
      PutNum(idx, if inp.ts == 0.0 then now else inp.ts);
      assert NO_ROW.nums["ts" := if inp.ts == 0.0 then now else inp.ts] == map["ts" := if inp.ts == 0.0 then now
          else inp.ts];
    }

    /** The rows of a range that a filter keeps, found by asking every row. */
    method QueryRange(filter: Filter, lo: nat, hi: nat, limit: int) returns (found: seq<nat>)
      ensures found == Answer(Admits(filter), lo, hi, head, tail, limit)
    {
      var to := if hi == 0 then head else hi;
      var from := if lo < tail then tail else lo;
      found := Queries.Scan(filter, from, to, limit);
    }

    /** The same with candidates from an index; without candidates every row is asked. */
    method QueryRangeBitmap(candidates: Option<set<nat>>, residual: Filter, lo: nat, hi: nat, limit: int)
      returns (found: seq<nat>)
      ensures found == Answer(if candidates.Some? then Both(candidates.value, residual) else Admits(residual),
                              lo, hi, head, tail, limit)
    {
      var to := if hi == 0 then head else hi;
      var from := if lo < tail then tail else lo;
      if from >= to {
        return [];
      }
      if candidates.None? {
        found := Queries.Scan(residual, from, to, limit);
      } else {
        found := Queries.Walk(candidates.value, residual, from, to, limit);
      }
    }

    method Close()
      requires Inv()
      modifies this`closed
      ensures Inv() && closed && log == old(log)
    {
      hide Valid, RingOk, IsPow2, HasWellKnown;
      closed := true;
    }

    predicate Live(seqNo: nat)
      reads `head, `tail
    {
      tail <= seqNo < head
    }

    /** The slot of a live row holds that row, in every buffer and column. */
    lemma LiveRow(seqNo: nat)
      requires Inv() && Live(seqNo)
      ensures tail == (if head > cap then head - cap else 0) && |log| == head &&
          0 < cap == |slots| == |occ| == |sourceID|
      ensures occ[seqNo % cap] == seqNo && slots[seqNo % cap] == log[seqNo]
      ensures sourceID[seqNo % cap] == log[seqNo].source
    {
      Sized();
      PlainAt(seqNo % cap);
    }

    lemma ColumnAt(name: string, idx: nat)
      requires Valid() && name in hot && idx < cap
      ensures hot[name].Ready(intern) && |hot[name].presence| == |hot[name].vals| == |hot[name].nums| == |slots| == cap
      ensures hot[name].vals[idx] == slots[idx].Str(name) && hot[name].nums[idx] == slots[idx].Num(name)
      ensures hot[name].kind == F64 <==> name == "ts"
    {
      Locate(name);
    }

    lemma NoColumn(name: string, idx: nat)
      requires Valid() && name !in hot && idx < |slots|
      ensures slots[idx].Str(name) == "" && slots[idx].Num(name) == None
    {
      KeysHere(slots, hot.Keys, idx);
    }

    /** The source of a row; 0 once the row is gone. */
    method SourceIDOfSeq(seqNo: nat) returns (id: nat)
      requires Inv()
      ensures |log| == head && id == if Live(seqNo) then log[seqNo].source else 0
    {
      hide Valid;
      if seqNo < tail || seqNo >= head {
        return 0;
      }
      LiveRow(seqNo);
      var idx := RingIndex(seqNo);
      id := sourceID[idx];
    }

    /** The text that the row shows in a column, "" for rows that are gone. */
    method HotString(seqNo: nat, name: string) returns (s: string)
      requires Inv()
      ensures |log| == head && s == if Live(seqNo) && name != "ts" then log[seqNo].Str(name) else ""
    {
      hide Valid, RingOk, IsPow2, Column.Ready;
      LogSize();
      if seqNo < tail || seqNo >= head {
        return "";
      }
      LiveRow(seqNo);
      if name !in hot {
        NoColumn(name, seqNo % cap);
        return "";
      }
      ColumnAt(name, seqNo % cap);
      if hot[name].kind == F64 {
        return "";
      }
      var idx := RingIndex(seqNo);
      s := hot[name].GetString(idx, intern);
    }

    lemma LogSize()
      requires Inv()
      ensures |log| == head
    {
    }

    lemma TailBelowHead()
      requires Inv()
      ensures tail <= head
    {
    }

    /** The number that the row shows in a column, if any. */
    method HotF64(seqNo: nat, name: string) returns (v: real, ok: bool)
      requires Inv()
      ensures |log| == head
      ensures Live(seqNo) && name == "ts" ==> log[seqNo].Num("ts") == if ok then Some(v) else None
      ensures !Live(seqNo) || name != "ts" ==> !ok
    {
      hide Valid, RingOk, IsPow2, Column.Ready;
      LogSize();
      if seqNo < tail || seqNo >= head {
        return 0.0, false;
      }
      LiveRow(seqNo);
      if name !in hot {
        return 0.0, false;
      }
      ColumnAt(name, seqNo % cap);
      if hot[name].kind != F64 {
        return 0.0, false;
      }
      var idx := RingIndex(seqNo);
      v, ok := NumberAt(name, idx);
    }

    method NumberAt(name: string, idx: nat) returns (v: real, ok: bool)
      requires Valid() && name in hot && idx < cap && hot[name].kind == F64
      ensures idx < |slots| && slots[idx].Num(name) == if ok then Some(v) else None
    {
      hide Valid;
      ColumnAt(name, idx);
      v, ok := hot[name].GetF64(idx);
    }

    method TextAt(name: string, idx: nat) returns (s: string)
      requires Valid() && name in hot && idx < cap
      ensures idx < |slots| && s == slots[idx].Str(name)
    {
      hide Valid, Column.Ready;
      ColumnAt(name, idx);
      s := hot[name].GetString(idx, intern);
    }

    /** The wire form of a row: exactly what the log says of it, and nothing once the row is gone. */
    method Materialize(seqNo: nat) returns (view: Option<View>)
      requires Inv()
      ensures |log| == head && view == if Live(seqNo) then Some(ViewOf(seqNo, log[seqNo])) else None
    {
      hide Valid, RingOk, IsPow2;
      LogSize();
      if seqNo < tail || seqNo >= head {
        return None;
      }
      LiveRow(seqNo);
      var idx := RingIndex(seqNo);
      var row := RowView(seqNo, idx);
      return Some(row);
    }

    method RowView(seqNo: nat, idx: nat) returns (view: View)
      requires Valid() && HasWellKnown() && idx < cap
      ensures idx < |slots| && view == ViewOf(seqNo, slots[idx])
    {
      hide Valid, HotFields, WithTail, Column.Ready;
      Sized();
      PlainAt(idx);
      var ts := TimeAt(idx);
      var level := TextAt("level", idx);
      var service := TextIfHot("service", idx);
      var msg := TextAt("msg", idx);
      var bytes := AnsiAt(idx);
      var fields := HotPart(idx);
      fields := TailPart(idx, fields);
      view := View(seqNo, ts, sourceID[idx], level, service, msg, fields, bytes, textMode[idx]);
    }

    method TimeAt(idx: nat) returns (ts: real)
      requires Valid() && "ts" in hot && idx < cap
      ensures idx < |slots| && ts == slots[idx].Num("ts").UnwrapOr(0.0)
    {
      hide Valid, Column.Ready;
      ColumnAt("ts", idx);
      var v, ok := NumberAt("ts", idx);
      ts := if ok then v else 0.0;
    }

    method TextIfHot(name: string, idx: nat) returns (s: string)
      requires Valid() && idx < cap
      ensures idx < |slots| && s == slots[idx].Str(name)
    {
      hide Valid;
      Sized();
      s := "";
      if name in hot {
        s := TextAt(name, idx);
      } else {
        NoColumn(name, idx);
      }
    }

    method AnsiAt(idx: nat) returns (bytes: string)
      requires Valid() && idx < cap
      ensures idx < |slots| && bytes == if slots[idx].text then slots[idx].ansi else ""
    {
      hide Contents.WellFormed, AllBlobs, AllText, Sum, Linked, ColumnsOk, KeysOk, Interning.Interner.Valid;
      Sized();
      PlainAt(idx);
      bytes := "";
      if textMode[idx] && ansi[idx] != 0 {
        AnsiHeld(tailKV, ansi, idx);
        bytes := blobs.Get(ansi[idx]);
      }
    }

    /** The fields that come from columns. */
    method HotPart(idx: nat) returns (fields: map<string, FieldVal>)
      requires Valid() && idx < cap
      ensures idx < |slots| && fields == HotFields(slots[idx], slots[idx].strs.Keys)
    {
      hide Valid, HotFields, Column.Ready;
      Sized();
      fields := map[];
      var todo := hot.Keys;
      HotFieldsGrow(slots[idx], {}, "");
      assert hot.Keys - todo == {};
      while todo != {}
        invariant todo <= hot.Keys
        invariant fields == HotFields(slots[idx], hot.Keys - todo)
      {
        var name :| name in todo;
        HotFieldsGrow(slots[idx], hot.Keys - todo, name);
        assert hot.Keys - (todo - {name}) == hot.Keys - todo + {name};
        ColumnAt(name, idx);
        if name !in OWN {
          if hot[name].kind != F64 {
            var v := TextAt(name, idx);
            if v != "" {
              fields := fields[name := Quoted(v)];
            }
          }
        }
        todo := todo - {name};
      }
      assert hot.Keys - todo == hot.Keys;
      KeysHereNow(idx);
    }

    lemma KeysHereNow(idx: nat)
      requires Valid() && idx < cap
      ensures idx < |slots| && HotFields(slots[idx], hot.Keys) == HotFields(slots[idx], slots[idx].strs.Keys)
    {
      hide Valid, HotFields;
      Sized();
      KnownKeys(idx);
      HotFieldsWithin(slots[idx], hot.Keys);
    }

    lemma KnownKeys(idx: nat)
      requires Valid() && idx < |slots|
      ensures slots[idx].strs.Keys <= hot.Keys
    {
      KeysHere(slots, hot.Keys, idx);
    }

    /** The fields that come from the tail; later pairs win. */
    method TailPart(idx: nat, before: map<string, FieldVal>) returns (fields: map<string, FieldVal>)
      requires Valid() && idx < cap
      ensures idx < |slots| && fields == WithTail(before, slots[idx].tail)
    {
      hide Valid;
      Sized();
      TailSized(idx);
      fields := before;
      var j := 0;
      ghost var tail := slots[idx].tail;
      while j < |tailKV[idx]|
        invariant 0 <= j <= |tail|
        invariant fields == WithTail(before, tail[..j])
      {
        assert tail[..j + 1][..j] == tail[..j];
        fields := PairShown(idx, j, fields);
        j := j + 1;
      }
      assert tail[..j] == tail;
    }

    lemma TailSized(idx: nat)
      requires Valid() && idx < cap
      ensures idx < |slots| == |tailKV| && |tailKV[idx]| == |slots[idx].tail|
    {
    }

    /** What the ids of a pair stand for in the interner and the slab. */
    lemma PairTexts(idx: nat, j: nat)
      requires Valid() && idx < |slots| == |tailKV| && j < |tailKV[idx]| == |slots[idx].tail|
      ensures var kv, p := tailKV[idx][j], slots[idx].tail[j];
              && intern.Valid() && blobs.Valid() && kv.isBlob == p.isBlob
              && intern.contents.Lookup(kv.keyID) == p.key
              && (if kv.isBlob then blobs.contents.Lookup(kv.valID) else intern.contents.Lookup(kv.valID)) == p.val
    {
      hide Contents.WellFormed, AllBlobs, AllText, Sum, Linked, ColumnsOk, KeysOk, Interning.Interner.Valid,
          Blobs.BlobSlab.Valid;
      hide AnsiMeans;
      var kv, p := tailKV[idx][j], slots[idx].tail[j];
      HeldByTail(tailKV, idx, j);
      assert TailMeans(tailKV[idx], slots[idx].tail, texts, payloads);
      NoZeroIds();
      assert Means(kv, p, texts, payloads);
      assert kv.keyID != 0 ==> kv.keyID in AllText(tailKV) + due.texts;
      assert kv.valID != 0 && !kv.isBlob ==> kv.valID in AllText(tailKV) + due.texts;
      BlobIsHeld(tailKV, ansi, due.blobs, kv.valID);
    }

    method PairShown(idx: nat, j: nat, before: map<string, FieldVal>) returns (fields: map<string, FieldVal>)
      requires Valid() && idx < cap && idx < |slots| == |tailKV| && j < |tailKV[idx]| == |slots[idx].tail|
      ensures fields == WithPair(before, slots[idx].tail[j])
    {
      hide Valid, Interning.Interner.Valid, Blobs.BlobSlab.Valid, Contents.Lookup;
      PairTexts(idx, j);
      var kv := tailKV[idx][j];
      var key := intern.Get(kv.keyID);
      if key == "" {
        return before;
      }
      if kv.isBlob {
        var bytes := blobs.Get(kv.valID);
        return before[key := RawJson(bytes)];
      } else {
        var text := intern.Get(kv.valID);
        return before[key := Quoted(text)];
      }
    }

    lemma NoZeroIds()
      requires intern.Valid() && blobs.Valid()
      ensures 0 !in intern.contents.strs && 0 !in blobs.contents.strs
    {
    }

    /** Conservation: each count in the interner is the number of references that the columns, the
        tail keys and the non-blob tail values hold, each count in the slab the number that blob
        values and ANSI entries hold, and an id is live exactly while somebody holds it. */
    lemma EveryReferenceCounted(id: nat)
      requires Inv()
      ensures |owed| == |cols| && forall j :: 0 <= j < |cols| ==> owed[j] == HeldBy(cols[j].St())
      ensures 0 < id < |intern.slots| ==>
                && intern.slots[id].refs == Sum(owed)[id] + AllText(tailKV)[id]
                && (intern.slots[id].live <==> intern.slots[id].refs > 0)
      ensures 0 < id < |blobs.slots| ==>
                && blobs.slots[id].refs == AllBlobs(tailKV, ansi)[id]
                && (blobs.slots[id].live <==> blobs.slots[id].refs > 0)
      ensures id == 0 || id >= |intern.slots| ==> Sum(owed)[id] + AllText(tailKV)[id] == 0
      ensures id == 0 || id >= |blobs.slots| ==> AllBlobs(tailKV, ansi)[id] == 0
    {
      hide Interning.Interner.Valid, Blobs.BlobSlab.Valid, Sum, AllText, AllBlobs, Linked, KeysKnown, Plain, RingOk,
          IsPow2;
      intern.CountsAreReferences(id);
      blobs.CountsAreReferences(id);
      BooksExact();
      forall j | 0 <= j < |cols| ensures owed[j] == HeldBy(cols[j].St()) {
        assert ColumnOk(cols[j], owed[j]);
        HeldIs(cols[j].St(), hash);
      }
    }

    lemma BooksExact()
      requires Valid() && due == NOTHING
      ensures intern.contents.refs == Sum(owed) + AllText(tailKV)
      ensures blobs.contents.refs == AllBlobs(tailKV, ansi)
    {
      hide Sum, AllText, AllBlobs, Agrees, Linked, ColumnsOk, BuffersOk, KeysOk, Interning.Interner.Valid,
          Blobs.BlobSlab.Valid;
      assert AllText(tailKV) + due.texts == AllText(tailKV);
      assert AllBlobs(tailKV, ansi) + due.blobs == AllBlobs(tailKV, ansi);
    }

    /** What an index lookup says about the log: nothing is missed, and off the doubted levels the answer
        names exactly the live rows that show the text. A doubt ends when its row leaves the ring. */
    lemma IndexMatchesLog(name: string, s: string, seqNo: nat)
      requires Inv() && Injective(hash) && head <= U32 && Live(seqNo)
      requires name in hot && hot[name].kind == Dict && s != ""
      ensures |log| == head
      ensures log[seqNo].Str(name) == s ==>
                hot[name].St().BitmapOf(hash, s).Some? && seqNo in hot[name].St().BitmapOf(hash, s).value
      ensures seqNo !in StaleFor(name) && hot[name].St().BitmapOf(hash, s).Some? ==>
                (seqNo in hot[name].St().BitmapOf(hash, s).value <==> log[seqNo].Str(name) == s)
    {
      hide Valid, RingOk, IsPow2, IndexExact, State.Ok, Column.Valid, Injective, HasWellKnown, State.BitmapOf;
      LogSize();
      LiveRow(seqNo);
      ColumnAt(name, seqNo % cap);
      StampAt(name, seqNo % cap);
      ColumnTrusted(name);
      BitmapAt(hot[name].St(), hash, s, StaleFor(name), seqNo);
    }

    /** In a ring that is not larger than a dictionary may grow, every text column keeps its index. */
    lemma SmallRingsStayIndexed(name: string)
      requires Inv() && name in hot && name != "ts" && cap <= MAX_DICT
      ensures hot[name].kind == Dict
    {
      hide RingOk, IsPow2, Injective, HasWellKnown, Column.Ready;
      Locate(name);
    }

    /** No index has a number that has not been given to a row yet. */
    lemma NothingAhead(name: string, s: string, x: nat)
      requires Inv() && Injective(hash) && head <= U32 && x >= head
      requires name in hot && hot[name].kind == Dict && s != ""
      ensures hot[name].St().BitmapOf(hash, s).Some? ==> x !in hot[name].St().BitmapOf(hash, s).value
    {
      hide Valid, RingOk, IsPow2, IndexExact, State.Ok, Column.Valid, Injective, HasWellKnown, State.BitmapOf;
      Sized();
      StampAt(name, x % cap);
      AllWritten(x % cap);
      ColumnTrusted(name);
      BitmapMeaning(hot[name].St(), hash, s, StaleFor(name));
    }

    lemma AllWritten(i: nat)
      requires Inv() && i < |occ|
      ensures occ[i] < head
    {
      hide Valid;
    }

    lemma ColumnTrusted(name: string)
      requires Inv() && Injective(hash) && head <= U32 && name in hot && hot[name].kind == Dict
      ensures hot[name].St().Ok(hash) && IndexExact(hot[name].St(), StaleFor(name))
    {
      hide RingOk, IsPow2, IndexExact, State.Ok, Injective;
      Locate(name);
    }

    /** A doubted level is really listed wrongly once it has been appended: under a text that it does not show. */
    lemma DoubtIsReal(seqNo: nat, others: set<nat>)
      requires Inv() && Injective(hash) && head <= U32 && Live(seqNo) && LevelIndexed()
      requires doubted == others + {seqNo} && !ExactColumn(hot["level"], others)
      requires |log| == head && log[seqNo].Str("level") != ""
      ensures exists t :: t != log[seqNo].Str("level") && t in hot["level"].vals
                       && hot["level"].St().BitmapOf(hash, t).Some?
                       && seqNo in hot["level"].St().BitmapOf(hash, t).value
    {
      hide Valid, RingOk, IsPow2, IndexExact, State.Ok, Column.Valid, Injective, HasWellKnown, State.BitmapOf;
      LiveRow(seqNo);
      ColumnAt("level", seqNo % cap);
      StampAt("level", seqNo % cap);
      ColumnTrusted("level");
      Sizes(hot["level"].St(), hash);
      StaleIsListed(hot["level"].St(), hash, others, seqNo);
    }

    /** A column that is no dictionary has no index, and the empty text is in none. */
    lemma ColumnMeans(name: string, v: string)
      requires Inv() && Injective(hash) && name in hot
      ensures hot[name].kind != Dict || v == "" ==> hot[name].St().BitmapOf(hash, v).None?
      ensures hot[name].kind == F64 <==> name == "ts"
    {
      hide Valid, RingOk, IsPow2, State.Ok;
      Sized();
      ColumnAt(name, 0);
      StampAt(name, 0);
      if hot[name].kind == Dict {
        BitmapMeaning(hot[name].St(), hash, v, {});
      }
    }

    lemma StampAt(name: string, i: nat)
      requires Valid() && busy == -1 && name in hot && i < cap
      ensures hot[name].Valid() && hot[name].hash == hash && |occ| == |hot[name].stamps| == |hot[name].vals| == cap
      ensures hot[name].stamps[i] <= occ[i] && (hot[name].vals[i] != "" ==> hot[name].stamps[i] == occ[i])
    {
      Locate(name);
    }
  }

  /** The index lookup for the row that the slot of its number shows. */
  lemma BitmapAt(st: State, hash: string -> nat, s: string, stale: set<nat>, x: nat)
    requires st.Ok(hash) && st.kind == Dict && Injective(hash) && s != "" && x < U32
    requires |st.vals| == |st.stamps| > 0 && IndexExact(st, stale)
    requires st.stamps[x % |st.vals|] <= x && (st.vals[x % |st.vals|] != "" ==> st.stamps[x % |st.vals|] == x)
    ensures var i, b := x % |st.vals|, st.BitmapOf(hash, s);
            && (st.vals[i] == s ==> b.Some? && x in b.value)
            && (x !in stale && b.Some? && x in b.value ==> st.vals[i] == s)
  {
    hide State.Ok, IndexExact, Injective, State.BitmapOf;
    BitmapMeaning(st, hash, s, stale);
    assert x % U32 == x;
  }

  ghost function HeldBy(st: State): multiset<nat> {
    match st.kind
    case Dict => RefsOf(InternIds(st.d.dict))
    case Raw => RefsOf(st.ids)
    case F64 => multiset{}
  }

  lemma HeldIs(st: State, hash: string -> nat)
    requires st.Ok(hash)
    ensures st.held == HeldBy(st)
  {
  }

  const CUSTOM := JsonVal("\"custom\"", Some("custom"), None)
  const ERROR := JsonVal("\"error\"", Some("error"), None)

  /** A row with a level that is none of the known ones, and one that has a severity besides, from which its
      level is normalized. */
  const UNKNOWN_LEVEL := Json([("level", CUSTOM)], "")
  const KNOWN_SEVERITY := Json([("level", CUSTOM), ("severity", ERROR)], "error")

  lemma CustomRows(source: nat, ts: real, now: real)
    ensures var rt := Routing(Kinds(set n | n in WELL_KNOWN), map[], 0);
            var (row0, rt0) := AppendedRow(rt, Input(source, ts, UNKNOWN_LEVEL), now);
            var row1 := Rows.IngestFields(NewRow(Input(source, ts, KNOWN_SEVERITY), now), rt0, KNOWN_SEVERITY.fields).0;
            && row0.Str("level") == row1.Str("level") == "custom"
            && AppendedRow(rt0, Input(source, ts, KNOWN_SEVERITY), now).0.Str("level") == "error"
  {
    hide Row.Str, Row.WithStr;
    var rt := Routing(Kinds(set n | n in WELL_KNOWN), map[], 0);
    assert WELL_KNOWN[1] == "level";
    assert CUSTOM.raw[0] == '"' && CUSTOM.Text() == "custom";
    var new0 := NewRow(Input(source, ts, UNKNOWN_LEVEL), now);
    assert [("level", CUSTOM)][1..] == [];
    assert Rows.IngestField(new0, rt, "level", CUSTOM) == (new0.WithStr("level", "custom"), rt);
    assert Rows.IngestFields(new0, rt, UNKNOWN_LEVEL.fields) == (new0.WithStr("level", "custom"), rt);
    var rt0 := rt.(seen := 1);
    var fields := KNOWN_SEVERITY.fields;
    assert fields[1..] == [("severity", ERROR)] && fields[1..][1..] == [];
    var row := new0.WithStr("level", "custom");
    assert Rows.IngestField(new0, rt0, "level", CUSTOM) == (row, rt0);
    IngestFieldFrame(row, rt0, "severity", ERROR);
    assert Rows.IngestFields(row, rt0, fields[1..]) == Rows.IngestField(row, rt0, "severity", ERROR);
  }

  /** The second row overwrites a level that the first one shows. */
  lemma CustomUnsafe(slots: seq<Row>, row: Row, rt: Routing)
    requires |slots| == 2 && slots[0].Str("level") == "custom"
    requires Rows.IngestFields(row, rt, KNOWN_SEVERITY.fields).0.Str("level") == "custom"
    ensures !LevelSafe(slots, 1, row, rt, KNOWN_SEVERITY)
  {
    hide Rows.IngestFields, Row.Str;
    var after := slots[1 := Rows.IngestFields(row, rt, KNOWN_SEVERITY.fields).0];
    assert after[0].Str("level") == after[1].Str("level") == "custom";
    assert |"error"| != |"custom"|;
  }

  lemma TwoLevels(s: Store)
    requires s.Inv() && s.head == s.cap == 2 && "level" in s.hot
    ensures |s.log| == 2 && s.hot["level"].vals == [s.log[0].Str("level"), s.log[1].Str("level")]
  {
    hide Store.Valid, RingOk, IsPow2, Injective, ExactColumn, Store.HasWellKnown, Column.Ready;
    AnyTail(s);
    s.LiveRow(0);
    s.LiveRow(1);
    s.ColumnAt("level", 0);
    s.ColumnAt("level", 1);
  }

  /** What is doubted of two rows with the levels "custom" and "error". */
  lemma ErrorFoundAsCustom(s: Store)
    requires s.Inv() && Injective(s.hash) && s.head == s.cap == 2 && s.doubted == {1} && s.LevelIndexed()
    requires |s.log| == 2 && s.log[0].Str("level") == "custom" && s.log[1].Str("level") == "error"
    requires !ExactColumn(s.hot["level"], {})
    ensures var b := s.hot["level"].St().BitmapOf(s.hash, "custom"); b.Some? && 1 in b.value
  {
    hide Store.Inv, Injective, ExactColumn, State.BitmapOf, Row.Str;
    var none: set<nat> := {};
    assert none + {1} == s.doubted && |"error"| > 0;
    TwoLevels(s);
    AnyTail(s);
    s.DoubtIsReal(1, none);
  }

  lemma AnyTail(s: Store)
    requires s.Inv() && s.head == s.cap == 2
    ensures s.Live(0) && s.Live(1)
  {
    s.Sized();
    hide Store.Valid;
  }

  /** Nothing is rewritten without a known level. */
  lemma UnknownSafe(s: Store, idx: nat, row: Row)
    requires s.Inv() && idx < s.cap
    ensures idx < |s.slots| && LevelSafe(s.slots, idx, row, s.Rt(), UNKNOWN_LEVEL)
  {
    hide Store.Valid;
    s.Sized();
  }

  lemma CapTwo(cap: nat)
    requires LeastPow2(cap, 2)
    ensures cap == 2
  {
    assert Pow2(0) == 1 && Pow2(1) == 2;
  }

  lemma FirstSlot(s: Store)
    requires s.Inv() && s.head == 1
    ensures |s.slots| == s.cap > 0 && |s.log| == 1 && s.slots[0] == s.log[0] && "level" in s.hot
  {
    hide Store.Valid, IsPow2;
    s.Sized();
    s.LiveRow(0);
  }

  /** Normalizing a level can harm the index: while another row shows the raw level, the rewritten row stays
      listed under it. The second row shows "error", and a lookup of "custom" still finds it. */
  method RewrittenLevel(hash: string -> nat, source: nat, ts: real, now: real) returns (s: Store)
    requires Injective(hash)
    ensures s.Inv() && s.hash == hash && s.Live(1)
    ensures |s.log| == 2 && s.log[0].Str("level") == "custom" && s.log[1].Str("level") == "error"
    ensures "level" in s.hot && var b := s.hot["level"].St().BitmapOf(hash, "custom"); b.Some? && 1 in b.value
  {
    hide Store.Inv, Rows.AppendedRow, Injective, LevelSafe, ExactColumn, NewRow, Rows.IngestFields, Row.Str,
        State.BitmapOf;
    hide LeastPow2, Kinds, Store.Rt;
    s := Store.New(2, hash);
    CapTwo(s.cap);
    CustomRows(source, ts, now);
    s.LogSize();
    UnknownSafe(s, 0, NewRow(Input(source, ts, UNKNOWN_LEVEL), now));
    var first := s.Append(Input(source, ts, UNKNOWN_LEVEL), now);
    assert fresh(set c | c in s.cols);
    FirstSlot(s);
    CustomUnsafe(s.slots, NewRow(Input(source, ts, KNOWN_SEVERITY), now), s.Rt());
    var second := s.Append(Input(source, ts, KNOWN_SEVERITY), now);
    StillIndexed(s);
    AnyTail(s);
    assert s.doubted == {1};
    ErrorFoundAsCustom(s);
  }

  lemma StillIndexed(s: Store)
    requires s.Inv() && s.cap == 2
    ensures s.LevelIndexed()
  {
    hide Store.Valid, RingOk, IsPow2, Injective;
    s.SmallRingsStayIndexed("level");
  }
}
