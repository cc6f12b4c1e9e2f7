/** Bookkeeping of references: what a holder owns of a shared pool, and how it changes hands. */
module Ledger {
  import opened Pools

  /** The references that a row of ids holds; id 0 holds none. */
  function RefsOf(ids: seq<nat>): (r: multiset<nat>)
    ensures forall id :: r[id] == if id == 0 then 0 else multiset(ids)[id]
  {
    multiset(ids)[0 := 0]
  }

  function One(id: nat): multiset<nat> {
    if id == 0 then multiset{} else multiset{id}
  }

  lemma RefsAfterUpdate(ids: seq<nat>, i: nat, id: nat)
    requires i < |ids|
    ensures One(ids[i]) <= RefsOf(ids)
    ensures RefsOf(ids[i := id]) == RefsOf(ids) - One(ids[i]) + One(id)
  {
    assert multiset(ids[i := id]) == multiset(ids) - multiset{ids[i]} + multiset{id};
  }

  lemma RefsAfterPush(ids: seq<nat>, id: nat)
    ensures RefsOf(ids + [id]) == RefsOf(ids) + One(id)
  {
  }

  lemma RefsOfNone()
    ensures RefsOf([]) == multiset{}
  {
  }

  /** Position i of a row of ids, whose first i are done, is set to `id`. */
  lemma RefsOfDone(ids: seq<nat>, i: nat, id: nat)
    requires i < |ids|
    ensures RefsOf(ids[i := id][..i + 1]) == RefsOf(ids[..i]) + One(id)
  {
    assert ids[i := id][..i + 1] == ids[..i] + [id];
    RefsAfterPush(ids[..i], id);
  }

  lemma RefsOfPrefix(ids: seq<nat>, n: nat)
    requires n < |ids|
    ensures RefsOf(ids[..n + 1]) == RefsOf(ids[..n]) + One(ids[n])
  {
    assert ids[..n + 1] == ids[..n] + [ids[n]];
  }

  /** What is held, and what the first i rows hold by themselves. */
  ghost function Done(held: multiset<nat>, ids: seq<nat>, i: nat): multiset<nat>
    requires i <= |ids|
  {
    held + RefsOf(ids[..i])
  }

  lemma DoneAtEnds(held: multiset<nat>, ids: seq<nat>)
    ensures Done(held, ids, 0) == held && Done(held, ids, |ids|) == held + RefsOf(ids)
  {
    assert ids[..|ids|] == ids && ids[..0] == [];
  }

  lemma HeldByDone(held: multiset<nat>, ids: seq<nat>, i: nat)
    requires i <= |ids|
    ensures held <= Done(held, ids, i)
  {
  }

  /** Row i takes id for good, or has nothing to take. */
  lemma DoneOneMore(held: multiset<nat>, ids: seq<nat>, i: nat, id: nat)
    requires i < |ids|
    ensures ids[i] == 0 ==> Done(held, ids, i + 1) == Done(held, ids, i)
    ensures id != 0 ==> Done(held, ids[i := id], i + 1) == Done(held, ids, i) + multiset{id}
  {
    RefsOfPrefix(ids, i);
    if id != 0 {
      RefsOfDone(ids, i, id);
    }
  }

  lemma RefsOfSuffix(ids: seq<nat>, k: nat)
    requires k < |ids|
    ensures RefsOf(ids[k..]) == One(ids[k]) + RefsOf(ids[k + 1..])
  {
    assert ids[k..] == [ids[k]] + ids[k + 1..];
  }

  /** A holder gives up `given` and takes `taken`; no other reference and no text behind one moves. */
  ghost predicate Transfers(before: Contents, after: Contents, given: multiset<nat>, taken: multiset<nat>) {
    && given <= before.refs
    && after.refs == before.refs - given + taken
    && (forall id :: id in before.refs - given ==>
        id in after.strs && id in before.strs && after.strs[id] == before.strs[id])
  }

  /** The ids of `held` stand for the texts in `names`. */
  ghost predicate Agrees(held: multiset<nat>, names: map<nat, string>, contents: Contents) {
    && held <= contents.refs
    && forall id :: id in held ==> id in names && id in contents.strs && contents.strs[id] == names[id]
  }

  lemma HeldIsBacked(held: multiset<nat>, names: map<nat, string>, c: Contents)
    requires Agrees(held, names, c)
    ensures held <= c.refs
  {
  }

  lemma HeldIsKnown(held: multiset<nat>, names: map<nat, string>, c: Contents, id: nat)
    requires Agrees(held, names, c) && id in held && c.WellFormed()
    ensures id in names && id in c.strs && c.strs[id] == names[id] && id != 0 && names[id := names[id]] == names
  {
  }

  /** Nothing happens. */
  lemma Idle(c: Contents, held: multiset<nat>)
    requires c.WellFormed() && held <= c.refs
    ensures Transfers(c, c, held, held)
  {
  }

  lemma Composed(a: Contents, b: Contents, c: Contents, x: multiset<nat>, y: multiset<nat>, z: multiset<nat>)
    requires Transfers(a, b, x, y) && Transfers(b, c, y, z)
    ensures Transfers(a, c, x, z)
  {
    assert b.refs - y == a.refs - x;
  }

  /** What a third party holds throughout can be added on both sides. */
  lemma Widened(a: Contents, b: Contents, x: multiset<nat>, y: multiset<nat>, kept: multiset<nat>)
    requires Transfers(a, b, x, y) && x + kept <= a.refs
    ensures Transfers(a, b, x + kept, y + kept)
  {
    assert b.refs == a.refs - (x + kept) + (y + kept);
    assert a.refs - (x + kept) <= a.refs - x;
  }

  lemma ReleaseTransfers(c: Contents, id: nat)
    requires c.WellFormed() && id in c.refs
    ensures Transfers(c, c.Released(id), multiset{id}, multiset{})
  {
  }

  lemma ShareTransfers(c: Contents, id: nat, s: string)
    requires c.WellFormed() && (id in c.strs ==> c.strs[id] == s)
    ensures Transfers(c, c.Shared(id, s), multiset{}, multiset{id})
  {
  }

  /** Other holders notice nothing. */
  lemma OthersAgree(a: Contents, b: Contents, x: multiset<nat>, y: multiset<nat>, held: multiset<nat>,
                    names: map<nat, string>)
    requires Transfers(a, b, x, y) && x + held <= a.refs && Agrees(held, names, a)
    ensures Agrees(held, names, b)
  {
    assert held <= a.refs - x;
  }

  /** A holder lets go of one of its references. */
  lemma ReleasedFrom(c: Contents, held: multiset<nat>, names: map<nat, string>, id: nat)
    requires c.WellFormed() && Agrees(held, names, c) && id in held
    ensures Transfers(c, c.Released(id), held, held - multiset{id})
    ensures Agrees(held - multiset{id}, names, c.Released(id))
  {
    ReleaseTransfers(c, id);
    Widened(c, c.Released(id), multiset{id}, multiset{}, held - multiset{id});
    assert multiset{id} + (held - multiset{id}) == held;
  }

  lemma SharedAgrees(c: Contents, held: multiset<nat>, names: map<nat, string>, id: nat, s: string)
    requires Agrees(held, names, c) && (id in c.strs ==> c.strs[id] == s)
    ensures Agrees(held + multiset{id}, names[id := s], c.Shared(id, s))
  {
    var held', names', c' := held + multiset{id}, names[id := s], c.Shared(id, s);
    forall x | x in held' ensures x in names' && x in c'.strs && c'.strs[x] == names'[x] {
      assert x == id || x in held;
    }
  }

  /** A holder gains a reference to s under `id`. */
  lemma SharedInto(c: Contents, held: multiset<nat>, names: map<nat, string>, id: nat, s: string)
    requires c.WellFormed() && Agrees(held, names, c) && (id in c.strs ==> c.strs[id] == s)
    ensures Transfers(c, c.Shared(id, s), held, held + multiset{id})
    ensures Agrees(held + multiset{id}, names[id := s], c.Shared(id, s))
    ensures id in held ==> names[id] == s
  {
    SharedAgrees(c, held, names, id, s);
    ShareTransfers(c, id, s);
    Widened(c, c.Shared(id, s), multiset{}, multiset{id}, held);
    assert multiset{} + held == held && multiset{id} + held == held + multiset{id};
  }

  lemma RefsFilled(ids: seq<nat>, idx: nat, id: nat)
    requires idx < |ids| && ids[idx] == 0 && id != 0
    ensures RefsOf(ids[idx := id]) == RefsOf(ids) + multiset{id}
    ensures forall i :: 0 <= i < |ids| && ids[i] == id ==> id in RefsOf(ids)
  {
    RefsAfterUpdate(ids, idx, id);
    forall i | 0 <= i < |ids| && ids[i] == id ensures id in RefsOf(ids) {
      assert ids[i] in multiset(ids);
    }
  }
}
