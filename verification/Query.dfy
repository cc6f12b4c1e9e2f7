/** Range queries over sequence numbers: the list a query stands for. */
module Queries {

  /** The numbers in [lo, hi) that are kept, ascending. */
  function Filtered(keep: nat -> bool, lo: nat, hi: nat): seq<nat>
    decreases hi
  {
    if hi <= lo then []
    else Filtered(keep, lo, hi - 1) + if keep(hi - 1) then [hi - 1] else []
  }

  /** At most `limit` of them; no positive limit means all. */
  function Limited(found: seq<nat>, limit: int): seq<nat> {
    if 0 < limit < |found| then found[..limit] else found
  }

  ghost predicate Ascending(s: seq<nat>) {
    forall i, j :: 0 <= i < j < |s| ==> s[i] < s[j]
  }

  /** What the list means: exactly the kept numbers, each once, in order. */
  lemma {:induction false} FilteredMeaning(keep: nat -> bool, lo: nat, hi: nat)
    ensures forall x :: x in Filtered(keep, lo, hi) <==> lo <= x < hi && keep(x)
    ensures Ascending(Filtered(keep, lo, hi))
    decreases hi
  {
    if hi > lo {
      FilteredMeaning(keep, lo, hi - 1);
      var found := Filtered(keep, lo, hi - 1);
      forall i | 0 <= i < |found| ensures found[i] < hi - 1 {
        assert found[i] in found;
      }
    }
  }

  lemma {:induction false} FilteredSplit(keep: nat -> bool, lo: nat, mid: nat, hi: nat)
    requires lo <= mid <= hi
    ensures Filtered(keep, lo, hi) == Filtered(keep, lo, mid) + Filtered(keep, mid, hi)
    decreases hi
  {
    if hi > mid {
      FilteredSplit(keep, lo, mid, hi - 1);
    }
  }

  lemma {:induction false} FilteredNone(keep: nat -> bool, lo: nat, hi: nat)
    requires forall x :: lo <= x < hi ==> !keep(x)
    ensures Filtered(keep, lo, hi) == []
    decreases hi
  {
    if hi > lo {
      FilteredNone(keep, lo, hi - 1);
    }
  }

  /** Two filters give the same answer exactly when they keep the same numbers of the range. */
  lemma {:induction false} SameAnswer(keep: nat -> bool, keep': nat -> bool, lo: nat, hi: nat)
    ensures Filtered(keep, lo, hi) == Filtered(keep', lo, hi) <==> forall x :: lo <= x < hi ==> keep(x) == keep'(x)
    decreases hi
  {
    if hi > lo {
      SameAnswer(keep, keep', lo, hi - 1);
      FilteredMeaning(keep, lo, hi);
      FilteredMeaning(keep', lo, hi);
      if Filtered(keep, lo, hi) == Filtered(keep', lo, hi) {
        forall x | lo <= x < hi ensures keep(x) == keep'(x) {
          assert keep(x) == (x in Filtered(keep, lo, hi));
          assert keep'(x) == (x in Filtered(keep', lo, hi));
        }
      }
    }
  }

  lemma {:induction false} FirstDifference(p: nat -> bool, q: nat -> bool, lo: nat, hi: nat) returns (at: nat)
    requires exists x :: lo <= x < hi && p(x) != q(x)
    ensures lo <= at < hi && p(at) != q(at) && forall x :: lo <= x < at ==> p(x) == q(x)
    decreases hi
  {
    if exists x :: lo <= x < hi - 1 && p(x) != q(x) {
      at := FirstDifference(p, q, lo, hi - 1);
    } else {
      at := hi - 1;
    }
  }

  /** The list around one of its numbers. */
  lemma FilteredAround(keep: nat -> bool, lo: nat, at: nat, hi: nat)
    requires lo <= at < hi
    ensures var before, found := Filtered(keep, lo, at), Filtered(keep, lo, hi);
            && |before| <= |found| && found[..|before|] == before
            && (keep(at) ==> |found| > |before| && found[|before|] == at)
            && (!keep(at) && |found| > |before| ==> found[|before|] > at)
  {
    hide Filtered;
    FilteredSplit(keep, lo, at, hi);
    FilteredMeaning(keep, at, hi);
    var after := Filtered(keep, at, hi);
    if keep(at) {
      assert at in after && after[0] in after;
    } else if after != [] {
      assert after[0] in after;
    }
  }

  /** Two filters give the same answer under a limit, if there is one, exactly when every number on which
      they differ lies behind the limit. */
  lemma SameAnswerLimited(p: nat -> bool, q: nat -> bool, lo: nat, hi: nat, limit: int)
    ensures Limited(Filtered(p, lo, hi), limit) == Limited(Filtered(q, lo, hi), limit)
       <==> forall x :: lo <= x < hi && p(x) != q(x) ==> 0 < limit <= |Filtered(p, lo, x)|
  {
    hide Filtered;
    SameAnswer(p, q, lo, hi);
    if exists x :: lo <= x < hi && p(x) != q(x) {
      var at := FirstDifference(p, q, lo, hi);
      SameAnswer(p, q, lo, at);
      FilteredAround(p, lo, at, hi);
      FilteredAround(q, lo, at, hi);
      if 0 < limit <= |Filtered(p, lo, at)| {
        forall x | lo <= x < hi && p(x) != q(x) ensures limit <= |Filtered(p, lo, x)| {
          FilteredSplit(p, lo, at, x);
        }
        TakesTheSame(Filtered(p, lo, at), Filtered(p, lo, hi), Filtered(q, lo, hi), limit);
      }
    }
  }

  lemma TakesTheSame(front: seq<nat>, a: seq<nat>, b: seq<nat>, limit: int)
    requires |front| <= |a| && |front| <= |b| && a[..|front|] == front == b[..|front|] && 0 < limit <= |front|
    ensures Limited(a, limit) == Limited(b, limit)
  {
    assert a[..limit] == front[..limit] == b[..limit];
  }

  lemma LimitReached(keep: nat -> bool, lo: nat, mid: nat, hi: nat, limit: int)
    requires lo <= mid <= hi && 0 < limit == |Filtered(keep, lo, mid)|
    ensures Limited(Filtered(keep, lo, hi), limit) == Filtered(keep, lo, mid)
  {
    FilteredSplit(keep, lo, mid, hi);
  }

  function Admits(filter: Filter): nat -> bool {
    if filter.All? then x => true else filter.keep
  }

  datatype Filter = All | Only(keep: nat -> bool)

  /** The answer to a query: where the range starts and ends, what is kept, and how many. */
  function Answer(keep: nat -> bool, lo: nat, hi: nat, head: nat, tail: nat, limit: int): seq<nat> {
    Limited(Filtered(keep, if lo < tail then tail else lo, if hi == 0 then head else hi), limit)
  }

  lemma LimitedMeaning(all: seq<nat>, limit: int)
    requires Ascending(all)
    ensures var found := Limited(all, limit);
            && Ascending(found) && (forall x :: x in found ==> x in all) && (limit > 0 ==> |found| <= limit)
            && (forall x :: x in all && x !in found ==> limit > 0 && |found| == limit && found[|found| - 1] < x)
  {
    var found := Limited(all, limit);
    assert found == all[..|found|];
    forall x | x in all && x !in found ensures limit > 0 && |found| == limit && found[|found| - 1] < x {
      var i :| 0 <= i < |all| && all[i] == x;
      assert i >= |found|;
    }
  }

  /** The range of a query after its defaults. */
  ghost predicate InRange(x: nat, lo: nat, hi: nat, head: nat, tail: nat) {
    lo <= x && tail <= x < if hi == 0 then head else hi
  }

  /** What an answer means: kept numbers of the range, ascending, no more than the limit; and one that is missing
      stands behind a full answer. */
  lemma AnswerMeaning(keep: nat -> bool, lo: nat, hi: nat, head: nat, tail: nat, limit: int)
    ensures var found := Answer(keep, lo, hi, head, tail, limit);
            && Ascending(found) && (forall x :: x in found ==> InRange(x, lo, hi, head, tail) && keep(x))
            && (limit > 0 ==> |found| <= limit)
            && (forall x :: InRange(x, lo, hi, head, tail) && keep(x) && x !in found ==>
                  limit > 0 && |found| == limit && found[|found| - 1] < x)
  {
    hide Filtered, Limited, Ascending;
    var from, until := if lo < tail then tail else lo, if hi == 0 then head else hi;
    FilteredMeaning(keep, from, until);
    LimitedMeaning(Filtered(keep, from, until), limit);
  }

  /** The scan: every number of the range is asked. */
  method Scan(filter: Filter, lo: nat, hi: nat, limit: int) returns (found: seq<nat>)
    ensures found == Limited(Filtered(Admits(filter), lo, hi), limit)
  {
    found := [];
    ghost var keep := Admits(filter);
    var x := lo;
    while x < hi
      invariant lo <= x && (x <= hi || x == lo)
      invariant found == Filtered(keep, lo, x)
      invariant limit > 0 ==> |found| < limit
    {
      x := x + 1;
      if filter.Only? && !filter.keep(x - 1) {
        continue;
      }
      found := found + [x - 1];
      if limit > 0 && |found| >= limit {
        LimitReached(keep, lo, x, hi, limit);
        return;
      }
    }
    if hi < lo {
      FilteredNone(keep, lo, hi);
    }
  }

  predicate Least(s: set<nat>, x: nat) {
    x in s && forall y :: y in s ==> x <= y
  }

  lemma {:induction false} Smallest(s: set<nat>)
    requires s != {}
    ensures exists x :: Least(s, x)
  {
    var x :| x in s;
    var others := s - {x};
    if others == {} {
      assert s == {x};
      assert Least(s, x);
    } else {
      Smallest(others);
      var z :| Least(others, z);
      assert s == others + {x};
      assert Least(s, if x < z then x else z);
    }
  }

  /** What candidates and a filter keep together. */
  function Both(candidates: set<nat>, filter: Filter): nat -> bool {
    x => x in candidates && (filter.All? || filter.keep(x))
  }

  /** The candidates that are left lie outside [lo, next), the others below next. */
  ghost predicate Visited(candidates: set<nat>, rest: set<nat>, lo: nat, next: nat) {
    && (forall x :: x in candidates && x !in rest ==> x < next)
    && (forall x :: x in rest ==> x < lo || x >= next)
  }

  lemma NothingBetween(candidates: set<nat>, filter: Filter, lo: nat, next: nat, x: nat)
    requires lo <= next <= x && forall y :: next <= y < x ==> y !in candidates
    ensures Filtered(Both(candidates, filter), lo, x) == Filtered(Both(candidates, filter), lo, next)
  {
    FilteredSplit(Both(candidates, filter), lo, next, x);
    FilteredNone(Both(candidates, filter), next, x);
  }

  /** The candidates in ascending order: only they are asked. */
  method Walk(candidates: set<nat>, filter: Filter, lo: nat, hi: nat, limit: int) returns (found: seq<nat>)
    requires lo < hi
    ensures found == Limited(Filtered(Both(candidates, filter), lo, hi), limit)
  {
    found := [];
    ghost var keep := Both(candidates, filter);
    var rest := candidates;
    ghost var next := lo;
    while rest != {}
      invariant lo <= next <= hi && rest <= candidates
      invariant found == Filtered(keep, lo, next)
      invariant Visited(candidates, rest, lo, next)
      invariant limit > 0 ==> |found| < limit
      decreases rest
    {
      Smallest(rest);
      var x: nat :| Least(rest, x);
      assert x in rest;
      rest := rest - {x};
      if x < lo {
        continue;
      }
      if x >= hi {
        NothingBetween(candidates, filter, lo, next, hi);
        return;
      }
      NothingBetween(candidates, filter, lo, next, x);
      next := x + 1;
      if filter.Only? && !filter.keep(x) {
        continue;
      }
      found := found + [x];
      if limit > 0 && |found| >= limit {
        LimitReached(keep, lo, next, hi, limit);
        return;
      }
    }
    NothingBetween(candidates, filter, lo, next, hi);
  }
}
