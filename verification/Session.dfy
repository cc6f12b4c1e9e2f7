/** What a client session reads: backlog, history pages, and batches of live rows. */
module Sessions {
  import opened Options
  import Rows
  import opened Queries
  import opened Filters
  import opened Stores
  import opened Delivery

  function LastRows(s: seq<nat>, n: nat): seq<nat> {
    if |s| <= n then s else s[|s| - n..]
  }

  /** A history page: the last `limit` kept rows below `before`, and whether no older one is left. */
  datatype Page = Page(rows: seq<nat>, end: bool)

  const DEFAULT_LIMIT: nat := 200

  function LimitOf(limit: int): (n: nat)
    ensures n > 0
  {
    if limit <= 0 then DEFAULT_LIMIT else limit
  }

  function Below(before: nat, head: nat): nat {
    if before < head then before else head
  }

  function PageOf(keep: nat -> bool, before: nat, limit: int, head: nat, tail: nat): Page {
    var hi := Below(before, head);
    if hi <= tail then Page([], true)
    else
      var all := Filtered(keep, tail, hi);
      Page(LastRows(all, LimitOf(limit)), |all| <= LimitOf(limit))
  }

  /** What one page says: kept live rows below the limit, ascending; every kept row that is not on it is
      older than all on it; and it says it is the end exactly when there is none. */
  lemma PageMeaning(keep: nat -> bool, before: nat, limit: int, head: nat, tail: nat)
    ensures var p := PageOf(keep, before, limit, head, tail);
            && Ascending(p.rows) && |p.rows| <= LimitOf(limit)
            && (forall x :: x in p.rows ==> tail <= x < Below(before, head) && keep(x))
            && (!p.end ==> |p.rows| == LimitOf(limit))
            && Filtered(keep, tail, Below(before, head)) == Filtered(keep, tail, Oldest(p, tail)) + p.rows
            && (p.end <==> Filtered(keep, tail, Oldest(p, tail)) == [])
  {
    hide Filtered;
    var hi := Below(before, head);
    FilteredNone(keep, tail, tail);
    if hi <= tail {
      FilteredNone(keep, tail, hi);
    } else {
      FilteredMeaning(keep, tail, hi);
      SuffixMeaning(keep, tail, hi, LimitOf(limit));
    }
  }

  /** Where older rows begin. */
  function Oldest(p: Page, tail: nat): nat {
    if p.rows == [] then tail else p.rows[0]
  }

  lemma SuffixMeaning(keep: nat -> bool, lo: nat, hi: nat, n: nat)
    requires n > 0
    ensures var all := Filtered(keep, lo, hi); var rows := LastRows(all, n);
            && Ascending(rows) && (forall x :: x in rows ==> x in all)
            && (rows == [] ==> all == [])
            && (rows != [] ==>
                Filtered(keep, lo, rows[0]) == all[..|all| - |rows|] &&
                all == all[..|all| - |rows|] + rows)
  {
    hide Filtered;
    var all := Filtered(keep, lo, hi);
    var rows := LastRows(all, n);
    var k := |all| - |rows|;
    FilteredMeaning(keep, lo, hi);
    SuffixOf(all, k);
    if rows != [] {
      CutAt(keep, lo, hi, k);
    }
  }

  lemma SuffixOf(all: seq<nat>, k: nat)
    requires k <= |all| && Ascending(all)
    ensures Ascending(all[k..]) && all == all[..k] + all[k..] && forall x :: x in all[k..] ==> x in all
  {
  }

  /** The list below its k-th number is its first k numbers. */
  lemma CutAt(keep: nat -> bool, lo: nat, hi: nat, k: nat)
    requires k < |Filtered(keep, lo, hi)|
    ensures var all := Filtered(keep, lo, hi); Filtered(keep, lo, all[k]) == all[..k] && lo <= all[k] < hi
  {
    var all := Filtered(keep, lo, hi);
    FilteredMeaning(keep, lo, hi);
    assert all[k] in all;
    var below, rest := Filtered(keep, lo, all[k]), Filtered(keep, all[k], hi);
    FilteredSplit(keep, lo, all[k], hi);
    FilteredMeaning(keep, lo, all[k]);
    FilteredMeaning(keep, all[k], hi);
    assert all == below + rest;
    assert all[k] in rest && rest[0] in rest && rest[0] == all[|below|];
    assert |below| > 0 ==> below[|below| - 1] in below && below[|below| - 1] == all[|below| - 1];
    assert |below| == k;
  }

  /** One page takes its rows off the end of what is left, and starts strictly lower than it was asked to. */
  lemma PageStep(keep: nat -> bool, before: nat, limit: int, head: nat, tail: nat)
    ensures var p := PageOf(keep, before, limit, head, tail); var done := p.end || p.rows == [];
            && Filtered(keep, tail, Below(before, head))
               == (if done then [] else Filtered(keep, tail, Below(p.rows[0], head))) + p.rows
            && (!done ==> p.rows[0] < before)
  {
    hide Filtered, PageOf;
    PageMeaning(keep, before, limit, head, tail);
    FilteredNone(keep, tail, tail);
    var p := PageOf(keep, before, limit, head, tail);
    if p.rows != [] {
      assert p.rows[0] in p.rows;
    }
  }

  /** The rows of all pages, read from the newest to the oldest, each page from the oldest row of the last. */
  function Pages(keep: nat -> bool, before: nat, limit: int, head: nat, tail: nat): seq<nat>
    decreases before
  {
    var p := PageOf(keep, before, limit, head, tail);
    if p.end || p.rows == [] || p.rows[0] >= before then p.rows
    else Pages(keep, p.rows[0], limit, head, tail) + p.rows
  }

  /** Paging is a partition: going on until the end yields every kept live row below the start exactly
      once, in order. */
  lemma {:induction false} PagesPartition(keep: nat -> bool, before: nat, limit: int, head: nat, tail: nat)
    ensures Pages(keep, before, limit, head, tail) == Filtered(keep, tail, Below(before, head))
    decreases before
  {
    hide PageOf, Filtered;
    var p := PageOf(keep, before, limit, head, tail);
    PageStep(keep, before, limit, head, tail);
    if !p.end && p.rows != [] {
      PagesPartition(keep, p.rows[0], limit, head, tail);
    }
  }

  lemma LastRowsInRange(keep: nat -> bool, lo: nat, hi: nat, n: nat)
    ensures forall x :: x in LastRows(Filtered(keep, lo, hi), n) ==> lo <= x < hi
  {
    FilteredMeaning(keep, lo, hi);
    assert forall x :: x in LastRows(Filtered(keep, lo, hi), n) ==> x in Filtered(keep, lo, hi);
  }

  /** Entry by entry, the wire forms of these rows of the log. */
  ghost predicate Wire(entries: seq<Rows.View>, seqs: seq<nat>, log: seq<Rows.Row>) {
    && |entries| == |seqs|
    && forall i :: 0 <= i < |seqs| ==> seqs[i] < |log| && entries[i] == Rows.ViewOf(seqs[i], log[seqs[i]])
  }

  lemma WirePushed(entries: seq<Rows.View>, seqs: seq<nat>, x: nat, log: seq<Rows.Row>)
    requires Wire(entries, seqs, log) && x < |log|
    ensures Wire(entries + [Rows.ViewOf(x, log[x])], seqs + [x], log)
  {
    hide Rows.ViewOf;
  }

  /** The rows that are still in the ring when it begins at `tail`. */
  function Survivors(seqs: seq<nat>, tail: nat): seq<nat> {
    if seqs == [] then []
    else
      var n := |seqs| - 1;
      Survivors(seqs[..n], tail) + if seqs[n] >= tail then [seqs[n]] else []
  }

  ghost predicate NoneBelow(seqs: seq<nat>, tail: nat) {
    forall x :: x in seqs ==> x >= tail
  }

  lemma NoneBelowPush(seqs: seq<nat>, x: nat, tail: nat)
    ensures NoneBelow(seqs + [x], tail) <==> NoneBelow(seqs, tail) && x >= tail
  {
    if NoneBelow(seqs + [x], tail) {
      assert forall y :: y in seqs || y == x ==> y in seqs + [x];
      assert x in seqs + [x];
    }
  }

  lemma {:induction false} SurvivorsMeaning(seqs: seq<nat>, tail: nat)
    ensures forall x :: x in Survivors(seqs, tail) <==> x in seqs && x >= tail
    ensures |Survivors(seqs, tail)| <= |seqs|
    ensures |Survivors(seqs, tail)| == |seqs| <==> NoneBelow(seqs, tail)
    ensures NoneBelow(seqs, tail) ==> Survivors(seqs, tail) == seqs
    decreases |seqs|
  {
    if seqs != [] {
      var n := |seqs| - 1;
      hide NoneBelow;
      SurvivorsMeaning(seqs[..n], tail);
      assert seqs == seqs[..n] + [seqs[n]];
      NoneBelowPush(seqs[..n], seqs[n], tail);
    }
  }

  lemma {:induction false} SurvivorsAscend(seqs: seq<nat>, tail: nat)
    requires Ascending(seqs)
    ensures Ascending(Survivors(seqs, tail))
    decreases |seqs|
  {
    if seqs != [] {
      var n := |seqs| - 1;
      SurvivorsAscend(seqs[..n], tail);
      SurvivorsMeaning(seqs[..n], tail);
      assert seqs == seqs[..n] + [seqs[n]];
      Parts(seqs[..n], [seqs[n]]);
      Together(Survivors(seqs[..n], tail), if seqs[n] >= tail then [seqs[n]] else []);
    }
  }

  lemma SurvivorsPush(seqs: seq<nat>, i: nat, tail: nat)
    requires i < |seqs|
    ensures Survivors(seqs[..i + 1], tail) == Survivors(seqs[..i], tail) + if seqs[i] >= tail then [seqs[i]] else []
  {
    assert seqs[..i + 1][..i] == seqs[..i];
  }

  /** The wire forms of rows, in order; rows that have gone meanwhile are skipped. */
  method Entries(s: Store, seqs: seq<nat>) returns (entries: seq<Rows.View>)
    requires s.Inv() && forall x :: x in seqs ==> x < s.head
    ensures Wire(entries, Survivors(seqs, s.tail), s.log)
  {
    hide Store.Inv, Rows.ViewOf, Wire, Survivors;
    s.LogSize();
    entries := [];
    var i := 0;
    NothingWired(s.log);
    NothingSurvives(s.tail);
    assert seqs[..0] == [];
    while i < |seqs|
      invariant 0 <= i <= |seqs|
      invariant Wire(entries, Survivors(seqs[..i], s.tail), s.log)
    {
      var row := s.Materialize(seqs[i]);
      assert seqs[i] in seqs;
      SurvivorsPush(seqs, i, s.tail);
      ghost var before := Survivors(seqs[..i], s.tail);
      assert before + [] == before;
      if row.Some? {
        WirePushed(entries, Survivors(seqs[..i], s.tail), seqs[i], s.log);
        entries := entries + [row.value];
      }
      i := i + 1;
    }
    assert seqs[..i] == seqs;
  }

  lemma NothingSurvives(tail: nat)
    ensures Survivors([], tail) == []
  {
  }

  lemma NothingWired(log: seq<Rows.Row>)
    ensures Wire([], [], log)
  {
  }

  /** The newest `limit` rows that the plan keeps. */
  method QueryBacklog(s: Store, plan: Plan, limit: int) returns (seqs: seq<nat>)
    ensures seqs == if limit <= 0 || s.head <= s.tail then [] else LastRows(Filtered(Kept(plan), s.tail, s.head), limit)
  {
    if limit <= 0 || s.head <= s.tail {
      return [];
    }
    var all := s.QueryRangeBitmap(plan.candidates, plan.residual, s.tail, s.head, 0);
    if |all| <= limit {
      return all;
    }
    return all[|all| - limit..];
  }

  /** A backlog is the page in front of the head. */
  lemma BacklogIsPage(keep: nat -> bool, limit: int, head: nat, tail: nat)
    requires limit > 0 && head > tail
    ensures LastRows(Filtered(keep, tail, head), limit) == PageOf(keep, head, limit, head, tail).rows
  {
  }

  /** One history request: the page, and the wire form of each of its rows. */
  method History(s: Store, plan: Plan, before: nat, limit: int) returns (page: Page, entries: seq<Rows.View>)
    requires s.Inv()
    ensures page == PageOf(Kept(plan), before, limit, s.head, s.tail)
    ensures Wire(entries, page.rows, s.log)
  {
    hide Store.Inv, Wire, Filtered, Survivors;
    NothingWired(s.log);
    var n: nat := if limit <= 0 then DEFAULT_LIMIT else limit;
    var hi := if before < s.head then before else s.head;
    if hi <= s.tail {
      return Page([], true), [];
    }
    var all := s.QueryRangeBitmap(plan.candidates, plan.residual, s.tail, hi, 0);
    var seqs := if |all| <= n then all else all[|all| - n..];
    LastRowsInRange(Kept(plan), s.tail, hi, n);
    assert seqs == LastRows(Filtered(Kept(plan), s.tail, hi), n);
    SurvivorsMeaning(seqs, s.tail);
    entries := Entries(s, seqs);
    page := Page(seqs, |all| <= n);
  }

  /** A client that scrolls back to the end: every page starts strictly below the last, so it stops, and
      then it has every kept live row below the start exactly once, in order. */
  method ReadBack(s: Store, plan: Plan, start: nat, limit: int) returns (rows: seq<nat>)
    requires s.Inv()
    ensures rows == Filtered(Kept(plan), s.tail, Below(start, s.head))
  {
    hide Store.Inv, PageOf, Filtered, Kept, Wire, Ascending;
    rows := [];
    ghost var keep := Kept(plan);
    var before := start;
    var exhausted := false;
    while !exhausted
      invariant Filtered(keep, s.tail, Below(start, s.head))
             == (if exhausted then [] else Filtered(keep, s.tail, Below(before, s.head))) + rows
      decreases !exhausted, before
    {
      var page, entries := History(s, plan, before, limit);
      PageStep(keep, before, limit, s.head, s.tail);
      rows := page.rows + rows;
      exhausted := page.end || page.rows == [];
      if !exhausted {
        before := page.rows[0];
      }
    }
  }

  /** A frame on the wire: the wire forms of rows in order, and how many were dropped before it. */
  datatype Frame = Frame(entries: seq<Rows.View>, gap: nat)

  /** What a flush took from the queue, and where the ring began then. */
  datatype Batch = Batch(rows: seq<nat>, tail: nat)

  function NumbersOf(entries: seq<Rows.View>): (r: seq<nat>)
    ensures |r| == |entries| && forall i :: 0 <= i < |r| ==> r[i] == entries[i].seqNo
  {
    seq(|entries|, i requires 0 <= i < |entries| => entries[i].seqNo)
  }

  /** The numbers of all rows that went out. */
  function Arrived(frames: seq<Frame>): seq<nat> {
    if frames == [] then [] else Arrived(frames[..|frames| - 1]) + NumbersOf(frames[|frames| - 1].entries)
  }

  function GapsIn(frames: seq<Frame>): nat {
    if frames == [] then 0 else GapsIn(frames[..|frames| - 1]) + frames[|frames| - 1].gap
  }

  /** The numbers of all rows that were to go out. */
  function RowsIn(batches: seq<Batch>): seq<nat> {
    if batches == [] then [] else RowsIn(batches[..|batches| - 1]) + batches[|batches| - 1].rows
  }

  /** Frame by frame, exactly the rows of the batch went out that were in the ring at its flush. */
  ghost predicate Carried(frames: seq<Frame>, batches: seq<Batch>) {
    && |frames| == |batches|
    && forall i :: 0 <= i < |frames| ==> NumbersOf(frames[i].entries) == Survivors(batches[i].rows, batches[i].tail)
  }

  lemma WireNumbers(entries: seq<Rows.View>, seqs: seq<nat>, log: seq<Rows.Row>)
    requires Wire(entries, seqs, log)
    ensures NumbersOf(entries) == seqs
  {
    hide Rows.WithTail, Rows.HotFields;
  }

  lemma FramePushed(frames: seq<Frame>, batches: seq<Batch>, f: Frame, b: Batch)
    requires Carried(frames, batches) && NumbersOf(f.entries) == Survivors(b.rows, b.tail)
    ensures Carried(frames + [f], batches + [b])
    ensures RowsIn(batches + [b]) == RowsIn(batches) + b.rows && GapsIn(frames + [f]) == GapsIn(frames) + f.gap
  {
    hide Survivors, NumbersOf;
    assert (frames + [f])[..|frames|] == frames && (batches + [b])[..|batches|] == batches;
  }

  /** What arrived, row by row: a row of a batch arrives exactly if it was in the ring at its flush. */
  ghost predicate NoneGone(batches: seq<Batch>) {
    forall b, x :: b in batches && x in b.rows ==> x >= b.tail
  }

  lemma {:induction false} ArrivedMeaning(frames: seq<Frame>, batches: seq<Batch>)
    requires Carried(frames, batches)
    ensures forall x :: x in Arrived(frames) <==> exists b :: b in batches && x in b.rows && x >= b.tail
    ensures |Arrived(frames)| <= |RowsIn(batches)|
    ensures |Arrived(frames)| == |RowsIn(batches)| <==> NoneGone(batches)
    ensures NoneGone(batches) ==> Arrived(frames) == RowsIn(batches)
    decreases |frames|
  {
    hide Survivors, NumbersOf;
    if frames != [] {
      var n := |frames| - 1;
      var b := batches[n];
      ArrivedMeaning(frames[..n], batches[..n]);
      SurvivorsMeaning(b.rows, b.tail);
      assert batches == batches[..n] + [b];
      assert NoneGone(batches) <==> NoneGone(batches[..n]) && forall x :: x in b.rows ==> x >= b.tail;
      assert Arrived(frames) == Arrived(frames[..n]) + Survivors(b.rows, b.tail);
    }
  }

  lemma {:induction false} ArrivedAscends(frames: seq<Frame>, batches: seq<Batch>)
    requires Carried(frames, batches) && Ascending(RowsIn(batches))
    ensures Ascending(Arrived(frames))
    ensures forall x :: x in Arrived(frames) ==> x in RowsIn(batches)
    decreases |frames|
  {
    hide Survivors, NumbersOf;
    if frames != [] {
      var n := |frames| - 1;
      var b := batches[n];
      var before := RowsIn(batches[..n]);
      assert RowsIn(batches) == before + b.rows;
      Parts(before, b.rows);
      ArrivedAscends(frames[..n], batches[..n]);
      SurvivorsMeaning(b.rows, b.tail);
      SurvivorsAscend(b.rows, b.tail);
      assert Arrived(frames) == Arrived(frames[..n]) + Survivors(b.rows, b.tail);
      Together(Arrived(frames[..n]), Survivors(b.rows, b.tail));
    }
  }

  lemma Parts(a: seq<nat>, b: seq<nat>)
    requires Ascending(a + b)
    ensures Ascending(a) && Ascending(b) && forall x, y :: x in a && y in b ==> x < y
  {
    var s := a + b;
    assert forall i :: 0 <= i < |a| ==> s[i] == a[i];
    assert forall i :: 0 <= i < |b| ==> s[|a| + i] == b[i];
  }

  lemma Together(a: seq<nat>, b: seq<nat>)
    requires Ascending(a) && Ascending(b) && forall x, y :: x in a && y in b ==> x < y
    ensures Ascending(a + b)
  {
    forall i, j | 0 <= i < |a| && 0 <= j < |b| ensures a[i] < b[j] {
      assert a[i] in a && b[j] in b;
    }
  }

  /** Which rows reach the client: in ascending order exactly those that were still in the ring at their
      flush, and all of them if and only if none had gone by then. A row that has gone is in no gap count. */
  lemma WhatArrives(frames: seq<Frame>, batches: seq<Batch>)
    requires Carried(frames, batches) && Ascending(RowsIn(batches))
    ensures Ascending(Arrived(frames))
    ensures forall x :: x in Arrived(frames) <==> exists b :: b in batches && x in b.rows && x >= b.tail
    ensures Arrived(frames) == RowsIn(batches) <==> NoneGone(batches)
  {
    hide Ascending, Carried, NoneGone;
    ArrivedMeaning(frames, batches);
    ArrivedAscends(frames, batches);
  }

  lemma SentBelowCursor(s: State)
    requires Good(s)
    ensures s.received <= |s.sent| && Ascending(s.sent) && forall x :: x in s.sent ==> x < s.cursor <= s.head
  {
    hide Delivery.Rows;
    RowsAscend(s.start, s.fates, Queued);
  }

  lemma OldestQueued(s: State)
    requires Good(s)
    ensures s.received + |s.out| == |s.sent|
    ensures s.out != [] ==> s.sent[..s.received + 1] == s.sent[..s.received] + [s.out[0]]
  {
  }

  const BATCH: nat := 100

  /** Moves rows from a subscriber's queue to the wire in batches. */
  class Pump {
    const sub: Subscriber
    var batch: seq<nat>
    var frames: seq<Frame>
    ghost var batches: seq<Batch>

    /** What was taken for frames and what is being collected is what was received; each frame carries what
        was left of its batch; the gaps that went out are the drops that were taken. */
    ghost predicate Kept()
      reads this, sub
    {
      && Good(sub.St()) && RowsIn(batches) + batch == sub.sent[..sub.received]
      && Carried(frames, batches) && GapsIn(frames) == sub.taken
      && forall f :: f in frames ==> |f.entries| <= BATCH
    }

    ghost predicate Valid()
      reads this, sub
    {
      Kept() && |batch| < BATCH
    }

    constructor (sub: Subscriber)
      requires Good(sub.St()) && sub.received == 0 && sub.taken == 0
      ensures Valid() && this.sub == sub && frames == [] && batches == []
    {
      this.sub, batch, frames, batches := sub, [], [], [];
    }

    /** A frame with what is left of the batch and the drops, unless there is neither. */
    method Flush(s: Store)
      requires Kept() && |batch| <= BATCH && s.Inv() && s.head == sub.head
      modifies this, sub
      ensures Valid() && batch == [] && sub.dropped == 0
      ensures sub.St() == old(Step(sub.St(), TakeDropped))
      ensures if old(batch) == [] && old(sub.dropped) == 0 then frames == old(frames) && batches == old(batches)
              else
                && batches == old(batches) + [Batch(old(batch), s.tail)]
                && |frames| == |old(frames)| + 1 && frames[..|old(frames)|] == old(frames)
                && frames[|frames| - 1].gap == old(sub.dropped)
                && Wire(frames[|frames| - 1].entries, Survivors(old(batch), s.tail), s.log)
    {
      hide Good, Carried, Survivors, Wire, Store.Inv, Ascending, RowsIn, GapsIn, NumbersOf;
      SentBelowCursor(sub.St());
      BatchWasSent(RowsIn(batches), batch, sub.sent, sub.received);
      var gap := sub.TakeDropped();
      if |batch| == 0 && gap == 0 {
        return;
      }
      var entries := Entries(s, batch);
      WireNumbers(entries, Survivors(batch, s.tail), s.log);
      SurvivorsMeaning(batch, s.tail);
      FramePushed(frames, batches, Frame(entries, gap), Batch(batch, s.tail));
      frames := frames + [Frame(entries, gap)];
      batches := batches + [Batch(batch, s.tail)];
      batch := [];
    }

    /** One queued row, if there is one; a full batch goes out at once. */
    method Pull(s: Store) returns (ok: bool)
      requires Valid() && s.Inv() && s.head == sub.head
      modifies this, sub
      ensures Valid() && sub.head == old(sub.head) && sub.sent == old(sub.sent) && ok == (old(sub.out) != [])
      ensures sub.received == if ok then old(sub.received) + 1 else old(sub.received)
      ensures forall b :: b in batches && b !in old(batches) ==> b.tail == s.tail
    {
      hide Good, Carried, Survivors, Store.Inv, Wire, RowsIn, GapsIn;
      OldestQueued(sub.St());
      var x;
      x, ok := sub.Receive();
      if ok {
        batch := batch + [x];
        if |batch| >= BATCH {
          Flush(s);
        }
      }
    }

    /** At shutdown everything queued goes out: then the frames carry, of all that was ever sent, exactly
        what was left of each batch. */
    method Drain(s: Store)
      requires Valid() && s.Inv() && s.head == sub.head
      modifies this, sub
      ensures Valid() && sub.sent == old(sub.sent) && sub.dropped == 0
      ensures RowsIn(batches) == sub.sent && Carried(frames, batches) && Ascending(sub.sent)
      ensures forall b :: b in batches && b !in old(batches) ==> b.tail == s.tail
    {
      hide Good, Carried, Survivors, Store.Inv, Wire, RowsIn, GapsIn, Ascending;
      var more := true;
      OldestQueued(sub.St());
      while more
        invariant Valid() && sub.head == s.head && sub.sent == old(sub.sent) && (!more ==> sub.out == [])
        invariant forall b :: b in batches && b !in old(batches) ==> b.tail == s.tail
        invariant sub.received + |sub.out| == |sub.sent|
        decreases more, |sub.sent| - sub.received
      {
        more := Pull(s);
        OldestQueued(sub.St());
      }
      SentBelowCursor(sub.St());
      Flush(s);
      assert sub.sent[..sub.received] == sub.sent;
    }
  }

  lemma BatchWasSent(flushed: seq<nat>, batch: seq<nat>, sent: seq<nat>, received: nat)
    requires received <= |sent| && flushed + batch == sent[..received]
    ensures forall x :: x in batch ==> x in sent
  {
    forall x | x in batch ensures x in sent {
      assert x in flushed + batch;
    }
  }

  /** When the ring begins behind a queued row: when more rows were appended after it than the ring holds. */
  lemma GoneIff(s: State, x: nat)
    requires Good(s) && s.cap > 0 && x < s.head
    ensures x < s.Tail() <==> s.head - x > s.cap
  {
  }

  /** A run that loses a row: with a ring of one row, two rows are published and received before the flush.
      Both count as sent and none as dropped, but only the second is left to go out. */
  lemma LostBeforeFlush()
    ensures var s := Run(Fresh(0, 1, All), [Publish, Publish, Receive, Receive]);
            && s.sent == [0, 1] && s.received == 2 && s.dropped == 0 && s.taken == 0
            && Survivors(s.sent[..s.received], s.Tail()) == [1]
  {
    var e := [Publish, Publish, Receive, Receive];
    var s0 := Fresh(0, 1, All);
    assert e[..3] == [Publish, Publish, Receive] && e[..3][..2] == [Publish, Publish] && e[..3][..2][..1] == [Publish]
        && e[..3][..2][..1][..0] == [];
    var s1 := Step(s0, Publish);
    assert s1.sent == [0] && s1.out == [0];
    var s2 := Step(s1, Publish);
    assert s2.sent == [0, 1] && s2.out == [0, 1];
    var s3 := Step(s2, Receive);
    var s4 := Step(s3, Receive);
    assert Run(s0, e[..3][..2][..1]) == s1;
    assert Run(s0, e[..3][..2]) == s2;
    assert Run(s0, e[..3]) == s3;
    assert Run(s0, e) == s4;
    assert [0, 1][..1] == [0] && [0][..0] == [];
    assert s4.sent[..2] == [0, 1];
    assert Survivors([0], 1) == [];
  }
}
