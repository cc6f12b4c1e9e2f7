/** Live delivery: one subscriber's bounded queue, its cursor, and what becomes of every row. */
module Delivery {
  import opened Queries
  import opened Sequences

  const QUEUE: nat := 1024

  /** What became of a row: queued for the client, dropped because the queue was full, gone from the
      ring before a paused subscriber caught up, or not asked for. */
  datatype Fate = Queued | Full | Gone | Rejected

  /** How a row was offered: under which filter, with how many rows queued, and where the ring began. */
  datatype Setting = Setting(filter: Filter, queued: nat, tail: nat)

  /** A subscriber of a store with `head` rows in a ring of `cap`. After `taken` the state keeps books:
      everything ever queued, how much of it was received, and what became of each row from `start`
      on, and how each was offered. */
  datatype State = State(head: nat, cap: nat, cursor: nat, paused: bool, filter: Filter, out: seq<nat>, dropped: nat,
                         taken: nat, start: nat, sent: seq<nat>, received: nat, fates: seq<Fate>, asked: seq<Setting>)
  {
    function Tail(): nat {
      if head > cap then head - cap else 0
    }

    function Now(): Setting {
      Setting(filter, |out|, Tail())
    }

    function Recorded(fate: Fate): State {
      this.(fates := fates + [fate], asked := asked + [Now()])
    }

    /** A row meets the filter and the queue. */
    function Offered(x: nat): State {
      if !Admits(filter)(x) then Recorded(Rejected)
      else if |out| < QUEUE then Recorded(Queued).(out := out + [x], sent := sent + [x])
      else Recorded(Full).(dropped := dropped + 1)
    }

    function OfferedUpTo(from: nat, until: nat): State
      decreases until - from
    {
      if from >= until then this else Offered(from).OfferedUpTo(from + 1, until)
    }

    /** The rows before the ring are lost to a cursor that is behind it. */
    function Skipped(n: nat): State {
      this.(dropped := dropped + n, fates := fates + Repeat(n, Gone), asked := asked + Repeat(n, Now()))
    }
  }

  datatype Event = Publish | Pause | Resume | Receive | TakeDropped | SetFilter(filter: Filter)

  /** What one event does; each is atomic. */
  function Step(s: State, e: Event): State {
    match e
    case Publish =>
      if s.paused then s.(head := s.head + 1)
      else
        var s' := s.(head := s.head + 1).Offered(s.head);
        s'.(cursor := if s.head + 1 > s.cursor then s.head + 1 else s.cursor)
    case Pause => s.(paused := true)
    case Resume =>
      var s' := if s.cursor < s.Tail() then s.Skipped(s.Tail() - s.cursor) else s;
      var from := if s.cursor < s.Tail() then s.Tail() else s.cursor;
      s'.OfferedUpTo(from, s.head).(cursor := if s.head > s.cursor then s.head else s.cursor, paused := false)
    case Receive => if s.out == [] then s else s.(out := s.out[1..], received := s.received + 1)
    case TakeDropped => s.(dropped := 0, taken := s.taken + s.dropped)
    case SetFilter(f) => s.(filter := f)
  }

  /** A new subscriber that wants live rows only. */
  function Fresh(head: nat, cap: nat, filter: Filter): State {
    State(head, cap, head, false, filter, [], 0, 0, head, [], 0, [], [])
  }

  function Run(s: State, events: seq<Event>): State
    decreases |events|
  {
    if events == [] then s else Step(Run(s, events[..|events| - 1]), events[|events| - 1])
  }

  /** The rows with this fate, in order. */
  function Rows(start: nat, fates: seq<Fate>, fate: Fate): seq<nat> {
    if fates == [] then []
    else
      var n := |fates| - 1;
      Rows(start, fates[..n], fate) + if fates[n] == fate then [start + n] else []
  }

  /** A row was rejected or let through by the filter of its time, dropped only when the queue was full, and
      lost only when it had left the ring. */
  ghost predicate Judged(fate: Fate, x: nat, offer: Setting) {
    match fate
    case Queued => Admits(offer.filter)(x) && offer.queued < QUEUE
    case Full => Admits(offer.filter)(x) && offer.queued == QUEUE
    case Rejected => !Admits(offer.filter)(x)
    case Gone => x < offer.tail
  }

  /** The books are right for the rows from `start` up to `at`. */
  ghost predicate Balanced(s: State, at: nat) {
    && s.start <= at && |s.fates| == |s.asked| == at - s.start
    && s.sent == Rows(s.start, s.fates, Queued)
    && s.received <= |s.sent| && s.out == s.sent[s.received..] && |s.out| <= QUEUE
    && s.dropped + s.taken == |Rows(s.start, s.fates, Full)| + |Rows(s.start, s.fates, Gone)|
    && forall i :: 0 <= i < |s.fates| ==> Judged(s.fates[i], s.start + i, s.asked[i])
  }

  /** The invariant: the books are right up to the cursor, and an active subscriber is up to date. */
  ghost predicate Good(s: State) {
    && Balanced(s, s.cursor) && s.cursor <= s.head && (!s.paused ==> s.cursor == s.head)
  }

  lemma RowsPush(start: nat, fates: seq<Fate>, f: Fate, fate: Fate)
    ensures Rows(start, fates + [f], fate) == Rows(start, fates, fate) + if f == fate then [start + |fates|] else []
  {
    assert (fates + [f])[..|fates|] == fates;
  }

  lemma OfferBalances(s: State, x: nat)
    requires Balanced(s, x)
    ensures Balanced(s.Offered(x), x + 1)
    ensures s.Offered(x).(fates := s.fates, asked := s.asked, out := s.out, sent := s.sent, dropped := s.dropped) == s
  {
    hide Rows;
    var s' := s.Offered(x);
    var f := s'.fates[|s.fates|];
    RowsPush(s.start, s.fates, f, Queued);
    RowsPush(s.start, s.fates, f, Full);
    RowsPush(s.start, s.fates, f, Gone);
  }

  lemma {:induction false} OffersBalance(s: State, from: nat, until: nat)
    requires Balanced(s, from) && from <= until
    ensures Balanced(s.OfferedUpTo(from, until), until)
    ensures s.OfferedUpTo(from, until).(fates := s.fates, asked := s.asked, out := s.out, sent := s.sent,
        dropped := s.dropped)
         == s
    decreases until - from
  {
    hide Balanced;
    if from < until {
      OfferBalances(s, from);
      OffersBalance(s.Offered(from), from + 1, until);
    }
  }

  lemma {:induction false} SkipRows(start: nat, fates: seq<Fate>, n: nat, fate: Fate)
    ensures var more := fates + Repeat(n, Gone);
            if fate == Gone then |Rows(start, more, Gone)| == |Rows(start, fates, Gone)| + n
            else Rows(start, more, fate) == Rows(start, fates, fate)
    decreases n
  {
    if n == 0 {
      assert fates + Repeat(n, Gone) == fates;
    } else {
      SkipRows(start, fates, n - 1, fate);
      RowsPush(start, fates + Repeat(n - 1, Gone), Gone, fate);
      assert fates + Repeat(n, Gone) == (fates + Repeat(n - 1, Gone)) + [Gone];
    }
  }

  lemma SkipBalances(s: State, at: nat, n: nat)
    requires Balanced(s, at) && at + n <= s.Tail()
    ensures Balanced(s.Skipped(n), at + n)
  {
    hide Rows;
    SkipRows(s.start, s.fates, n, Queued);
    SkipRows(s.start, s.fates, n, Full);
    SkipRows(s.start, s.fates, n, Gone);
  }

  lemma ReceiveBalances(s: State)
    requires Good(s)
    ensures Good(Step(s, Receive))
  {
    hide Rows;
    if s.out != [] {
      assert s.sent[s.received..][1..] == s.sent[s.received + 1..];
    }
  }

  lemma ResumeBalances(s: State)
    requires Good(s)
    ensures Good(Step(s, Resume)) && Step(s, Resume).start == s.start && Step(s, Resume).cap == s.cap
  {
    hide Balanced, State.Skipped, State.OfferedUpTo, State.Tail;
    var behind := s.cursor < s.Tail();
    TailBelow(s);
    if behind {
      SkipBalances(s, s.cursor, s.Tail() - s.cursor);
      SkipKeeps(s, s.Tail() - s.cursor);
    }
    var s', from := if behind then s.Skipped(s.Tail() - s.cursor) else s, if behind then s.Tail() else s.cursor;
    OffersBalance(s', from, s.head);
    BalancedElsewhere(s'.OfferedUpTo(from, s.head), s.head, false);
  }

  lemma TailBelow(s: State)
    ensures s.Tail() <= s.head
  {
  }

  lemma SkipKeeps(s: State, n: nat)
    ensures s.Skipped(n).(fates := s.fates, asked := s.asked, dropped := s.dropped) == s
  {
    hide Repeat;
  }

  /** The books do not depend on the cursor and the pause. */
  lemma BalancedElsewhere(s: State, at: nat, paused: bool)
    requires Balanced(s, at)
    ensures Balanced(s.(cursor := at, paused := paused), at)
  {
    hide Rows;
  }

  lemma StepGood(s: State, e: Event)
    requires Good(s)
    ensures Good(Step(s, e)) && Step(s, e).start == s.start && Step(s, e).cap == s.cap
  {
    hide Rows;
    match e
    case Publish =>
      if !s.paused {
        OfferBalances(s.(head := s.head + 1), s.head);
      }
    case Resume => ResumeBalances(s);
    case Receive => ReceiveBalances(s);
    case _ =>
  }

  /** The invariant holds over every run. */
  lemma {:induction false} RunGood(head: nat, cap: nat, filter: Filter, events: seq<Event>)
    ensures var s := Run(Fresh(head, cap, filter), events); Good(s) && s.start == head && s.cap == cap
    decreases |events|
  {
    if events != [] {
      RunGood(head, cap, filter, events[..|events| - 1]);
      StepGood(Run(Fresh(head, cap, filter), events[..|events| - 1]), events[|events| - 1]);
    }
  }

  lemma {:induction false} RowsAscend(start: nat, fates: seq<Fate>, fate: Fate)
    ensures forall x :: x in Rows(start, fates, fate) <==> start <= x < start + |fates| && fates[x - start] == fate
    ensures Ascending(Rows(start, fates, fate))
    decreases |fates|
  {
    if fates != [] {
      var n := |fates| - 1;
      RowsAscend(start, fates[..n], fate);
      var before := Rows(start, fates[..n], fate);
      forall i | 0 <= i < |before| ensures before[i] < start + n {
        assert before[i] in before;
      }
    }
  }

  lemma {:induction false} FatesPartition(start: nat, fates: seq<Fate>)
    ensures |Rows(start, fates, Queued)| + |Rows(start, fates, Full)| + |Rows(start, fates, Gone)|
            + |Rows(start, fates, Rejected)| == |fates|
    decreases |fates|
  {
    if fates != [] {
      FatesPartition(start, fates[..|fates| - 1]);
    }
  }

  /** Conservation and order over every run: the client is sent strictly increasing numbers, what it has
      received is the beginning of them, every row since the subscription has exactly one fate, and all
      that is not sent or counted as dropped was rejected by the filter. */
  lemma EveryRowAccounted(head: nat, cap: nat, filter: Filter, events: seq<Event>)
    ensures var s := Run(Fresh(head, cap, filter), events);
            && Ascending(s.sent) && s.received <= |s.sent| && s.sent[..s.received] + s.out == s.sent
            && |s.sent| + s.dropped + s.taken + |Rows(head, s.fates, Rejected)| == s.cursor - head
            && (!s.paused ==> s.cursor == s.head)
  {
    RunGood(head, cap, filter, events);
    var s := Run(Fresh(head, cap, filter), events);
    RowsAscend(head, s.fates, Queued);
    FatesPartition(head, s.fates);
  }

  ghost predicate NeverFiltered(events: seq<Event>) {
    forall e :: e in events ==> !e.SetFilter?
  }

  lemma {:induction false} OffersAsk(s: State, from: nat, until: nat)
    requires forall f :: f in s.asked ==> f.filter == s.filter
    ensures forall f :: f in s.OfferedUpTo(from, until).asked ==> f.filter == s.filter
    ensures s.OfferedUpTo(from, until).filter == s.filter
    decreases until - from
  {
    if from < until {
      OffersAsk(s.Offered(from), from + 1, until);
    }
  }

  lemma StepAsks(s: State, e: Event)
    requires (forall f :: f in s.asked ==> f.filter == s.filter) && !e.SetFilter?
    ensures Step(s, e).filter == s.filter && forall f :: f in Step(s, e).asked ==> f.filter == s.filter
  {
    if e == Resume {
      var behind := s.cursor < s.Tail();
      OffersAsk(if behind then s.Skipped(s.Tail() - s.cursor) else s, if behind then s.Tail() else s.cursor, s.head);
    }
  }

  lemma {:induction false} RunAsks(head: nat, cap: nat, filter: Filter, events: seq<Event>)
    requires NeverFiltered(events)
    ensures var s := Run(Fresh(head, cap, filter), events);
            s.filter == filter && forall f :: f in s.asked ==> f.filter == filter
    decreases |events|
  {
    if events != [] {
      RunAsks(head, cap, filter, events[..|events| - 1]);
      StepAsks(Run(Fresh(head, cap, filter), events[..|events| - 1]), events[|events| - 1]);
    }
  }

  /** Rows that match are sent or counted; a row that is neither does not match. */
  lemma {:induction false} MatchesCounted(start: nat, fates: seq<Fate>, keep: nat -> bool)
    requires forall i :: 0 <= i < |fates| && fates[i] == Rejected ==> !keep(start + i)
    ensures |Filtered(keep, start, start + |fates|)|
         <= |Rows(start, fates, Queued)| + |Rows(start, fates, Full)| + |Rows(start, fates, Gone)|
    decreases |fates|
  {
    if fates != [] {
      MatchesCounted(start, fates[..|fates| - 1], keep);
    }
  }

  lemma {:induction false} NoneRejected(start: nat, fates: seq<Fate>)
    requires Rejected !in fates
    ensures Rows(start, fates, Rejected) == []
    decreases |fates|
  {
    if fates != [] {
      NoneRejected(start, fates[..|fates| - 1]);
    }
  }

  /** Under one filter, the rows sent and the drops reported together cover every match and exceed no
      row; without a filter they are exactly the rows published since. */
  lemma DropsCoverMatches(head: nat, cap: nat, filter: Filter, events: seq<Event>)
    requires NeverFiltered(events)
    ensures var s := Run(Fresh(head, cap, filter), events);
            && head <= s.cursor
            && |Filtered(Admits(filter), head, s.cursor)| <= |s.sent| + s.dropped + s.taken <= s.cursor - head
            && (filter.All? ==> |s.sent| + s.dropped + s.taken == s.cursor - head)
  {
    RunGood(head, cap, filter, events);
    RunAsks(head, cap, filter, events);
    EveryRowAccounted(head, cap, filter, events);
    CountsCover(Run(Fresh(head, cap, filter), events), filter);
  }

  lemma CountsCover(s: State, filter: Filter)
    requires Balanced(s, s.cursor) && forall f :: f in s.asked ==> f.filter == filter
    ensures |Filtered(Admits(filter), s.start, s.cursor)| <= |s.sent| + s.dropped + s.taken
    ensures filter.All? ==> Rows(s.start, s.fates, Rejected) == []
  {
    hide Rows;
    forall i | 0 <= i < |s.fates| && s.fates[i] == Rejected ensures !Admits(filter)(s.start + i) {
      assert s.asked[i] in s.asked && Judged(s.fates[i], s.start + i, s.asked[i]);
    }
    MatchesCounted(s.start, s.fates, Admits(filter));
    if filter.All? {
      NoneRejected(s.start, s.fates);
    }
  }

  /** One publication to an active subscriber: the row is sent exactly if the filter admits it and the queue
      has room, and counted as dropped exactly if the filter admits it and the queue is full. */
  lemma PublishSends(s: State)
    requires Good(s) && !s.paused
    ensures var s' := Step(s, Publish);
            && (s'.sent == s.sent + [s.head] && s'.out == s.out + [s.head]
                <==> Admits(s.filter)(s.head) && |s.out| < QUEUE)
            && (s'.sent == s.sent && s'.out == s.out <==> !Admits(s.filter)(s.head) || |s.out| == QUEUE)
            && (s'.dropped == s.dropped + 1 <==> Admits(s.filter)(s.head) && |s.out| == QUEUE)
            && (s'.dropped == s.dropped <==> !Admits(s.filter)(s.head) || |s.out| < QUEUE)
            && s'.cursor == s'.head == s.head + 1 && !s'.paused
            && s'.filter == s.filter && s'.received == s.received && s'.taken == s.taken
  {
    hide Rows;
    assert |s.sent + [s.head]| != |s.sent| && |s.out + [s.head]| != |s.out|;
  }

  /** Nothing that a paused subscriber is not asked for reaches it. */
  ghost predicate Quiet(events: seq<Event>) {
    forall e :: e in events ==> e == Publish || e == Pause || e.SetFilter?
  }

  /** Pausing takes effect at once, and from then on rows are neither sent nor dropped and the cursor stands
      still, whatever is published. */
  lemma {:induction false} PausedStandsStill(s: State, events: seq<Event>)
    requires Quiet(events)
    ensures var s' := Run(Step(s, Pause), events);
            && s'.paused && s'.sent == s.sent && s'.out == s.out && s'.dropped == s.dropped && s'.cursor == s.cursor
            && s'.taken == s.taken && s'.received == s.received
    decreases |events|
  {
    if events != [] {
      var before := events[..|events| - 1];
      assert forall e :: e in before ==> e in events;
      PausedStandsStill(s, before);
      assert events[|events| - 1] in events;
    }
  }

  /** The client's side: the oldest queued row is received and leaves the queue, the drop counter is handed over
      and starts again at zero, and a new filter holds from then on; nothing else changes. */
  lemma ClientMoves(s: State, f: Filter)
    requires Good(s)
    ensures var s' := Step(s, Receive);
            && s'.received == (if s.out == [] then s.received else s.received + 1)
            && s'.sent == s.sent && s'.sent[..s'.received] + s'.out == s.sent
            && s'.dropped == s.dropped && s'.cursor == s.cursor && s'.paused == s.paused && s'.filter == s.filter
    ensures var s' := Step(s, TakeDropped);
            && s'.dropped == 0 && s'.taken == s.taken + s.dropped && s'.sent == s.sent && s'.out == s.out
            && s'.received == s.received && s'.cursor == s.cursor && s'.paused == s.paused && s'.filter == s.filter
    ensures var s' := Step(s, SetFilter(f));
            && s'.filter == f && s'.sent == s.sent && s'.out == s.out && s'.dropped == s.dropped
            && s'.received == s.received && s'.cursor == s.cursor && s'.paused == s.paused
  {
    hide Rows;
    ReceiveBalances(s);
  }

  function Least(a: int, b: int): int {
    if a < b then a else b
  }

  lemma {:induction false} OffersSend(s: State, from: nat, until: nat)
    requires from <= until && |s.out| <= QUEUE
    ensures var missed, s' := Filtered(Admits(s.filter), from, until), s.OfferedUpTo(from, until);
            var n := Least(|missed|, QUEUE - |s.out|);
            && s'.sent == s.sent + missed[..n] && s'.out == s.out + missed[..n]
            && s'.dropped == s.dropped + |missed| - n
    decreases until - from
  {
    hide Filtered;
    var keep := Admits(s.filter);
    if from < until {
      FilteredFirst(keep, from, until);
      OffersSend(s.Offered(from), from + 1, until);
      if keep(from) {
        TakeFirst(from, Filtered(keep, from + 1, until), QUEUE - |s.out|);
      }
    } else {
      FilteredNone(keep, from, until);
    }
  }

  lemma FilteredFirst(keep: nat -> bool, from: nat, until: nat)
    requires from < until
    ensures Filtered(keep, from, until) == (if keep(from) then [from] else []) + Filtered(keep, from + 1, until)
  {
    FilteredSplit(keep, from, from + 1, until);
    assert Filtered(keep, from, from) == [];
  }

  lemma TakeFirst(x: nat, rest: seq<nat>, room: nat)
    ensures room > 0 ==> ([x] + rest)[..Least(|rest| + 1, room)] == [x] + rest[..Least(|rest|, room - 1)]
    ensures room == 0 ==> ([x] + rest)[..Least(|rest| + 1, room)] == rest[..Least(|rest|, room)] == []
  {
  }

  /** Resuming in general: of the matching rows that were missed and are still in the ring as many are sent,
      oldest first, as the queue has room for; the others are counted, and so is every row that has gone. */
  lemma ResumeSends(s: State)
    requires Good(s)
    ensures var from := if s.cursor < s.Tail() then s.Tail() else s.cursor;
            var missed, s' := Filtered(Admits(s.filter), from, s.head), Step(s, Resume);
            var n := Least(|missed|, QUEUE - |s.out|);
            && s'.sent == s.sent + missed[..n] && s'.out == s.out + missed[..n]
            && s'.dropped == s.dropped + (from - s.cursor) + (|missed| - n)
            && s'.cursor == s.head && !s'.paused
  {
    hide Rows, State.OfferedUpTo;
    TailBelow(s);
    if s.cursor < s.Tail() {
      SkipKeeps(s, s.Tail() - s.cursor);
      OffersSend(s.Skipped(s.Tail() - s.cursor), s.Tail(), s.head);
    } else {
      OffersSend(s, s.cursor, s.head);
    }
  }

  /** Catching up: after a pause with no eviction and room in the queue, resuming sends exactly the
      matching rows that were missed, and drops nothing. */
  lemma ResumeCatchesUp(s: State)
    requires Good(s) && s.cursor >= s.Tail()
    requires |s.out| + |Filtered(Admits(s.filter), s.cursor, s.head)| <= QUEUE
    ensures var s' := Step(s, Resume);
            && s'.sent == s.sent + Filtered(Admits(s.filter), s.cursor, s.head)
            && s'.dropped == s.dropped && s'.cursor == s.head && !s'.paused
  {
    hide Good, Step, State.Tail, Filtered;
    ResumeSends(s);
    var missed := Filtered(Admits(s.filter), s.cursor, s.head);
    assert missed[..|missed|] == missed;
  }

  /** One subscriber, with its books as ghost state. */
  class Subscriber {
    var cursor: nat
    var paused: bool
    var filter: Filter
    var out: seq<nat>
    var dropped: nat

    ghost var head: nat
    ghost var cap: nat
    ghost var taken: nat
    ghost var start: nat
    ghost var sent: seq<nat>
    ghost var received: nat
    ghost var fates: seq<Fate>
    ghost var asked: seq<Setting>

    ghost function St(): State
      reads this
    {
      State(head, cap, cursor, paused, filter, out, dropped, taken, start, sent, received, fates, asked)
    }

    constructor (filter: Filter, head: nat, ghost cap: nat)
      ensures St() == Fresh(head, cap, filter) && Good(St())
    {
      cursor, paused, this.filter, out, dropped := head, false, filter, [], 0;
      this.head, this.cap, taken, start, sent, received, fates, asked := head, cap, 0, head, [], 0, [], [];
    }

    /** Queues a row, or counts it when the queue is full; rows already queued are never touched. */
    method Deliver(x: nat)
      requires Admits(filter)(x)
      modifies this
      ensures St() == old(St()).Offered(x) && cursor == old(cursor)
    {
      asked := asked + [St().Now()];
      if |out| < QUEUE {
        out, sent, fates := out + [x], sent + [x], fates + [Queued];
      } else {
        dropped, fates := dropped + 1, fates + [Full];
      }
    }

    method Offer(x: nat)
      modifies this
      ensures St() == old(St()).Offered(x) && cursor == old(cursor)
    {
      if filter.All? || filter.keep(x) {
        Deliver(x);
      } else {
        fates, asked := fates + [Rejected], asked + [St().Now()];
      }
    }

    /** A row has just been appended. */
    method Publish(seqNo: nat)
      requires Good(St()) && seqNo == head
      modifies this
      ensures St() == Step(old(St()), Event.Publish) && Good(St())
    {
      hide Good;
      StepGood(St(), Event.Publish);
      head := head + 1;
      if paused {
        return;
      }
      Offer(seqNo);
      if seqNo + 1 > cursor {
        cursor := seqNo + 1;
      }
    }

    method Pause()
      requires Good(St())
      modifies this
      ensures St() == Step(old(St()), Event.Pause) && Good(St())
    {
      hide Good;
      StepGood(St(), Event.Pause);
      paused := true;
    }

    /** Walks from the cursor to the head; rows that have left the ring meanwhile count as dropped. */
    method Resume(until: nat, tail: nat)
      requires Good(St()) && until == head && tail == St().Tail()
      modifies this
      ensures St() == Step(old(St()), Event.Resume) && Good(St())
    {
      hide Good, State.Skipped, State.OfferedUpTo, State.Tail;
      StepGood(St(), Event.Resume);
      var cur := SkipTo(tail);
      OfferAll(cur, until);
      if until > cursor {
        cursor := until;
      }
      paused := false;
    }

    method SkipTo(tail: nat) returns (cur: nat)
      modifies this
      ensures cursor == old(cursor) && cur == if cursor < tail then tail else cursor
      ensures St() == if cursor < tail then old(St()).Skipped(tail - cursor) else old(St())
    {
      hide Repeat;
      cur := cursor;
      if cur < tail {
        ghost var lost := St().Now();
        dropped := dropped + (tail - cur);
        fates, asked := fates + Repeat(tail - cur, Gone), asked + Repeat(tail - cur, lost);
        cur := tail;
      }
    }

    method OfferAll(from: nat, until: nat)
      modifies this
      ensures St() == old(St()).OfferedUpTo(from, until) && cursor == old(cursor)
    {
      hide State.Offered;
      var c := from;
      while c < until
        invariant cursor == old(cursor) && St().OfferedUpTo(c, until) == old(St()).OfferedUpTo(from, until)
      {
        Offer(c);
        c := c + 1;
      }
    }

    /** The client takes the oldest queued row, if there is one. */
    method Receive() returns (x: nat, ok: bool)
      requires Good(St())
      modifies this
      ensures St() == Step(old(St()), Event.Receive) && Good(St())
      ensures ok == (old(out) != []) && (ok ==> x == old(out)[0])
    {
      StepGood(St(), Event.Receive);
      x, ok := 0, false;
      if out != [] {
        x, ok := out[0], true;
        out, received := out[1..], received + 1;
      }
    }

    /** Reads and clears the drop counter. */
    method TakeDropped() returns (n: nat)
      requires Good(St())
      modifies this
      ensures St() == Step(old(St()), Event.TakeDropped) && Good(St()) && n == old(dropped)
    {
      hide Good;
      StepGood(St(), Event.TakeDropped);
      n := dropped;
      dropped, taken := 0, taken + n;
    }

    method SetFilter(f: Filter)
      requires Good(St())
      modifies this
      ensures St() == Step(old(St()), Event.SetFilter(f)) && Good(St())
    {
      hide Good;
      StepGood(St(), Event.SetFilter(f));
      filter := f;
    }
  }
}
