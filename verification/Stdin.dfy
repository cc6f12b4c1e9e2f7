/** Line reassembly for piped input: chunks come in as they are read, whole lines go out. */
module Piping {
  import opened Options

  /** The index of the first newline, or the length. */
  function Newline(t: string): (k: nat)
    ensures k <= |t| && (k < |t| ==> t[k] == '\n') && forall i :: 0 <= i < k ==> t[i] != '\n'
  {
    if t == "" || t[0] == '\n' then 0 else 1 + Newline(t[1..])
  }

  /** What the first newline ends, unless that is empty. */
  function FrontLine(t: string): seq<string> {
    if Newline(t) == 0 then [] else [t[..Newline(t)]]
  }

  function AfterNewline(t: string): (r: string)
    requires Newline(t) < |t|
    ensures |r| < |t|
  {
    t[Newline(t) + 1..]
  }

  /** The non-empty lines that a newline ends. */
  function Lines(t: string): seq<string>
    decreases |t|
  {
    if Newline(t) == |t| then [] else FrontLine(t) + Lines(AfterNewline(t))
  }

  /** What follows the last newline. */
  function Rest(t: string): string
    decreases |t|
  {
    if Newline(t) == |t| then t else Rest(AfterNewline(t))
  }

  /** Where a line stands in the text. */
  ghost predicate LineAt(t: string, x: string, i: nat) {
    && i + |x| < |t| && t[i..i + |x|] == x && t[i + |x|] == '\n' && (i == 0 || t[i - 1] == '\n')
  }

  /** Every line stands in the text between newlines, is not empty and contains none. */
  lemma {:induction false} LinesMeaning(t: string, x: string) returns (i: nat)
    requires x in Lines(t)
    ensures x != "" && '\n' !in x && LineAt(t, x, i)
    decreases |t|
  {
    hide LineAt;
    var k := Newline(t);
    if k > 0 && x == t[..k] {
      i := 0;
      FirstLine(t, k);
    } else {
      var j := LinesMeaning(t[k + 1..], x);
      i := j + k + 1;
      LineLater(t, k, x, j);
    }
  }

  lemma FirstLine(t: string, k: nat)
    requires k < |t| && t[k] == '\n'
    ensures LineAt(t, t[..k], 0)
  {
  }

  lemma LineLater(t: string, k: nat, x: string, j: nat)
    requires k < |t| && t[k] == '\n' && LineAt(t[k + 1..], x, j)
    ensures LineAt(t, x, j + k + 1)
  {
    assert t[j + k + 1..j + k + 1 + |x|] == t[k + 1..][j..j + |x|];
  }

  /** No line is left out: whatever stands between newlines and is not empty is one of them. */
  lemma {:induction false} LinesComplete(t: string, x: string, i: nat)
    requires LineAt(t, x, i) && x != "" && '\n' !in x
    ensures x in Lines(t)
    decreases |t|
  {
    hide LineAt, FrontLine, AfterNewline;
    LinePlace(t, x, i);
    FrontAndAfter(t);
    if i > 0 {
      LinesComplete(AfterNewline(t), x, i - Newline(t) - 1);
    }
  }

  lemma NewlineBy(t: string, j: nat)
    requires j < |t| && t[j] == '\n'
    ensures Newline(t) <= j
  {
  }

  lemma LineShorter(t: string, k: nat, x: string, i: nat)
    requires LineAt(t, x, i) && k < i
    ensures LineAt(t[k + 1..], x, i - k - 1)
  {
    var later, j := t[k + 1..], i - k - 1;
    assert later[j..j + |x|] == t[i..i + |x|];
    assert later[j + |x|] == t[i + |x|] && (j > 0 ==> later[j - 1] == t[i - 1]);
  }

  lemma LineMarks(t: string, x: string, i: nat)
    requires LineAt(t, x, i)
    ensures i + |x| < |t| && t[i + |x|] == '\n' && (i > 0 ==> t[i - 1] == '\n')
    ensures forall j :: 0 <= j < |x| ==> t[i + j] == x[j]
  {
    forall j | 0 <= j < |x| ensures t[i + j] == x[j] {
      assert t[i..i + |x|][j] == t[i + j];
    }
  }

  lemma FirstPlace(t: string, x: string)
    requires LineAt(t, x, 0) && '\n' !in x
    ensures Newline(t) == |x| && t[..|x|] == x
  {
    hide LineAt, Newline;
    LineMarks(t, x, 0);
    NewlineBy(t, |x|);
    forall j | 0 <= j < |x| ensures t[j] == x[j] != '\n' {
      assert t[0 + j] == x[j] && x[j] in x;
    }
    assert Newline(t) >= |x|;
  }

  /** A line is the first one, or stands behind the first newline. */
  lemma LinePlace(t: string, x: string, i: nat)
    requires LineAt(t, x, i) && '\n' !in x
    ensures Newline(t) < |t|
    ensures i == 0 ==> Newline(t) == |x| && t[..|x|] == x
    ensures i > 0 ==> i > Newline(t) && LineAt(t[Newline(t) + 1..], x, i - Newline(t) - 1)
  {
    hide Newline, LineAt;
    LineMarks(t, x, i);
    if i == 0 {
      FirstPlace(t, x);
    } else {
      NewlineBy(t, i - 1);
      LineShorter(t, Newline(t), x, i);
    }
  }

  /** These pieces, each ended by a newline. */
  function Ended(pieces: seq<string>): string {
    if pieces == [] then "" else pieces[0] + "\n" + Ended(pieces[1..])
  }

  function NonEmpty(pieces: seq<string>): seq<string> {
    if pieces == [] then [] else (if pieces[0] == "" then [] else [pieces[0]]) + NonEmpty(pieces[1..])
  }

  ghost predicate Whole(pieces: seq<string>) {
    forall i :: 0 <= i < |pieces| ==> '\n' !in pieces[i]
  }

  lemma FirstPiece(x: string, more: string)
    requires '\n' !in x
    ensures var t := x + "\n" + more; Newline(t) == |x| < |t| && t[..|x|] == x && t[|x| + 1..] == more
  {
    var t := x + "\n" + more;
    assert t[|x|] == '\n' && forall i :: 0 <= i < |x| ==> t[i] == x[i];
  }

  /** Exactly the lines, in order and as often as they come: of pieces ended by newlines and a rest without
      one, the lines are the pieces that are not empty, and the rest is the rest. */
  lemma {:induction false} LinesOfPieces(pieces: seq<string>, rest: string)
    requires Whole(pieces) && '\n' !in rest
    ensures Lines(Ended(pieces) + rest) == NonEmpty(pieces) && Rest(Ended(pieces) + rest) == rest
    decreases |pieces|
  {
    hide Newline, FrontLine, AfterNewline;
    var t := Ended(pieces) + rest;
    if pieces == [] {
      assert t == rest;
      NoNewline(rest);
    } else {
      var later := Ended(pieces[1..]) + rest;
      assert t == pieces[0] + "\n" + later;
      FirstPiece(pieces[0], later);
      FrontAndAfter(t);
      LinesOfPieces(pieces[1..], rest);
    }
  }

  lemma NoNewline(t: string)
    requires '\n' !in t
    ensures Newline(t) == |t|
  {
  }

  lemma FrontAndAfter(t: string)
    requires Newline(t) < |t|
    ensures FrontLine(t) == if Newline(t) == 0 then [] else [t[..Newline(t)]]
    ensures AfterNewline(t) == t[Newline(t) + 1..]
  {
  }

  /** And every text is made of such pieces and a rest. */
  lemma {:induction false} EveryTextHasPieces(t: string) returns (pieces: seq<string>, rest: string)
    ensures Whole(pieces) && '\n' !in rest && t == Ended(pieces) + rest
    decreases |t|
  {
    var k := Newline(t);
    if k == |t| {
      pieces, rest := [], t;
    } else {
      var more;
      more, rest := EveryTextHasPieces(t[k + 1..]);
      pieces := [t[..k]] + more;
      assert Ended(pieces) == t[..k] + "\n" + Ended(more);
      assert t == t[..k] + "\n" + t[k + 1..];
    }
  }

  /** The rest contains no newline, ends the text, and starts it or follows a newline. */
  lemma {:induction false} RestMeaning(t: string)
    ensures '\n' !in Rest(t) && |Rest(t)| <= |t| && t[|t| - |Rest(t)|..] == Rest(t)
    ensures |Rest(t)| < |t| ==> t[|t| - |Rest(t)| - 1] == '\n'
    decreases |t|
  {
    var k := Newline(t);
    if k < |t| {
      RestMeaning(t[k + 1..]);
    }
  }

  lemma NewlineIn(a: string, b: string)
    ensures Newline(a) < |a| ==> Newline(a + b) == Newline(a)
    ensures Newline(a) == |a| ==> Newline(a + b) == |a| + Newline(b)
  {
    var s, k := a + b, Newline(a + b);
    if Newline(a) < |a| {
      assert s[Newline(a)] == '\n';
    } else {
      assert forall i :: 0 <= i < |b| ==> b[i] == s[|a| + i];
    }
    assert forall i :: 0 <= i < |a| ==> a[i] == s[i];
    assert k <= |s|;
  }

  /** However the text is cut in two, the lines are those of the first part and then those of its rest
      and the second part. */
  lemma {:induction false} LinesSplit(a: string, b: string)
    ensures Lines(a + b) == Lines(a) + Lines(Rest(a) + b)
    ensures Rest(a + b) == Rest(Rest(a) + b)
    decreases |a|
  {
    hide Newline, FrontLine, AfterNewline;
    if Newline(a) < |a| {
      FrontStays(a, b);
      LinesSplit(AfterNewline(a), b);
    } else {
      assert [] + Lines(a + b) == Lines(a + b);
    }
  }

  lemma FrontStays(a: string, b: string)
    requires Newline(a) < |a|
    ensures Newline(a + b) < |a + b| && FrontLine(a + b) == FrontLine(a) && AfterNewline(a + b) == AfterNewline(a) + b
  {
    NewlineIn(a, b);
    var k := Newline(a);
    assert (a + b)[k + 1..] == a[k + 1..] + b && (a + b)[..k] == a[..k];
  }

  /** The reader is draining the buffer, waits to be notified, or has returned. */
  datatype Reader = Draining | Waiting | Returned

  /** The shared buffer with its reader. `pushed`, `emitted` and `doneAt` keep books: all bytes that came
      in, all lines that went out, and how many bytes had come in when the reader returned. */
  datatype State = State(buf: string, closed: bool, notified: bool, reader: Reader, pushed: string,
      emitted: seq<string>,
                         doneAt: nat)

  datatype Event = Push(chunk: string, eof: bool) | Close | Turn

  /** Reading from a buffer: the next non-empty line, and what is left. */
  function NextLine(buf: string): (Option<string>, string)
    decreases |buf|
  {
    var k := Newline(buf);
    if k == |buf| then (None, buf)
    else if k == 0 then NextLine(buf[1..])
    else (Some(buf[..k]), buf[k + 1..])
  }

  /** One stretch of the reader between two points where others may run. */
  function TurnOf(s: State): State {
    match s.reader
    case Returned => s
    case Waiting => if s.notified then s.(notified := false, reader := Draining) else s
    case Draining =>
      var (line, left) := NextLine(s.buf);
      if line.Some? then s.(buf := left, emitted := s.emitted + [line.value])
      else if s.closed && left == "" then s.(buf := left, reader := Returned, doneAt := |s.pushed|)
      else s.(buf := left, reader := Waiting)
  }

  function Step(s: State, e: Event): State {
    match e
    case Push(chunk, eof) =>
      s.(buf := s.buf + chunk, closed := s.closed || eof, notified := true, pushed := s.pushed + chunk)
    case Close => s.(closed := true, notified := true)
    case Turn => TurnOf(s)
  }

  const START := State("", false, false, Draining, "", [], 0)

  function Run(events: seq<Event>): State
    decreases |events|
  {
    if events == [] then START else Step(Run(events[..|events| - 1]), events[|events| - 1])
  }

  function Pushed(events: seq<Event>): string
    decreases |events|
  {
    if events == [] then ""
    else
      var e := events[|events| - 1];
      Pushed(events[..|events| - 1]) + if e.Push? then e.chunk else ""
  }

  /** What went out and what is still in the buffer make up the input; a reader that waits without a
      notification has nothing left to do; and a reader that has returned had read everything. */
  ghost predicate Good(s: State) {
    && s.emitted + Lines(s.buf) == Lines(s.pushed) && Rest(s.buf) == Rest(s.pushed)
    && (s.reader == Waiting && !s.notified ==>
          s.emitted == Lines(s.pushed) && s.buf == Rest(s.pushed) && !(s.closed && s.buf == ""))
    && (s.reader == Returned ==>
          s.closed && s.doneAt <= |s.pushed| && s.emitted == Lines(s.pushed[..s.doneAt]) &&
              Rest(s.pushed[..s.doneAt]) == "")
  }

  lemma {:induction false} NextLineMeaning(buf: string)
    ensures var (line, left) := NextLine(buf);
            && Lines(buf) == (if line.Some? then [line.value] else []) + Lines(left) && Rest(buf) == Rest(left)
            && (line.None? ==> Lines(buf) == [] && left == Rest(buf))
            && |left| <= |buf| && (line.Some? ==> |left| < |buf|)
    decreases |buf|
  {
    var k := Newline(buf);
    if k == 0 && buf != "" {
      NextLineMeaning(buf[1..]);
    }
  }

  lemma StepGood(s: State, e: Event)
    requires Good(s)
    ensures Good(Step(s, e))
  {
    match e
    case Push(chunk, eof) => PushGood(s, chunk, eof);
    case Close =>
    case Turn => TurnGood(s);
  }

  lemma PushGood(s: State, chunk: string, eof: bool)
    requires Good(s)
    ensures Good(Step(s, Push(chunk, eof)))
  {
    hide Lines, Rest;
    LinesSplit(s.pushed, chunk);
    LinesSplit(s.buf, chunk);
    if s.reader == Returned {
      assert (s.pushed + chunk)[..s.doneAt] == s.pushed[..s.doneAt];
    }
  }

  lemma TurnGood(s: State)
    requires Good(s)
    ensures Good(TurnOf(s))
  {
    hide Lines, Rest, NextLine;
    NextLineMeaning(s.buf);
    assert s.pushed[..|s.pushed|] == s.pushed;
    RestIsDry(s.buf);
    if s.reader == Draining {
      var (line, left) := NextLine(s.buf);
      var more := if line.Some? then [line.value] else [];
      assert (s.emitted + more) + Lines(left) == s.emitted + (more + Lines(left));
      assert s.emitted + [] == s.emitted;
    }
  }

  lemma RestIsDry(buf: string)
    ensures Lines(Rest(buf)) == [] && Rest(Rest(buf)) == Rest(buf)
  {
    RestMeaning(buf);
    var r := Rest(buf);
    assert Newline(r) == |r|;
  }

  /** Over every run: the lines that went out are the first of the input's lines, the input's lines
      depend only on what was pushed in all and not on how it was cut, and no wake-up is lost. */
  lemma {:induction false} RunGood(events: seq<Event>)
    ensures Good(Run(events)) && Run(events).pushed == Pushed(events)
    decreases |events|
  {
    hide Step;
    if events != [] {
      RunGood(events[..|events| - 1]);
      StepGood(Run(events[..|events| - 1]), events[|events| - 1]);
      StepPushes(Run(events[..|events| - 1]), events[|events| - 1]);
    }
  }

  lemma StepPushes(s: State, e: Event)
    ensures Step(s, e).pushed == s.pushed + if e.Push? then e.chunk else ""
  {
    assert s.pushed + "" == s.pushed;
  }

  /** Two runs that receive the same bytes, in whatever chunks and with whatever scheduling, have emitted
      the same lines as soon as both readers are idle. */
  lemma ChunkingDoesNotMatter(events: seq<Event>, events': seq<Event>)
    requires Pushed(events) == Pushed(events')
    requires Run(events).reader == Waiting && !Run(events).notified
    requires Run(events').reader == Waiting && !Run(events').notified
    ensures Run(events).emitted == Run(events').emitted == Lines(Pushed(events))
    ensures Run(events).buf == Run(events').buf == Rest(Pushed(events))
  {
    RunGood(events);
    RunGood(events');
  }

  lemma TailHoldsReader(s: State, e: Event)
    requires Good(s) && s.reader != Returned && Rest(s.pushed) != "" && !e.Push?
    ensures Step(s, e).reader != Returned && Step(s, e).pushed == s.pushed
  {
    NextLineMeaning(s.buf);
  }

  /** Input that stops without a final newline is never finished: whatever happens later, short of more
      input, closing included, the reader does not return and the last line does not go out. */
  lemma {:induction false} TailNeverRead(events: seq<Event>, later: seq<Event>)
    requires Run(events).reader != Returned && Rest(Pushed(events)) != ""
    requires forall e :: e in later ==> !e.Push?
    ensures var s := Run(events + later);
        s.reader != Returned && s.pushed == Pushed(events) &&
        s.emitted <= Lines(s.pushed)
    decreases |later|
  {
    hide Run, Step, Good, Lines, Rest;
    RunGood(events + later);
    RunGood(events);
    EmittedAreLines(Run(events + later));
    if later == [] {
      assert events + later == events;
    } else {
      var n := |later| - 1;
      TailNeverRead(events, later[..n]);
      RunGood(events + later[..n]);
      RunStep(events, later);
      TailHoldsReader(Run(events + later[..n]), later[n]);
    }
  }

  lemma EmittedAreLines(s: State)
    requires Good(s)
    ensures s.emitted <= Lines(s.pushed)
  {
  }

  lemma RunStep(events: seq<Event>, later: seq<Event>)
    requires later != []
    ensures var n := |later| - 1; Run(events + later) == Step(Run(events + later[..n]), later[n])
  {
    hide Step;
    assert (events + later)[..|events + later| - 1] == events + later[..|later| - 1];
  }

  class Source {
    var buf: string
    var closed: bool
    var notified: bool
    ghost var reader: Reader
    ghost var pushed: string
    ghost var emitted: seq<string>
    ghost var doneAt: nat

    ghost function St(): State
      reads this
    {
      State(buf, closed, notified, reader, pushed, emitted, doneAt)
    }

    constructor ()
      ensures St() == START && Good(St())
    {
      buf, closed, notified, reader, pushed, emitted, doneAt := "", false, false, Draining, "", [], 0;
    }

    method Push(chunk: string, eof: bool)
      requires Good(St())
      modifies this
      ensures St() == Step(old(St()), Event.Push(chunk, eof)) && Good(St())
    {
      hide Good, TurnOf;
      StepGood(St(), Event.Push(chunk, eof));
      if |chunk| > 0 {
        buf := buf + chunk;
      } else {
        assert buf + chunk == buf;
      }
      if eof {
        closed := true;
      }
      notified, pushed := true, pushed + chunk;
      assert St() == Step(old(St()), Event.Push(chunk, eof));
    }

    method Close()
      requires Good(St())
      modifies this
      ensures St() == Step(old(St()), Event.Close) && Good(St())
    {
      closed, notified := true, true;
    }

    /** Reads up to the next non-empty line; without a newline nothing is taken. */
    method ReadLine() returns (line: Option<string>)
      modifies this`buf
      ensures (line, buf) == NextLine(old(buf))
    {
      while true
        invariant NextLine(buf) == NextLine(old(buf))
        decreases |buf|
      {
        var k := Newline(buf);
        if k == |buf| {
          return None;
        }
        var text := buf[..k];
        buf := buf[k + 1..];
        if |text| > 0 {
          return Some(text);
        }
      }
    }

    /** Reads until it has to wait or returns: then every line of the input has gone out, the buffer holds
        what follows the last newline, and it returns only when closed with nothing left. */
    method Drain() returns (lines: seq<string>, returned: bool)
      requires Good(St()) && reader == Draining
      modifies this
      ensures Good(St()) && emitted == old(emitted) + lines == Lines(pushed) && buf == Rest(pushed)
      ensures pushed == old(pushed) && closed == old(closed) && notified == old(notified)
      ensures returned == (closed && buf == "") && reader == if returned then Returned else Waiting
    {
      hide Lines, Rest, NextLine;
      lines := [];
      while true
        invariant Good(St()) && reader == Draining && emitted == old(emitted) + lines
        invariant pushed == old(pushed) && closed == old(closed) && notified == old(notified)
        decreases |buf|
      {
        TurnGood(St());
        NextLineMeaning(buf);
        ghost var before := St();
        var line := ReadLine();
        if line.None? {
          RestIsDry(before.buf);
          returned := closed && buf == "";
          reader := if returned then Returned else Waiting;
          doneAt := if returned then |pushed| else doneAt;
          assert St() == TurnOf(before);
          return;
        }
        lines, emitted := lines + [line.value], emitted + [line.value];
        assert St() == TurnOf(before);
      }
    }
  }
}
