/** The timeline: how many rows of a time window fall into each bucket, by level. */
module Histograms {
  import opened Options
  import Rows
  import opened Queries
  import opened Sequences
  import opened Stores

  datatype Class = ErrorClass | WarnClass | InfoClass | DebugClass | OtherClass

  datatype Cell = Cell(error: nat, warn: nat, info: nat, debug: nat, other: nat) {
    function Of(c: Class): nat {
      match c
      case ErrorClass => error
      case WarnClass => warn
      case InfoClass => info
      case DebugClass => debug
      case OtherClass => other
    }

    function Plus(c: Class): Cell {
      match c
      case ErrorClass => this.(error := error + 1)
      case WarnClass => this.(warn := warn + 1)
      case InfoClass => this.(info := info + 1)
      case DebugClass => this.(debug := debug + 1)
      case OtherClass => this.(other := other + 1)
    }

    function Sum(): nat {
      error + warn + info + debug + other
    }
  }

  const EMPTY_CELL := Cell(0, 0, 0, 0, 0)

  /** The class of a level in lower case. */
  function ClassOf(level: string): Class {
    if level in {"error", "fatal", "panic"} then ErrorClass
    else if level in {"warn", "warning"} then WarnClass
    else if level in {"info", "notice"} then InfoClass
    else if level in {"debug", "trace"} then DebugClass
    else OtherClass
  }

  /** The rows from `from` up to `until`, in buckets of whole seconds. */
  datatype Window = Window(from: real, until: real, bucket: nat) {
    predicate Ok() {
      from < until && 1 <= bucket <= 86400
    }

    function Width(): real {
      bucket as real
    }

    function Buckets(): int
      requires Ok()
    {
      ((until - from + Width() - 1.0) / Width()).Floor
    }

    function Slot(ts: real): int
      requires Ok()
    {
      ((ts - from) / Width()).Floor
    }

    /** The buckets reach this far. */
    function End(): real
      requires Ok()
    {
      from + Buckets() as real * Width()
    }
  }

  const MAX_BUCKETS := 5000

  lemma Scaled(x: real, b: real, n: int)
    requires b > 0.0
    ensures x / b < n as real <==> x < n as real * b
    ensures x / b >= n as real <==> x >= n as real * b
  {
    var q := x / b;
    assert q * b == x;
    if q < n as real {
      assert (n as real - q) * b > 0.0;
    } else {
      assert (q - n as real) * b >= 0.0;
    }
  }

  /** A time belongs to slot i exactly when it lies in the i-th bucket. */
  lemma SlotMeaning(w: Window, ts: real, i: int)
    requires w.Ok()
    ensures w.Slot(ts) == i <==> w.from + i as real * w.Width() <= ts < w.from + (i + 1) as real * w.Width()
    ensures w.Slot(ts) < i <==> ts < w.from + i as real * w.Width()
  {
    Scaled(ts - w.from, w.Width(), i);
    Scaled(ts - w.from, w.Width(), i + 1);
  }

  /** The buckets fall short of the window by less than a second. */
  lemma BucketsReach(w: Window)
    requires w.Ok()
    ensures w.Buckets() >= 0 && w.End() > w.until - 1.0
  {
    var x := w.until - w.from + w.Width() - 1.0;
    var n := w.Buckets();
    Scaled(x, w.Width(), 0);
    Scaled(x, w.Width(), n + 1);
    assert (n + 1) as real * w.Width() == n as real * w.Width() + w.Width();
  }

  /** What the last bucket would have to reach beyond the full ones. */
  function Remainder(w: Window): real
    requires w.Ok()
  {
    var span := w.until - w.from;
    span - (span / w.Width()).Floor as real * w.Width()
  }

  lemma FloorIs(x: real, b: real, n: int)
    requires b > 0.0 && n as real * b <= x < (n + 1) as real * b
    ensures (x / b).Floor == n
  {
    Scaled(x, b, n);
    Scaled(x, b, n + 1);
  }

  lemma FloorOf(x: real, b: real) returns (n: int)
    requires b > 0.0
    ensures n == (x / b).Floor && n as real * b <= x < n as real * b + b && (n + 1) as real * b == n as real * b + b
  {
    n := (x / b).Floor;
    Scaled(x, b, n);
    Scaled(x, b, n + 1);
  }

  /** The buckets cover the window to its end if and only if what is left after the full buckets is nothing,
      or a second at least. */
  lemma CoversIff(w: Window)
    requires w.Ok()
    ensures w.End() >= w.until <==> Remainder(w) == 0.0 || Remainder(w) >= 1.0
  {
    var span, b := w.until - w.from, w.Width();
    var full := FloorOf(span, b);
    if Remainder(w) >= 1.0 {
      FloorIs(span + b - 1.0, b, full + 1);
    } else {
      FloorIs(span + b - 1.0, b, full);
    }
  }

  /** So nothing is lost at the end of a window that spans whole seconds. */
  lemma WholeSecondsFit(w: Window, seconds: int)
    requires w.Ok() && w.until - w.from == seconds as real
    ensures w.End() >= w.until
  {
    var full := ((w.until - w.from) / w.Width()).Floor;
    assert full as real * w.Width() == (full * w.bucket) as real;
    var left := seconds - full * w.bucket;
    assert Remainder(w) == left as real;
    Scaled(w.until - w.from, w.Width(), full);
    assert left as real >= 0.0;
    CoversIff(w);
  }

  function TsOf(log: seq<Rows.Row>, x: nat): Option<real> {
    if x < |log| then log[x].Num("ts") else None
  }

  /** The rows that are counted: they match, and their time lies in the window and before the end of the
      last bucket. */
  function Counted(log: seq<Rows.Row>, w: Window, filter: Filter): nat -> bool
    requires w.Ok()
  {
    (x: nat) => TsOf(log, x).Some? && w.from <= TsOf(log, x).value < w.until && TsOf(log, x).value < w.End() &&
        Admits(filter)(x)
  }

  /** The rows of one cell and class. */
  function InCell(log: seq<Rows.Row>, w: Window, filter: Filter, lower: string -> string, i: nat, c: Class): nat -> bool
    requires w.Ok()
  {
    (x: nat) => Counted(log, w, filter)(x) && x < |log| && w.Slot(TsOf(log, x).value) == i &&
        ClassOf(lower(log[x].Str("level"))) == c
  }

  function Total(cells: seq<Cell>): nat {
    if cells == [] then 0 else Total(cells[..|cells| - 1]) + cells[|cells| - 1].Sum()
  }

  lemma {:induction false} TotalUpdate(cells: seq<Cell>, i: nat, c: Class)
    requires i < |cells|
    ensures Total(cells[i := cells[i].Plus(c)]) == Total(cells) + 1
    decreases |cells|
  {
    var n := |cells| - 1;
    var cells' := cells[i := cells[i].Plus(c)];
    if i == n {
      assert cells'[..n] == cells[..n];
    } else {
      TotalUpdate(cells[..n], i, c);
      assert cells'[..n] == cells[..n][i := cells[i].Plus(c)];
    }
  }

  lemma {:induction false} TotalOfNothing(n: nat)
    ensures Total(Repeat(n, EMPTY_CELL)) == 0
    decreases n
  {
    if n > 0 {
      TotalOfNothing(n - 1);
      assert Repeat(n, EMPTY_CELL)[..n - 1] == Repeat(n - 1, EMPTY_CELL);
    }
  }

  /** The cells are right for the rows from `lo` up to `hi`: every count is the number of rows of its
      cell and class, and together they are all the counted rows. */
  ghost predicate Tallied(cells: seq<Cell>, log: seq<Rows.Row>, w: Window, filter: Filter, lower: string -> string,
                          lo: nat, hi: nat)
    requires w.Ok()
  {
    && |cells| == w.Buckets()
    && (forall i, c :: 0 <= i < |cells| ==> cells[i].Of(c) == |Filtered(InCell(log, w, filter, lower, i, c), lo, hi)|)
    && Total(cells) == |Filtered(Counted(log, w, filter), lo, hi)|
  }

  lemma TalliedNothing(log: seq<Rows.Row>, w: Window, filter: Filter, lower: string -> string, lo: nat)
    requires w.Ok() && w.Buckets() >= 0
    ensures Tallied(Repeat(w.Buckets(), EMPTY_CELL), log, w, filter, lower, lo, lo)
  {
    TotalOfNothing(w.Buckets());
  }

  lemma TalliedSkip(cells: seq<Cell>, log: seq<Rows.Row>, w: Window, filter: Filter, lower: string -> string, lo: nat,
                    x: nat)
    requires w.Ok() && lo <= x && Tallied(cells, log, w, filter, lower, lo, x) && !Counted(log, w, filter)(x)
    ensures Tallied(cells, log, w, filter, lower, lo, x + 1)
  {
    forall i, c | 0 <= i < |cells|
      ensures cells[i].Of(c) == |Filtered(InCell(log, w, filter, lower, i, c), lo, x + 1)|
    {
      assert !InCell(log, w, filter, lower, i, c)(x);
    }
  }

  lemma TalliedAdd(cells: seq<Cell>, log: seq<Rows.Row>, w: Window, filter: Filter, lower: string -> string, lo: nat,
                   x: nat,
                   i: nat, c: Class)
    requires w.Ok() && lo <= x < |log| && Tallied(cells, log, w, filter, lower, lo, x) && i < |cells|
    requires InCell(log, w, filter, lower, i, c)(x)
    ensures Tallied(cells[i := cells[i].Plus(c)], log, w, filter, lower, lo, x + 1)
  {
    hide Counted, Total;
    TotalUpdate(cells, i, c);
    assert Counted(log, w, filter)(x);
    var cells' := cells[i := cells[i].Plus(c)];
    forall j, d | 0 <= j < |cells|
      ensures cells'[j].Of(d) == |Filtered(InCell(log, w, filter, lower, j, d), lo, x + 1)|
    {
      assert InCell(log, w, filter, lower, j, d)(x) <==> j == i && d == c;
    }
  }

  lemma Fits(log: seq<Rows.Row>, w: Window, filter: Filter, x: nat)
    requires w.Ok() && x < |log| && TsOf(log, x).Some?
    ensures var ts := TsOf(log, x).value;
            Counted(log, w, filter)(x) <==> w.from <= ts < w.until && Admits(filter)(x) && 0 <= w.Slot(ts) < w.Buckets()
  {
    var ts := TsOf(log, x).value;
    SlotMeaning(w, ts, w.Buckets());
    SlotMeaning(w, ts, 0);
  }

  lemma Untimed(log: seq<Rows.Row>, w: Window, filter: Filter, x: nat)
    requires w.Ok() && TsOf(log, x).None?
    ensures !Counted(log, w, filter)(x)
  {
  }

  lemma InItsCell(log: seq<Rows.Row>, w: Window, filter: Filter, lower: string -> string, x: nat)
    requires w.Ok() && x < |log| && Counted(log, w, filter)(x) && TsOf(log, x).Some?
    ensures InCell(log, w, filter, lower, w.Slot(TsOf(log, x).value), ClassOf(lower(log[x].Str("level"))))(x)
  {
  }

  /** The histogram over the live rows of a store, or None for more buckets than allowed. */
  method Histogram(s: Store, w: Window, filter: Filter, lower: string -> string) returns (cells: Option<seq<Cell>>)
    requires s.Inv() && w.Ok()
    ensures cells.None? <==> w.Buckets() > MAX_BUCKETS
    ensures cells.Some? ==> Tallied(cells.value, s.log, w, filter, lower, s.tail, s.head)
  {
    hide Store.Inv, Tallied, Counted, InCell, Window.Buckets, Window.Slot, Window.End, ClassOf;
    var n := w.Buckets();
    if n > MAX_BUCKETS {
      return None;
    }
    BucketsReach(w);
    var found := Repeat(n, EMPTY_CELL);
    s.LogSize();
    s.TailBelowHead();
    TalliedNothing(s.log, w, filter, lower, s.tail);
    TalliedSize(found, s.log, w, filter, lower, s.tail, s.tail);
    var x := s.tail;
    while x < s.head
      invariant s.tail <= x <= s.head && |found| == n && Tallied(found, s.log, w, filter, lower, s.tail, x)
    {
      found := Count(s, w, filter, lower, found, x);
      x := x + 1;
    }
    return Some(found);
  }

  lemma TalliedSize(cells: seq<Cell>, log: seq<Rows.Row>, w: Window, filter: Filter, lower: string -> string, lo: nat,
                    hi: nat)
    requires w.Ok() && Tallied(cells, log, w, filter, lower, lo, hi)
    ensures |cells| == w.Buckets()
  {
  }

  /** One row goes into its cell, if it has one. */
  method Count(s: Store, w: Window, filter: Filter, lower: string -> string, cells: seq<Cell>, x: nat)
    returns (r: seq<Cell>)
    requires s.Inv() && w.Ok() && s.Live(x) && Tallied(cells, s.log, w, filter, lower, s.tail, x)
    ensures |r| == |cells| && Tallied(r, s.log, w, filter, lower, s.tail, x + 1)
  {
    hide Store.Inv, Tallied, Counted, Window.Buckets, Window.Slot, Window.End, ClassOf;
    s.LogSize();
    TalliedSize(cells, s.log, w, filter, lower, s.tail, x);
    var ts, ok := s.HotF64(x, "ts");
    if !ok {
      Untimed(s.log, w, filter, x);
      TalliedSkip(cells, s.log, w, filter, lower, s.tail, x);
      return cells;
    }
    Fits(s.log, w, filter, x);
    var idx := w.Slot(ts);
    if ts < w.from || ts >= w.until || (filter.Only? && !filter.keep(x)) || idx < 0 || idx >= |cells| {
      TalliedSkip(cells, s.log, w, filter, lower, s.tail, x);
      return cells;
    }
    var level := s.HotString(x, "level");
    var c := ClassOf(lower(level));
    InItsCell(s.log, w, filter, lower, x);
    TalliedAdd(cells, s.log, w, filter, lower, s.tail, x, idx, c);
    r := cells[idx := cells[idx].Plus(c)];
  }

  lemma TalliedTotal(cells: seq<Cell>, log: seq<Rows.Row>, w: Window, filter: Filter, lower: string -> string, lo: nat,
                     hi: nat)
    requires w.Ok() && Tallied(cells, log, w, filter, lower, lo, hi)
    ensures Total(cells) == |Filtered(Counted(log, w, filter), lo, hi)|
  {
  }

  /** The rows that match and lie in the window. */
  function Matching(log: seq<Rows.Row>, w: Window, filter: Filter): nat -> bool {
    (x: nat) => TsOf(log, x).Some? && w.from <= TsOf(log, x).value < w.until && Admits(filter)(x)
  }

  /** A matching row that no bucket reaches. */
  ghost predicate Lost(log: seq<Rows.Row>, w: Window, filter: Filter, x: nat)
    requires w.Ok()
  {
    Matching(log, w, filter)(x) && TsOf(log, x).value >= w.End()
  }

  /** Of two filters, one stricter than the other, the stricter keeps as many numbers if and only if it
      keeps the same. */
  lemma {:induction false} StricterCounts(p: nat -> bool, q: nat -> bool, lo: nat, hi: nat)
    requires forall x :: p(x) ==> q(x)
    ensures |Filtered(p, lo, hi)| <= |Filtered(q, lo, hi)|
    ensures |Filtered(p, lo, hi)| == |Filtered(q, lo, hi)| <==> forall x :: lo <= x < hi && q(x) ==> p(x)
    decreases hi
  {
    if lo < hi {
      StricterCounts(p, q, lo, hi - 1);
    }
  }

  /** The matching rows of the i-th half-open bucket whose level, in lower case, satisfies `named`. */
  function Levelled(log: seq<Rows.Row>, w: Window, filter: Filter, lower: string -> string, i: nat,
                    named: string -> bool): nat -> bool
  {
    (x: nat) => Matching(log, w, filter)(x) && x < |log|
        && w.from + i as real * w.Width() <= TsOf(log, x).value < w.from + (i + 1) as real * w.Width()
        && named(lower(log[x].Str("level")))
  }

  lemma BeforeTheEnd(w: Window, ts: real, i: nat)
    requires w.Ok() && i < w.Buckets()
    ensures w.Slot(ts) == i <==> w.from + i as real * w.Width() <= ts < w.from + (i + 1) as real * w.Width()
    ensures w.Slot(ts) == i ==> ts < w.End()
  {
    hide Window.Slot, Window.Buckets;
    SlotMeaning(w, ts, i);
    SlotMeaning(w, ts, w.Buckets());
  }

  lemma SameRows(p: nat -> bool, q: nat -> bool, lo: nat, hi: nat)
    requires forall x :: p(x) <==> q(x)
    ensures |Filtered(p, lo, hi)| == |Filtered(q, lo, hi)|
  {
    StricterCounts(p, q, lo, hi);
  }

  lemma ClassCounts(cells: seq<Cell>, log: seq<Rows.Row>, w: Window, filter: Filter, lower: string -> string,
                    lo: nat, hi: nat, i: nat, c: Class, named: string -> bool)
    requires w.Ok() && Tallied(cells, log, w, filter, lower, lo, hi) && i < |cells|
    requires forall l: string :: named(l) <==> ClassOf(l) == c
    ensures cells[i].Of(c) == |Filtered(Levelled(log, w, filter, lower, i, named), lo, hi)|
  {
    hide ClassOf, Window.Slot, Window.Buckets, Window.End, Filtered, Cell.Of;
    var p, q := InCell(log, w, filter, lower, i, c), Levelled(log, w, filter, lower, i, named);
    forall x: nat ensures p(x) <==> q(x) {
      if TsOf(log, x).Some? {
        BeforeTheEnd(w, TsOf(log, x).value, i);
      }
    }
    SameRows(p, q, lo, hi);
  }

  /** Each count of a cell is the number of matching rows in its bucket with one of its levels. */
  lemma CellMeaning(cells: seq<Cell>, log: seq<Rows.Row>, w: Window, filter: Filter, lower: string -> string,
                    lo: nat, hi: nat, i: nat)
    requires w.Ok() && Tallied(cells, log, w, filter, lower, lo, hi) && i < |cells|
    ensures var rows := (named: string -> bool) => Filtered(Levelled(log, w, filter, lower, i, named), lo, hi);
            && cells[i].error == |rows(l => l in ["error", "fatal", "panic"])|
            && cells[i].warn == |rows(l => l in ["warn", "warning"])|
            && cells[i].info == |rows(l => l in ["info", "notice"])|
            && cells[i].debug == |rows(l => l in ["debug", "trace"])|
            && cells[i].other == |rows(l => l !in ["error", "fatal", "panic", "warn", "warning", "info", "notice",
                                                  "debug", "trace"])|
  {
    hide Tallied, Levelled, Filtered;
    ClassCounts(cells, log, w, filter, lower, lo, hi, i, ErrorClass, l => l in ["error", "fatal", "panic"]);
    ClassCounts(cells, log, w, filter, lower, lo, hi, i, WarnClass, l => l in ["warn", "warning"]);
    ClassCounts(cells, log, w, filter, lower, lo, hi, i, InfoClass, l => l in ["info", "notice"]);
    ClassCounts(cells, log, w, filter, lower, lo, hi, i, DebugClass, l => l in ["debug", "trace"]);
    ClassCounts(cells, log, w, filter, lower, lo, hi, i, OtherClass,
                l => l !in ["error", "fatal", "panic", "warn", "warning", "info", "notice", "debug", "trace"]);
  }

  /** Conservation: the counts of a histogram add up to the matching rows of its window if and only if none
      of them is lost behind the last bucket. */
  lemma HistogramConserves(cells: seq<Cell>, log: seq<Rows.Row>, w: Window, filter: Filter, lower: string -> string,
                           lo: nat, hi: nat)
    requires w.Ok() && Tallied(cells, log, w, filter, lower, lo, hi)
    ensures Total(cells) == |Filtered(Matching(log, w, filter), lo, hi)|
       <==> forall x :: lo <= x < hi ==> !Lost(log, w, filter, x)
  {
    hide Tallied, Window.End;
    TalliedTotal(cells, log, w, filter, lower, lo, hi);
    var p, q := Counted(log, w, filter), Matching(log, w, filter);
    StricterCounts(p, q, lo, hi);
    assert forall x :: Lost(log, w, filter, x) <==> q(x) && !p(x);
  }

  /** No row of any log is lost if and only if what is left after the full buckets is nothing, or a second
      at least; otherwise a row at the end of the last bucket is. */
  lemma NoLossIff(w: Window)
    requires w.Ok()
    ensures (forall log, filter, x :: !Lost(log, w, filter, x)) <==> Remainder(w) == 0.0 || Remainder(w) >= 1.0
  {
    hide Window.End, Remainder;
    CoversIff(w);
    BucketsReach(w);
    if w.End() < w.until {
      var row := Rows.NO_ROW.(nums := map["ts" := w.End()]);
      assert row.Num("ts") == Some(w.End());
      EndsInside(w);
      assert TsOf([row], 0) == Some(w.End());
      assert Admits(All)(0);
      assert Lost([row], w, All, 0);
    }
  }

  lemma EndsInside(w: Window)
    requires w.Ok()
    ensures w.from <= w.End()
  {
    BucketsReach(w);
    assert w.Buckets() as real * w.Width() >= 0.0;
  }

  /** Half a second with buckets of one second has no bucket, so its one row is lost. */
  lemma HalfSecondLost()
    ensures var w := Window(0.0, 0.5, 1);
            w.Buckets() == 0 && Lost([Rows.NO_ROW.(nums := map["ts" := 0.25])], w, All, 0)
  {
    var w, log := Window(0.0, 0.5, 1), [Rows.NO_ROW.(nums := map["ts" := 0.25])];
    assert log[0].Num("ts") == Some(0.25);
    assert w.Buckets() == 0 && Admits(All)(0);
  }
}
