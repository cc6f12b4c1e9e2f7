/** The two evaluators of a filter: the per-row matcher and the bitmap planner. */
module Filters {
  import opened Ast
  import opened Columns
  import opened Options
  import opened Globs
  import opened Dictionaries
  import opened Queries

  /** What the evaluators read: the hot columns with their indexes, the texts and numbers that rows
      show, and the wire form, regular expressions and case folding as given functions. */
  datatype Reader = Reader(
    hot: map<string, Kind>,
    bitmap: (string, string) -> Option<set<nat>>,
    text: (nat, string) -> string,
    number: (nat, string) -> Option<real>,
    sourceName: nat -> string,
    walk: (nat, seq<string>) -> string,
    walkNumber: (nat, seq<string>) -> Option<real>,
    regex: (string, string, string) -> bool,
    lower: string -> string)
  {
    predicate Hot(path: seq<string>) {
      |path| == 1 && path[0] in hot
    }

    /** The text of a field, "" when the row does not have it. */
    function Field(seqNo: nat, path: seq<string>): string {
      if path == ["source"] then sourceName(seqNo)
      else if Hot(path) then text(seqNo, path[0])
      else walk(seqNo, path)
    }

    function NumberOf(seqNo: nat, path: seq<string>): Option<real> {
      if Hot(path) && number(seqNo, path[0]).Some? then number(seqNo, path[0]) else walkNumber(seqNo, path)
    }
  }

  const LEVELS: map<string, int> :=
    map["trace" := 0, "debug" := 1, "info" := 2, "warn" := 3, "warning" := 3, "error" := 4, "fatal" := 5]

  function TrimLeft(s: string): string {
    if s != "" && s[0] == '"' then TrimLeft(s[1..]) else s
  }

  function TrimRight(s: string): string {
    if s != "" && s[|s| - 1] == '"' then TrimRight(s[..|s| - 1]) else s
  }

  /** The text without the quotes around it. */
  function Trim(s: string): string {
    TrimRight(TrimLeft(s))
  }

  predicate EqIgnoringQuotes(a: string, b: string) {
    Trim(a) == Trim(b)
  }

  /** Byte order. */
  predicate Less(a: string, b: string) {
    b != "" && (a == "" || a[0] < b[0] || (a[0] == b[0] && Less(a[1..], b[1..])))
  }

  function CmpInt(a: int, b: int, op: string): bool {
    if op == ">" then a > b else if op == ">=" then a >= b
    else if op == "<" then a < b else if op == "<=" then a <= b else false
  }

  function CmpReal(a: real, b: real, op: string): bool {
    if op == ">" then a > b else if op == ">=" then a >= b
    else if op == "<" then a < b else if op == "<=" then a <= b else false
  }

  function CmpText(a: string, b: string, op: string): bool {
    if op == ">" then Less(b, a) else if op == ">=" then !Less(a, b)
    else if op == "<" then Less(a, b) else if op == "<=" then !Less(b, a) else false
  }

  /** The per-row matcher. */
  function Compile(n: Node, r: Reader): nat -> bool {
    match n
    case And(a, b) =>
      var f, g := Compile(a, r), Compile(b, r);
      (x: nat) => f(x) && g(x)
    case Or(a, b) =>
      var f, g := Compile(a, r), Compile(b, r);
      (x: nat) => f(x) || g(x)
    case Not(a) =>
      var f := Compile(a, r);
      (x: nat) => !f(x)
    case Eq(path, v) => CompileEq(path, v, r)
    case Substr(path, needle, exact, glob) =>
      if glob.Some? then (x: nat) => Matches(r.Field(x, path), glob.value)
      else if needle == "" then (x: nat) => true
      else if exact then (x: nat) => r.Field(x, path) == needle
      else (x: nat) => Index(r.Field(x, path), needle) >= 0
    case Exists(path) => (x: nat) => r.Field(x, path) != ""
    case Range(path, lo, hi) =>
      (x: nat) => var f := r.NumberOf(x, path); f.Some? && lo <= f.value <= hi
    case CmpNum(path, op, num) =>
      (x: nat) => var f := r.NumberOf(x, path); f.Some? && CmpReal(f.value, num, op)
    case CmpStr(path, op, v) => CompileCmpStr(path, op, v, r)
    case Regex(path, pattern, flags) => (x: nat) => r.regex(pattern, flags, r.Field(x, path))
  }

  function CompileEq(path: seq<string>, v: string, r: Reader): nat -> bool {
    if r.Hot(path) then (x: nat) => r.text(x, path[0]) == v || EqIgnoringQuotes(r.text(x, path[0]), v)
    else (x: nat) => r.Field(x, path) == v
  }

  function CompileCmpStr(path: seq<string>, op: string, v: string, r: Reader): nat -> bool {
    if path == ["level"] then
      var want := r.lower(v);
      if want !in LEVELS then (x: nat) => false
      else (x: nat) => r.lower(r.text(x, "level")) in LEVELS && CmpInt(LEVELS[r.lower(r.text(x, "level"))],
          LEVELS[want], op)
    else (x: nat) => CmpText(r.Field(x, path), v, op)
  }

  /** Candidates that may match (none listed: all), and a filter they must pass (none: all do). */
  datatype Plan = Plan(candidates: Option<set<nat>>, residual: Filter) {
    /** The row matches according to the plan; bitmaps hold 32-bit numbers. */
    predicate Accepts(x: nat) {
      (candidates.Some? ==> x % U32 in candidates.value) && (residual.Only? ==> residual.keep(x))
    }

    predicate Trivial() {
      candidates.None? && residual.All?
    }

    /** The plan as one filter. */
    function Eval(): Filter {
      if candidates.None? then residual
      else
        var bits := candidates.value;
        if residual.All? then Only((x: nat) => x % U32 in bits)
        else
          var keep := residual.keep;
          Only((x: nat) => x % U32 in bits && keep(x))
    }
  }

  const EVERYTHING := Plan(None, All)

  function PlanNode(n: Node, r: Reader): Plan {
    match n
    case And(a, b) => PlanAnd(PlanNode(a, r), PlanNode(b, r))
    case Or(a, b) => PlanOr(PlanNode(a, r), PlanNode(b, r))
    case Not(a) =>
      var inner := PlanNode(a, r).Eval();
      Plan(None, Only((x: nat) => inner.Only? && !inner.keep(x)))
    case Eq(path, v) =>
      if r.Hot(path) && r.bitmap(path[0], v).Some? then Plan(r.bitmap(path[0], v), All)
      else if r.Hot(path) && r.hot[path[0]] == Dict then Plan(Some({}), All)
      else Plan(None, Only(Compile(n, r)))
    case _ => Plan(None, Only(Compile(n, r)))
  }

  function PlanAnd(l: Plan, r: Plan): Plan {
    var candidates :=
      if l.candidates.Some? && r.candidates.Some? then Some(l.candidates.value * r.candidates.value)
      else if l.candidates.Some? then l.candidates
      else r.candidates;
    Plan(candidates, CombineAnd(l.residual, r.residual))
  }

  function CombineAnd(a: Filter, b: Filter): Filter {
    if a.All? then b
    else if b.All? then a
    else
      var f, g := a.keep, b.keep;
      Only((x: nat) => f(x) && g(x))
  }

  function PlanOr(l: Plan, r: Plan): Plan {
    if l.candidates.Some? && r.candidates.Some? && l.residual.All? && r.residual.All? then
      Plan(Some(l.candidates.value + r.candidates.value), All)
    else
      var le, re := l.Eval(), r.Eval();
      Plan(None, Only((x: nat) => (le.Only? && le.keep(x)) || (re.Only? && re.keep(x))))
  }

  /** The plan of a filter; no filter at all keeps everything. */
  function CompilePlan(n: Option<Node>, r: Reader): Plan {
    if n.None? then EVERYTHING else PlanNode(n.value, r)
  }

  lemma EvalAccepts(p: Plan, x: nat)
    ensures p.Eval().All? <==> p.Trivial()
    ensures Admits(p.Eval())(x) == p.Accepts(x)
  {
  }

  lemma AndAccepts(l: Plan, r: Plan, x: nat)
    ensures PlanAnd(l, r).Accepts(x) <==> l.Accepts(x) && r.Accepts(x)
    ensures PlanAnd(l, r).Trivial() <==> l.Trivial() && r.Trivial()
  {
  }

  /** A side that matches everything without saying so would be lost in a disjunction. */
  lemma OrAccepts(l: Plan, r: Plan, x: nat)
    ensures PlanOr(l, r).Accepts(x) <==> (!l.Trivial() && l.Accepts(x)) || (!r.Trivial() && r.Accepts(x))
    ensures !PlanOr(l, r).Trivial()
  {
    EvalAccepts(l, x);
    EvalAccepts(r, x);
  }

  /** No expression plans to the empty plan, so no disjunction loses a side. */
  lemma {:induction false} NeverTrivial(n: Node, r: Reader)
    ensures !PlanNode(n, r).Trivial()
  {
    match n
    case And(a, b) =>
      NeverTrivial(a, r);
      NeverTrivial(b, r);
    case Or(a, b) =>
      OrAccepts(PlanNode(a, r), PlanNode(b, r), 0);
    case _ =>
  }

  /** The fields that the expression compares for equality. */
  function EqNames(n: Node): set<string> {
    match n
    case And(a, b) => EqNames(a) + EqNames(b)
    case Or(a, b) => EqNames(a) + EqNames(b)
    case Not(a) => EqNames(a)
    case Eq(path, v) => if |path| == 1 then {path[0]} else {}
    case _ => {}
  }

  /** The index of each of these columns tells exactly whether the row shows a text. */
  ghost predicate IndexAnswers(r: Reader, names: set<string>, x: nat) {
    forall name :: name in names && name in r.hot ==> IndexAnswersFor(r, name, x)
  }

  ghost predicate IndexAnswersFor(r: Reader, name: string, x: nat)
    requires name in r.hot
  {
    if r.hot[name] == Dict then
      forall v :: (r.bitmap(name, v).Some? && x % U32 in r.bitmap(name, v).value) <==> v != "" && r.text(x, name) == v
    else forall v :: r.bitmap(name, v).None?
  }

  /** Where the matcher and the index part: the matcher trims quotes and takes an absent field for "". */
  predicate Clash(shown: string, needle: string) {
    if shown == needle then needle == "" else Trim(shown) == Trim(needle)
  }

  /** An equality is answered alike exactly when there is no clash. */
  lemma EqAgrees(path: seq<string>, v: string, r: Reader, x: nat)
    requires r.Hot(path) ==> IndexAnswersFor(r, path[0], x)
    ensures PlanNode(Eq(path, v), r).Accepts(x) == Compile(Eq(path, v), r)(x)
       <==> !(r.Hot(path) && r.hot[path[0]] == Dict && Clash(r.text(x, path[0]), v))
  {
  }

  /** No equality in the expression clashes with the row. */
  predicate ClashFree(n: Node, r: Reader, x: nat) {
    match n
    case And(a, b) => ClashFree(a, r, x) && ClashFree(b, r, x)
    case Or(a, b) => ClashFree(a, r, x) && ClashFree(b, r, x)
    case Not(a) => ClashFree(a, r, x)
    case Eq(path, v) => !(r.Hot(path) && r.hot[path[0]] == Dict && Clash(r.text(x, path[0]), v))
    case _ => true
  }

  /** The planner preserves the meaning of every expression, row by row. */
  lemma {:induction false} PlanMeans(n: Node, r: Reader, x: nat)
    requires IndexAnswers(r, EqNames(n), x) && ClashFree(n, r, x)
    ensures PlanNode(n, r).Accepts(x) == Compile(n, r)(x)
  {
    match n
    case And(a, b) =>
      PlanMeans(a, r, x);
      PlanMeans(b, r, x);
      AndAccepts(PlanNode(a, r), PlanNode(b, r), x);
    case Or(a, b) =>
      PlanMeans(a, r, x);
      PlanMeans(b, r, x);
      NeverTrivial(a, r);
      NeverTrivial(b, r);
      OrAccepts(PlanNode(a, r), PlanNode(b, r), x);
    case Not(a) =>
      PlanMeans(a, r, x);
      NeverTrivial(a, r);
      EvalAccepts(PlanNode(a, r), x);
    case Eq(path, v) =>
      EqAgrees(path, v, r, x);
    case _ =>
  }

  predicate QuotesAround(s: string) {
    s != "" && (s[0] == '"' || s[|s| - 1] == '"')
  }

  /** Texts without quotes at their ends never clash with such a needle, unless it is empty. */
  lemma PlainTextsAgree(shown: string, needle: string)
    requires needle != "" && !QuotesAround(shown) && !QuotesAround(needle)
    ensures !Clash(shown, needle)
  {
  }

  function Quotes(n: nat): string {
    seq(n, i => '"')
  }

  lemma {:induction false} TrimLeftMeaning(s: string) returns (n: nat)
    ensures s == Quotes(n) + TrimLeft(s) && (TrimLeft(s) != "" ==> TrimLeft(s)[0] != '"')
    decreases |s|
  {
    if s != "" && s[0] == '"' {
      var m := TrimLeftMeaning(s[1..]);
      n := m + 1;
      assert s == ['"'] + s[1..] && Quotes(n) == ['"'] + Quotes(m);
    } else {
      n := 0;
    }
  }

  lemma {:induction false} TrimRightMeaning(s: string) returns (n: nat)
    ensures s == TrimRight(s) + Quotes(n) && (TrimRight(s) != "" ==> TrimRight(s)[|TrimRight(s)| - 1] != '"')
    decreases |s|
  {
    if s != "" && s[|s| - 1] == '"' {
      var m := TrimRightMeaning(s[..|s| - 1]);
      n := m + 1;
      assert s == s[..|s| - 1] + ['"'] && Quotes(n) == Quotes(m) + ['"'];
    } else {
      n := 0;
    }
  }

  /** Trimming takes away exactly the quotes at both ends. */
  lemma TrimMeaning(s: string) returns (a: nat, b: nat)
    ensures s == Quotes(a) + Trim(s) + Quotes(b)
    ensures Trim(s) != "" ==> Trim(s)[0] != '"' && Trim(s)[|Trim(s)| - 1] != '"'
  {
    a := TrimLeftMeaning(s);
    b := TrimRightMeaning(TrimLeft(s));
    assert s == Quotes(a) + (Trim(s) + Quotes(b));
    if Trim(s) != "" {
      assert TrimLeft(s)[0] == Trim(s)[0];
    }
  }

  /** The texts part at k: one ends there, or has the smaller character. */
  ghost predicate PartAt(a: string, b: string, k: nat) {
    k <= |a| && k < |b| && a[..k] == b[..k] && (k == |a| || a[k] < b[k])
  }

  lemma PartBehind(a: string, b: string, k: nat)
    requires PartAt(a, b, k) && k > 0
    ensures a != "" && b != "" && a[0] == b[0]
  {
    assert a[..k][0] == a[0] && b[..k][0] == b[0];
  }

  /** Byte order is decided where the texts part. */
  lemma {:induction false} LessMeaning(a: string, b: string)
    ensures Less(a, b) <==> exists k: nat :: PartAt(a, b, k)
    decreases |b|
  {
    if b == "" || a == "" || a[0] != b[0] {
      if Less(a, b) {
        assert PartAt(a, b, 0);
      }
      if exists k: nat :: PartAt(a, b, k) {
        var k: nat :| PartAt(a, b, k);
        if k > 0 {
          PartBehind(a, b, k);
        }
      }
    } else {
      LessMeaning(a[1..], b[1..]);
      if Less(a, b) {
        var k: nat :| PartAt(a[1..], b[1..], k);
        assert a[..k + 1] == [a[0]] + a[1..][..k] && b[..k + 1] == [b[0]] + b[1..][..k];
        assert PartAt(a, b, k + 1);
      }
      if exists k: nat :: PartAt(a, b, k) {
        var k: nat :| PartAt(a, b, k);
        assert k > 0;
        assert a[1..][..k - 1] == a[..k][1..] && b[1..][..k - 1] == b[..k][1..];
        assert PartAt(a[1..], b[1..], k - 1);
      }
    }
  }

  /** It is a strict order, and total. */
  lemma {:induction false} LessOrders(a: string, b: string, c: string)
    ensures !Less(a, a) && !(Less(a, b) && Less(b, a)) && (Less(a, b) || Less(b, a) || a == b)
    ensures Less(a, b) && Less(b, c) ==> Less(a, c)
    decreases |a| + |b| + |c|
  {
    if a != "" {
      if b != "" {
        LessOrders(a[1..], b[1..], if c != "" then c[1..] else c);
      } else {
        LessOrders(a[1..], b, c);
      }
    }
  }

  /** What the four operators say of two texts. */
  lemma TextOperators(a: string, b: string)
    ensures CmpText(a, b, "<") <==> exists k: nat :: PartAt(a, b, k)
    ensures CmpText(a, b, ">") <==> exists k: nat :: PartAt(b, a, k)
    ensures CmpText(a, b, "<=") <==> CmpText(a, b, "<") || a == b
    ensures CmpText(a, b, ">=") <==> CmpText(a, b, ">") || a == b
    ensures CmpText(a, b, ">") <==> !CmpText(a, b, "<=")
  {
    LessMeaning(a, b);
    LessMeaning(b, a);
    LessOrders(a, b, a);
  }

  predicate Operator(op: string) {
    op in {">", ">=", "<", "<="}
  }

  /** The rank of a level, in ascending order of severity. */
  ghost predicate Ranks(level: string, rank: int) {
    || (level == "trace" && rank == 0) || (level == "debug" && rank == 1) || (level == "info" && rank == 2)
    || (level == "warn" && rank == 3) || (level == "warning" && rank == 3) || (level == "error" && rank == 4)
    || (level == "fatal" && rank == 5)
  }

  lemma LevelRanks(level: string)
    ensures level in LEVELS <==> exists rank :: Ranks(level, rank)
    ensures level in LEVELS ==> Ranks(level, LEVELS[level])
  {
    if level in LEVELS {
      assert Ranks(level, LEVELS[level]);
    }
  }

  /** How two numbers stand to each other under an operator; an unknown one holds of none. */
  ghost predicate Stand(a: real, b: real, op: string) {
    || (op == ">" && b < a) || (op == ">=" && (b < a || a == b))
    || (op == "<" && a < b) || (op == "<=" && (a < b || a == b))
  }

  ghost predicate StandText(a: string, b: string, op: string) {
    || ((op == "<" || op == "<=") && exists k: nat :: PartAt(a, b, k))
    || ((op == ">" || op == ">=") && exists k: nat :: PartAt(b, a, k))
    || ((op == "<=" || op == ">=") && a == b)
  }

  /** A substring search finds the rows whose field has the needle somewhere; without a needle it keeps all. */
  lemma SubstringMeans(path: seq<string>, needle: string, r: Reader, x: nat)
    ensures Compile(Substr(path, needle, false, None), r)(x) <==> Occurs(r.Field(x, path), needle)
  {
    IndexIff(r.Field(x, path), needle);
    if needle == "" {
      assert StandsAt(r.Field(x, path), needle, 0);
    }
  }

  /** An exact search finds the rows whose field is the needle. */
  lemma ExactMeans(path: seq<string>, needle: string, r: Reader, x: nat)
    ensures needle != "" ==> (Compile(Substr(path, needle, true, None), r)(x) <==> r.Field(x, path) == needle)
    ensures needle == "" ==> Compile(Substr(path, needle, true, None), r)(x)
  {
  }

  /** A pattern finds only rows whose field fits it, and exactly those that fit what is left of it when that
      alternates and ends in a wild, or those that do not extend a shorter fit when it ends in a literal. */
  lemma GlobMeans(path: seq<string>, needle: string, exact: bool, parts: seq<GlobPart>, r: Reader, x: nat)
    ensures var n, f := Substr(path, needle, exact, Some(parts)), r.Field(x, path);
            && (Compile(n, r)(x) ==> Fits(f, parts))
            && (Alternating(Effective(parts)) ==>
                  (Compile(n, r)(x) <==>
                    && Fits(f, Effective(parts))
                    && (parts != [] && !parts[|parts| - 1].wild ==> Shortest(f, Effective(parts)))))
  {
    hide Matches, Fits, Shortest, Effective, Alternating;
    var f := r.Field(x, path);
    if Matches(f, parts) {
      MatchFits(f, parts);
    }
    if Alternating(Effective(parts)) {
      EffectiveExact(f, parts);
    }
  }

  /** An equality on a hot column finds the rows that show the value, quotes at the ends aside; on any other
      field those whose text is the value. */
  lemma EqualityMeans(path: seq<string>, v: string, r: Reader, x: nat)
    ensures Compile(Eq(path, v), r)(x) <==>
              if r.Hot(path) then Trim(r.text(x, path[0])) == Trim(v) else r.Field(x, path) == v
  {
  }

  /** The other leaves: a field that is there, and numbers and texts that stand in the relation asked for. */
  lemma LeavesMean(path: seq<string>, lo: real, hi: real, op: string, v: string, r: Reader, x: nat)
    ensures Compile(Exists(path), r)(x) <==> r.Field(x, path) != ""
    ensures Compile(Range(path, lo, hi), r)(x) <==> exists f :: r.NumberOf(x, path) == Some(f) && lo <= f <= hi
    ensures Compile(CmpNum(path, op, lo), r)(x) <==> exists f :: r.NumberOf(x, path) == Some(f) && Stand(f, lo, op)
    ensures path != ["level"] ==> (Compile(CmpStr(path, op, v), r)(x) <==> StandText(r.Field(x, path), v, op))
    ensures !Operator(op) ==> !Compile(CmpNum(path, op, lo), r)(x) && !Compile(CmpStr(path, op, v), r)(x)
  {
    hide Less;
    if Operator(op) {
      TextOperators(r.Field(x, path), v);
    }
  }

  ghost predicate LevelStands(level: string, than: string, op: string) {
    exists got: int, want: int :: Ranks(level, got) && Ranks(than, want) && Stand(got as real, want as real, op)
  }

  /** Levels compare by severity, both in lower case; an unknown level stands in no relation. */
  lemma LevelsMean(op: string, v: string, r: Reader, x: nat)
    ensures Compile(CmpStr(["level"], op, v), r)(x) <==> LevelStands(r.lower(r.text(x, "level")), r.lower(v), op)
  {
    hide Ranks;
    var have, ask := r.lower(r.text(x, "level")), r.lower(v);
    LevelRanks(have);
    LevelRanks(ask);
    RanksOnce(have);
    RanksOnce(ask);
    if have in LEVELS && ask in LEVELS {
      var got, want := LEVELS[have], LEVELS[ask];
      assert Stand(got as real, want as real, op) <==> CmpInt(got, want, op);
    }
  }

  lemma RanksOnce(level: string)
    ensures forall a, b :: Ranks(level, a) && Ranks(level, b) ==> a == b
  {
    assert |"trace"| == |"debug"| == |"error"| == |"fatal"| == 5 && |"info"| == |"warn"| == 4 && |"warning"| == 7;
  }

  /** What a filter says of a row. */
  ghost predicate Means(n: Node, r: Reader, x: nat) {
    match n
    case And(a, b) => Means(a, r, x) && Means(b, r, x)
    case Or(a, b) => Means(a, r, x) || Means(b, r, x)
    case Not(a) => !Means(a, r, x)
    case Eq(path, v) => if r.Hot(path) then Trim(r.text(x, path[0])) == Trim(v) else r.Field(x, path) == v
    case Substr(path, needle, exact, glob) =>
      if glob.Some? then Matches(r.Field(x, path), glob.value)
      else needle == "" || if exact then r.Field(x, path) == needle else Occurs(r.Field(x, path), needle)
    case Exists(path) => r.Field(x, path) != ""
    case Range(path, lo, hi) => exists f :: r.NumberOf(x, path) == Some(f) && lo <= f <= hi
    case CmpNum(path, op, num) => exists f :: r.NumberOf(x, path) == Some(f) && Stand(f, num, op)
    case CmpStr(path, op, v) =>
      if path == ["level"] then LevelStands(r.lower(r.text(x, "level")), r.lower(v), op)
      else StandText(r.Field(x, path), v, op)
    case Regex(path, pattern, flags) => r.regex(pattern, flags, r.Field(x, path))
  }

  /** The matcher answers what the filter says, for every filter. */
  lemma {:induction false} MatcherMeans(n: Node, r: Reader, x: nat)
    ensures Compile(n, r)(x) <==> Means(n, r, x)
  {
    hide CompileEq, CompileCmpStr, Trim, Occurs, Matches, Index, Stand, StandText, LevelStands;
    match n
    case And(a, b) =>
      MatcherMeans(a, r, x);
      MatcherMeans(b, r, x);
    case Or(a, b) =>
      MatcherMeans(a, r, x);
      MatcherMeans(b, r, x);
    case Not(a) => MatcherMeans(a, r, x);
    case Eq(path, v) => EqualityMeans(path, v, r, x);
    case Substr(path, needle, exact, glob) =>
      if glob.None? {
        SubstringMeans(path, needle, r, x);
        ExactMeans(path, needle, r, x);
        NothingOccurs(r.Field(x, path));
      }
    case Exists(_) =>
    case Range(path, lo, hi) => LeavesMean(path, lo, hi, "", "", r, x);
    case CmpNum(path, op, num) => LeavesMean(path, num, num, op, "", r, x);
    case CmpStr(path, op, v) =>
      LeavesMean(path, 0.0, 0.0, op, v, r, x);
      LevelsMean(op, v, r, x);
    case Regex(_, _, _) =>
  }

  lemma NothingOccurs(s: string)
    ensures Occurs(s, "")
  {
    assert StandsAt(s, "", 0);
  }

  /** What the bitmap query keeps. */
  function Kept(p: Plan): nat -> bool {
    if p.candidates.Some? then Both(p.candidates.value, p.residual) else Admits(p.residual)
  }

  lemma KeptAccepts(p: Plan, x: nat)
    requires x < U32
    ensures Kept(p)(x) == p.Accepts(x)
  {
    assert x % U32 == x;
  }

  /** The answer that the bitmap query gives for a plan. */
  function PlanAnswer(p: Plan, lo: nat, hi: nat, head: nat, tail: nat, limit: int): seq<nat> {
    Answer(Kept(p), lo, hi, head, tail, limit)
  }

  lemma PlanAnswersAll(p: Plan, keep: nat -> bool, lo: nat, hi: nat, head: nat, tail: nat, limit: int)
    requires head <= U32 && hi <= U32
    ensures PlanAnswer(p, lo, hi, head, tail, limit) == Answer(keep, lo, hi, head, tail, limit)
       <==> forall x :: InRange(x, lo, hi, head, tail) && p.Accepts(x) != keep(x) ==>
              0 < limit <= |Filtered(keep, if lo < tail then tail else lo, x)|
  {
    var from, to := if lo < tail then tail else lo, if hi == 0 then head else hi;
    forall x: nat | from <= x < to ensures Kept(p)(x) == p.Accepts(x) && InRange(x, lo, hi, head, tail) {
      KeptAccepts(p, x);
    }
    SameAnswerLimited(keep, Kept(p), from, to, limit);
  }

  /** Two rows on which the two evaluators differ: a row without the field for the empty needle, and a
      quoted text for the bare one. */
  lemma ClashExamples(r: Reader, name: string)
    requires name in r.hot && r.hot[name] == Dict && IndexAnswersFor(r, name, 0)
    ensures r.text(0, name) == "" ==> Compile(Eq([name], ""), r)(0) && !PlanNode(Eq([name], ""), r).Accepts(0)
    ensures r.text(0, name) == "\"a\"" ==> Compile(Eq([name], "a"), r)(0) && !PlanNode(Eq([name], "a"), r).Accepts(0)
  {
    assert "\"a\""[1..] == "a\"" && "a\""[..1] == "a";
    assert TrimRight("a") == "a" && Trim("a") == "a";
    assert TrimLeft("a\"") == "a\"" && TrimRight("a\"") == "a";
    assert Trim("\"a\"") == "a";
  }

  /** Query plans preserve meaning: on every range and limit, the bitmap query for a filter returns the
      same list as the scan with its matcher. */
  lemma QueriesAgree(n: Option<Node>, r: Reader, lo: nat, hi: nat, head: nat, tail: nat, limit: int)
    requires head <= U32 && hi <= U32
    requires n.Some? ==> forall x :: InRange(x, lo, hi, head, tail) ==>
                           IndexAnswers(r, EqNames(n.value), x) && ClashFree(n.value, r, x)
    ensures PlanAnswer(CompilePlan(n, r), lo, hi, head, tail, limit)
         == Answer(Admits(if n.None? then All else Only(Compile(n.value, r))), lo, hi, head, tail, limit)
  {
    hide PlanNode, Compile, IndexAnswers, ClashFree;
    var keep := Admits(if n.None? then All else Only(Compile(n.value, r)));
    forall x | InRange(x, lo, hi, head, tail) ensures CompilePlan(n, r).Accepts(x) == keep(x) {
      if n.Some? {
        PlanMeans(n.value, r, x);
      }
    }
    PlanAnswersAll(CompilePlan(n, r), keep, lo, hi, head, tail, limit);
  }

  /** For a single equality that is exactly when they agree: the two lists are equal if and only if every
      row of the range that clashes with the needle lies behind the limit, if there is one. */
  lemma EqualityQueriesAgreeIff(path: seq<string>, v: string, r: Reader, lo: nat, hi: nat, head: nat, tail: nat,
                                limit: int)
    requires head <= U32 && hi <= U32 && r.Hot(path) && r.hot[path[0]] == Dict
    requires forall x :: InRange(x, lo, hi, head, tail) ==> IndexAnswersFor(r, path[0], x)
    ensures PlanAnswer(PlanNode(Eq(path, v), r), lo, hi, head, tail, limit)
         == Answer(Compile(Eq(path, v), r), lo, hi, head, tail, limit)
       <==> forall x :: InRange(x, lo, hi, head, tail) && Clash(r.text(x, path[0]), v) ==>
              0 < limit <= |Filtered(Compile(Eq(path, v), r), if lo < tail then tail else lo, x)|
  {
    hide PlanNode, Compile, IndexAnswersFor, Clash, Filtered;
    forall x | InRange(x, lo, hi, head, tail)
      ensures PlanNode(Eq(path, v), r).Accepts(x) == Compile(Eq(path, v), r)(x) <==> !Clash(r.text(x, path[0]), v)
    {
      EqAgrees(path, v, r, x);
    }
    PlanAnswersAll(PlanNode(Eq(path, v), r), Compile(Eq(path, v), r), lo, hi, head, tail, limit);
  }
}

/** Where the planner meets the store. */
module Searching {
  import opened Ast
  import opened Columns
  import opened Options
  import opened Dictionaries
  import opened Pools
  import opened Queries
  import opened Filters
  import opened Stores

  /** The evaluators read this store. */
  ghost predicate Reflects(r: Reader, s: Store)
    reads s, s.hot.Values
  {
    && r.hot.Keys == s.hot.Keys
    && (forall name :: name in s.hot ==> r.hot[name] == s.hot[name].kind)
    && (forall name, v :: name in s.hot ==> r.bitmap(name, v) == s.hot[name].St().BitmapOf(s.hash, v))
    && (forall x: nat, name ::
          r.text(x, name) == if s.Live(x) && x < |s.log| && name != "ts" then s.log[x].Str(name) else "")
  }

  /** What the matcher reads of a hot field is what the log says of the row, and nothing once it is gone. */
  lemma HotFieldRead(r: Reader, s: Store, name: string, x: nat)
    requires s.Inv() && Reflects(r, s) && name in s.hot && name != "source" && name != "ts"
    ensures |s.log| == s.head && r.Field(x, [name]) == if s.Live(x) then s.log[x].Str(name) else ""
  {
    hide Store.Inv;
    s.LogSize();
  }

  lemma StoreIndexAnswers(r: Reader, s: Store, name: string, x: nat)
    requires s.Inv() && Injective(s.hash) && s.head <= U32 && Reflects(r, s) && s.tail <= x < U32
    requires name in r.hot && x !in s.StaleFor(name)
    ensures IndexAnswersFor(r, name, x)
  {
    hide Store.Inv, State.Ok, Column.Valid;
    s.LogSize();
    if r.hot[name] == Dict {
      forall v ensures (r.bitmap(name, v).Some? && x % U32 in r.bitmap(name, v).value) <==>
          v != "" && r.text(x, name) == v {
        assert x % U32 == x;
        s.ColumnMeans(name, v);
        if v != "" {
          if x < s.head {
            s.IndexMatchesLog(name, v, x);
          } else {
            s.NothingAhead(name, v, x);
          }
        }
      }
    } else {
      forall v ensures r.bitmap(name, v).None? {
        s.ColumnMeans(name, v);
      }
    }
  }

  /** Over any reachable store, the bitmap query for a filter answers exactly like the row-by-row scan:
      if hashes do not collide, numbers fit 32 bits, no row of the range is doubted where levels are
      compared, and none differs from a needle in its quotes only. */
  lemma SearchMeansScan(r: Reader, s: Store, n: Node, lo: nat, hi: nat, limit: int)
    requires s.Inv() && Injective(s.hash) && s.head <= U32 && hi <= U32 && Reflects(r, s)
    requires forall x :: InRange(x, lo, hi, s.head, s.tail) ==>
               ClashFree(n, r, x) && ("level" in EqNames(n) ==> x !in s.doubted)
    ensures PlanAnswer(CompilePlan(Some(n), r), lo, hi, s.head, s.tail, limit)
         == Answer(Compile(n, r), lo, hi, s.head, s.tail, limit)
  {
    hide Store.Inv, Injective, Reflects, IndexAnswersFor, ClashFree, Compile, CompilePlan;
    forall x | InRange(x, lo, hi, s.head, s.tail) ensures IndexAnswers(r, EqNames(n), x) {
      forall name | name in EqNames(n) && name in r.hot ensures IndexAnswersFor(r, name, x) {
        StoreIndexAnswers(r, s, name, x);
      }
    }
    QueriesAgree(Some(n), r, lo, hi, s.head, s.tail, limit);
  }

  /** So a search finds, in order and up to its limit, exactly the rows of the range of which the filter is
      true. */
  lemma SearchFinds(r: Reader, s: Store, n: Node, lo: nat, hi: nat, limit: int)
    requires s.Inv() && Injective(s.hash) && s.head <= U32 && hi <= U32 && Reflects(r, s)
    requires forall x :: InRange(x, lo, hi, s.head, s.tail) ==>
               ClashFree(n, r, x) && ("level" in EqNames(n) ==> x !in s.doubted)
    ensures var found := PlanAnswer(CompilePlan(Some(n), r), lo, hi, s.head, s.tail, limit);
            && Ascending(found) && (limit > 0 ==> |found| <= limit)
            && (forall x :: x in found ==> InRange(x, lo, hi, s.head, s.tail) && Means(n, r, x))
            && (forall x :: InRange(x, lo, hi, s.head, s.tail) && Means(n, r, x) && x !in found ==>
                  limit > 0 && |found| == limit && found[|found| - 1] < x)
  {
    hide Store.Inv, Injective, Reflects, ClashFree, Compile, CompilePlan, PlanAnswer, Answer, Means;
    SearchMeansScan(r, s, n, lo, hi, limit);
    var keep := Compile(n, r);
    AnswerMeaning(keep, lo, hi, s.head, s.tail, limit);
    forall x: nat ensures keep(x) <==> Means(n, r, x) {
      MatcherMeans(n, r, x);
    }
  }
}
