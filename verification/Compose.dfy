/** Quick filters: pinned chips and the working filter combined into one expression. */
module Composing {
  import opened Options
  import opened Ast
  import opened Lexing
  import opened Parsing
  import opened Filters
  import opened Grammar
  import opened Terms
  import opened Globs

  datatype Chip = Chip(name: string, expr: string, pinned: bool, enabled: bool)

  /** Whitespace as the web client trims it. */
  predicate JsBlank(c: char) {
    var n := c as int;
    9 <= n <= 13 || 0x2000 <= n <= 0x200A
    || n in {0x20, 0xA0, 0x1680, 0x2028, 0x2029, 0x202F, 0x205F, 0x3000, 0xFEFF}
  }

  function JsTrimStart(s: string): string {
    if s != "" && JsBlank(s[0]) then JsTrimStart(s[1..]) else s
  }

  function JsTrimEnd(s: string): string {
    if s != "" && JsBlank(s[|s| - 1]) then JsTrimEnd(s[..|s| - 1]) else s
  }

  function JsTrim(s: string): string {
    JsTrimEnd(JsTrimStart(s))
  }

  function Wrapped(e: string): string {
    "(" + e + ")"
  }

  /** The expressions that take part: the pinned and enabled chips in order, then the working filter. */
  function Active(chips: seq<Chip>): seq<string> {
    if chips == [] then []
    else
      var e := JsTrim(chips[0].expr);
      (if chips[0].pinned && chips[0].enabled && e != "" then [e] else []) + Active(chips[1..])
  }

  function Parts(working: string, chips: seq<Chip>): seq<string> {
    Active(chips) + if JsTrim(working) != "" then [JsTrim(working)] else []
  }

  /** The text e is s without the whitespace at its ends, which are at i and j. */
  ghost predicate StripsAt(s: string, e: string, i: nat, j: nat) {
    && i <= j <= |s| && e == s[i..j]
    && (forall k :: 0 <= k < |s| && (k < i || j <= k) ==> JsBlank(s[k]))
    && (e != "" ==> !JsBlank(e[0]) && !JsBlank(e[|e| - 1]))
  }

  ghost predicate Strips(s: string, e: string) {
    exists i: nat, j: nat :: StripsAt(s, e, i, j)
  }

  lemma {:induction false} TrimsLeft(s: string) returns (i: nat)
    ensures i <= |s| && JsTrimStart(s) == s[i..] && (i < |s| ==> !JsBlank(s[i]))
    ensures forall k :: 0 <= k < i ==> JsBlank(s[k])
    decreases |s|
  {
    if s != "" && JsBlank(s[0]) {
      var n := TrimsLeft(s[1..]);
      i := n + 1;
      forall k | 0 <= k < i ensures JsBlank(s[k]) {
        assert k > 0 ==> s[k] == s[1..][k - 1];
      }
    } else {
      i := 0;
    }
  }

  lemma {:induction false} TrimsRight(s: string) returns (j: nat)
    ensures j <= |s| && JsTrimEnd(s) == s[..j] && (j > 0 ==> !JsBlank(s[j - 1]))
    ensures forall k :: j <= k < |s| ==> JsBlank(s[k])
    decreases |s|
  {
    j := |s|;
    if s != "" && JsBlank(s[|s| - 1]) {
      j := TrimsRight(s[..|s| - 1]);
    }
  }

  lemma JsTrimMeaning(s: string)
    ensures Strips(s, JsTrim(s))
  {
    var i := TrimsLeft(s);
    var j := TrimsRight(s[i..]);
    var e := s[i..][..j];
    assert forall k :: i <= k < |s| ==> s[k] == s[i..][k - i];
    assert e != "" ==> e[0] == s[i] && e[|e| - 1] == s[i..][j - 1];
    assert StripsAt(s, e, i, i + j);
  }

  predicate TakesPart(c: Chip) {
    c.pinned && c.enabled && Written(c.expr)
  }

  predicate Written(s: string) {
    exists k :: 0 <= k < |s| && !JsBlank(s[k])
  }

  lemma WrittenIff(s: string)
    ensures Written(s) <==> JsTrim(s) != ""
  {
    hide JsTrim, JsBlank;
    var e := JsTrim(s);
    JsTrimMeaning(s);
    var i: nat, j: nat :| StripsAt(s, e, i, j);
    if e != "" {
      assert !JsBlank(s[i]);
    }
  }

  /** Exactly the chips at these indices take part, each with its text without the whitespace around it. */
  ghost predicate Chosen(chips: seq<Chip>, idx: seq<nat>, es: seq<string>) {
    && |idx| == |es| && (forall k, l :: 0 <= k < l < |idx| ==> idx[k] < idx[l])
    && (forall k :: 0 <= k < |idx| ==> idx[k] < |chips| && TakesPart(chips[idx[k]]))
    && (forall k :: 0 <= k < |idx| ==> Strips(chips[idx[k]].expr, es[k]))
    && (forall i: nat :: i < |chips| && TakesPart(chips[i]) ==> i in idx)
  }

  function Moved(idx: seq<nat>): seq<nat> {
    seq(|idx|, k requires 0 <= k < |idx| => idx[k] + 1)
  }

  lemma ChosenMoves(chips: seq<Chip>, idx: seq<nat>, es: seq<string>)
    requires chips != [] && Chosen(chips[1..], idx, es)
    ensures forall i: nat :: 0 < i < |chips| && TakesPart(chips[i]) ==> i in Moved(idx)
    ensures forall k :: 0 <= k < |idx| ==> chips[Moved(idx)[k]] == chips[1..][idx[k]]
  {
    hide TakesPart, Strips;
    forall i: nat | 0 < i < |chips| && TakesPart(chips[i]) ensures i in Moved(idx) {
      assert chips[1..][i - 1] == chips[i];
      var k :| 0 <= k < |idx| && idx[k] == i - 1;
      assert Moved(idx)[k] == i;
    }
  }

  lemma ChosenSkip(chips: seq<Chip>, idx: seq<nat>, es: seq<string>)
    requires chips != [] && !TakesPart(chips[0]) && Chosen(chips[1..], idx, es)
    ensures Chosen(chips, Moved(idx), es)
  {
    hide TakesPart, Strips;
    ChosenMoves(chips, idx, es);
  }

  lemma ChosenTake(chips: seq<Chip>, e: string, idx: seq<nat>, es: seq<string>)
    requires chips != [] && TakesPart(chips[0]) && Strips(chips[0].expr, e) && Chosen(chips[1..], idx, es)
    ensures Chosen(chips, [0] + Moved(idx), [e] + es)
  {
    hide TakesPart, Strips;
    ChosenMoves(chips, idx, es);
    ChosenFirst(chips, e, Moved(idx), es);
  }

  lemma ChosenFirst(chips: seq<Chip>, e: string, idx: seq<nat>, es: seq<string>)
    requires chips != [] && TakesPart(chips[0]) && Strips(chips[0].expr, e)
    requires |idx| == |es| && forall k :: 0 <= k < |idx| ==> 0 < idx[k] < |chips|
    requires forall k, l :: 0 <= k < l < |idx| ==> idx[k] < idx[l]
    requires forall k :: 0 <= k < |idx| ==> TakesPart(chips[idx[k]]) && Strips(chips[idx[k]].expr, es[k])
    requires forall i: nat :: 0 < i < |chips| && TakesPart(chips[i]) ==> i in idx
    ensures Chosen(chips, [0] + idx, [e] + es)
  {
    hide TakesPart, Strips;
    var idx', es' := [0] + idx, [e] + es;
    forall k: nat | k < |idx'|
      ensures idx'[k] < |chips| && TakesPart(chips[idx'[k]]) && Strips(chips[idx'[k]].expr, es'[k])
    {
      if k > 0 {
        var l: nat := k - 1;
        assert idx'[k] == idx[l] && es'[k] == es[l];
      }
    }
    forall i: nat | i < |chips| && TakesPart(chips[i]) ensures i in idx' {
      if i == 0 {
        assert idx'[0] == 0;
      }
    }
  }

  /** Exactly the pinned and enabled chips that are not blank take part, in the order of the list. */
  lemma {:induction false} ActiveMeaning(chips: seq<Chip>) returns (idx: seq<nat>)
    ensures Chosen(chips, idx, Active(chips))
    decreases |chips|
  {
    hide JsTrim, Written, Strips, Chosen;
    if chips == [] {
      idx := [];
      NoneChosen();
    } else {
      WrittenIff(chips[0].expr);
      JsTrimMeaning(chips[0].expr);
      var later := ActiveMeaning(chips[1..]);
      if TakesPart(chips[0]) {
        ChosenTake(chips, JsTrim(chips[0].expr), later, Active(chips[1..]));
        idx := [0] + Moved(later);
      } else {
        ChosenSkip(chips, later, Active(chips[1..]));
        assert [] + Active(chips[1..]) == Active(chips[1..]);
        idx := Moved(later);
      }
    }
  }

  /** The parts that are joined: the texts of those chips, then that of the working filter unless it is blank. */
  lemma PartsMeaning(working: string, chips: seq<Chip>) returns (idx: seq<nat>)
    ensures var es := Parts(working, chips);
            && |es| == |idx| + (if Written(working) then 1 else 0) && Chosen(chips, idx, es[..|idx|])
            && (Written(working) ==> Strips(working, es[|idx|]))
  {
    hide JsTrim, Written, Strips, Active;
    idx := ActiveMeaning(chips);
    WrittenIff(working);
    JsTrimMeaning(working);
    assert Parts(working, chips)[..|idx|] == Active(chips);
  }

  lemma NoneChosen()
    ensures Chosen([], [], [])
  {
  }

  function MoreText(es: seq<string>): string {
    if es == [] then "" else " " + Wrapped(es[0]) + MoreText(es[1..])
  }

  function Text(es: seq<string>): string {
    if es == [] then "" else Wrapped(es[0]) + MoreText(es[1..])
  }

  lemma {:induction false} MoreTextPush(es: seq<string>, e: string)
    ensures MoreText(es + [e]) == MoreText(es) + (" " + Wrapped(e))
    decreases |es|
  {
    if es == [] {
      assert [e][1..] == [] && es + [e] == [e];
    } else {
      assert (es + [e])[1..] == es[1..] + [e];
      MoreTextPush(es[1..], e);
    }
  }

  lemma TextPush(es: seq<string>, e: string)
    ensures Text(es + [e]) == if es == [] then Wrapped(e) else Text(es) + (" " + Wrapped(e))
  {
    if es == [] {
      assert [e][1..] == [] && es + [e] == [e];
    } else {
      assert (es + [e])[1..] == es[1..] + [e];
      MoreTextPush(es[1..], e);
    }
  }

  method Add(text: string, ghost es: seq<string>, e: string) returns (r: string)
    requires text == Text(es)
    ensures r == Text(es + [e])
  {
    TextPush(es, e);
    if es != [] {
      assert text[0] == '(';
    }
    r := if text == "" then Wrapped(e) else text + (" " + Wrapped(e));
  }

  lemma NothingActive(chips: seq<Chip>)
    ensures Text([]) == "" && [] + Active(chips) == Active(chips) && chips[0..] == chips &&
        Active(chips[|chips|..]) == []
  {
  }

  lemma ActiveAt(chips: seq<Chip>, i: nat, es: seq<string>)
    requires i < |chips|
    ensures var c := chips[i]; var e := JsTrim(c.expr);
            es + Active(chips[i..])
            == (if c.pinned && c.enabled && e != "" then es + [e] else es) + Active(chips[i + 1..])
  {
    hide JsTrim;
    assert chips[i..][1..] == chips[i + 1..];
  }

  method ComputeEffectiveFilter(working: string, chips: seq<Chip>) returns (text: string)
    ensures text == Text(Parts(working, chips))
  {
    hide Active, Text, JsTrim;
    text := "";
    ghost var es := [];
    var i := 0;
    NothingActive(chips);
    while i < |chips|
      invariant 0 <= i <= |chips|
      invariant text == Text(es) && Active(chips) == es + Active(chips[i..])
    {
      ActiveAt(chips, i, es);
      var c := chips[i];
      i := i + 1;
      if !c.pinned || !c.enabled {
        continue;
      }
      var e := JsTrim(c.expr);
      if e != "" {
        text := Add(text, es, e);
        es := es + [e];
      }
    }
    assert es + [] == es;
    var w := JsTrim(working);
    if w != "" {
      text := Add(text, es, w);
    }
  }

  /** An expression that is a filter by itself. */
  ghost predicate Standalone(e: string, n: Node, env: Env) {
    TrimSpace(e) == e && Parse(e, env) == Filtered(n)
  }

  /** A quoted string whose body has reached j and that has no closing quote. */
  predicate OpenFrom(s: string, j: nat)
    requires j <= |s|
    decreases |s| - j
  {
    if j == |s| then true
    else if s[j] == '"' then false
    else if s[j] == '\\' && j + 1 < |s| then OpenFrom(s, j + 2)
    else OpenFrom(s, j + 1)
  }

  /** The last token of the expression is a quoted string without its closing quote. */
  predicate EndsInOpenQuote(e: string, inVal: bool, env: Env)
    decreases |e|
  {
    && e != ""
    && var (tok, n) := Next(e, inVal, env);
       if n == |e| then e[0] == '"' && OpenFrom(e, 1) else EndsInOpenQuote(e[n..], Expects(tok, inVal), env)
  }

  /** The expression reads the same, token by token, when a parenthesis closes right behind it. */
  ghost predicate Sealed(e: string, inVal: bool, env: Env)
    decreases |e|
  {
    e != "" ==>
      var (tok, n) := Next(e, inVal, env);
      Next(e + ")", inVal, env) == (tok, n) && Sealed(e[n..], Expects(tok, inVal), env)
  }

  lemma {:induction false} RunCloses(s: string, j: nat)
    requires j <= |s|
    ensures RunEnd(s + ")", j) == RunEnd(s, j)
    decreases |s| - j
  {
    if j < |s| {
      RunCloses(s, j + 1);
    }
  }

  lemma {:induction false} FlagsClose(s: string, j: nat)
    requires j <= |s|
    ensures FlagsEnd(s + ")", j) == FlagsEnd(s, j)
    decreases |s| - j
  {
    if j < |s| {
      FlagsClose(s, j + 1);
    }
  }

  lemma {:induction false} RegexCloses(s: string, j: nat)
    requires j <= |s|
    ensures RegexEnd(s + ")", j) == RegexEnd(s, j)
    decreases |s| - j
  {
    if j < |s| {
      assert (s + ")")[j] == s[j];
      FlagsClose(s, j + 1);
      RegexCloses(s, j + 1);
      if j + 1 < |s| {
        RegexCloses(s, j + 2);
      }
    }
  }

  lemma {:induction false} NumbersClose(s: string, j: nat)
    requires j <= |s|
    ensures SignedEnd(s + ")", j) == SignedEnd(s, j) && NumberEnd(s + ")", j) == NumberEnd(s, j)
    decreases |s| - j
  {
    if j < |s| {
      NumbersClose(s, j + 1);
    }
  }

  lemma {:induction false} WordCloses(s: string, j: nat, inVal: bool)
    requires j <= |s|
    ensures WordEnd(s + ")", j, inVal) == WordEnd(s, j, inVal)
         || (WordEnd(s, j, inVal) == |s| - 1 && s[|s| - 1] == '.')
    decreases |s| - j
  {
    if j < |s| {
      assert (s + ")")[j] == s[j];
      WordCloses(s, j + 1, inVal);
    }
  }

  lemma {:induction false} SpacesClose(s: string, j: nat)
    requires j <= |s|
    ensures SpacesEnd(s + ")", j) == SpacesEnd(s, j)
    decreases |s| - j
  {
    if j < |s| {
      SpacesClose(s, j + 1);
    }
  }

  lemma {:induction false} StringCloses(s: string, j: nat, q: Quoting)
    requires j <= |s|
    ensures OpenFrom(s, j) ==> StringFrom(s, j, q).1 == |s|
    ensures !OpenFrom(s, j) ==> StringFrom(s + ")", j, q) == StringFrom(s, j, q)
    decreases |s| - j
  {
    if j < |s| && s[j] != '"' {
      assert (s + ")")[j] == s[j];
      if s[j] == '\\' && j + 1 < |s| {
        assert (s + ")")[j + 1] == s[j + 1];
        StringCloses(s, j + 2, q.Char(s[j + 1]));
      } else if s[j] == '*' {
        StringCloses(s, j + 1, q.Star());
      } else {
        StringCloses(s, j + 1, q.Char(s[j]));
      }
    }
  }

  predicate StartsWord(c: char) {
    !IsSpace(c) && !IsDigit(c) && c !in "():@[].\"/><!-"
  }

  lemma WordNextCloses(e: string, inVal: bool, env: Env)
    requires e != "" && StartsWord(e[0])
    ensures Next(e + ")", inVal, env) == Next(e, inVal, env) || e[Next(e, inVal, env).1..] == "."
  {
    hide WordEnd, Word;
    var s, j := e + ")", WordEnd(e, 0, inVal);
    assert s[0] == e[0];
    WordCloses(e, 0, inVal);
    assert Next(e, inVal, env) == (Word(e[..j], env), j);
    assert s[..j] == e[..j];
  }

  lemma QuoteNextCloses(e: string, inVal: bool, env: Env)
    requires e != "" && e[0] == '"'
    ensures Next(e + ")", inVal, env) == Next(e, inVal, env) || (OpenFrom(e, 1) && Next(e, inVal, env).1 == |e|)
  {
    hide StringFrom, OpenFrom;
    assert (e + ")")[0] == e[0];
    StringCloses(e, 1, NO_QUOTE);
  }

  lemma SymbolNextCloses(e: string, inVal: bool, env: Env)
    requires e != "" && !StartsWord(e[0]) && e[0] != '"' && e != "-" && e != "!"
    ensures Next(e + ")", inVal, env) == Next(e, inVal, env)
  {
    hide RunEnd, RegexEnd, FlagsEnd, SignedEnd, NumberEnd, SpacesEnd;
    var s := e + ")";
    assert s[0] == e[0] && s[1] == if |e| > 1 then e[1] else ')';
    RunCloses(e, 1);
    RegexCloses(e, 1);
    NumbersClose(e, 0);
    NumbersClose(e, 1);
    SpacesClose(e, 1);
    var n := Next(e, inVal, env).1;
    assert s[..n] == e[..n];
    if |e| == 1 {
      assert e == [e[0]];
    }
  }

  /** A parenthesis right behind the text changes its first token only if that is an open string, or a sign
      with nothing behind it, or has only a dot behind it. */
  lemma NextCloses(e: string, inVal: bool, env: Env)
    requires e != ""
    ensures || Next(e + ")", inVal, env) == Next(e, inVal, env)
            || (e[0] == '"' && OpenFrom(e, 1) && Next(e, inVal, env).1 == |e|)
            || e == "-" || e == "!"
            || e[Next(e, inVal, env).1..] == "."
  {
    hide Next, OpenFrom;
    if e[0] == '"' {
      QuoteNextCloses(e, inVal, env);
    } else if StartsWord(e[0]) {
      WordNextCloses(e, inVal, env);
    } else if e != "-" && e != "!" {
      SymbolNextCloses(e, inVal, env);
    }
  }

  lemma LastRaw(e: string, inVal: bool, env: Env)
    requires e != ""
    ensures var (tok, n) := Next(e, inVal, env); var ts := RawTokens(e, inVal, env);
            var later := RawTokens(e[n..], Expects(tok, inVal), env);
            ts == [tok] + later && (Dangling(later) ==> Dangling(ts)) && (n == |e| ==> ts == [tok])
  {
    hide Next;
  }

  lemma SignOrDot(e: string, inVal: bool, env: Env)
    requires e == "-" || e == "!" || e == "."
    ensures Dangling(RawTokens(e, inVal, env)) && !EndsInOpenQuote(e, inVal, env)
  {
    assert e[1..] == "";
  }

  /** A text that neither leaves a quote open nor ends in a sign or a dot is sealed. */
  lemma {:induction false} Seals(e: string, inVal: bool, env: Env)
    requires !EndsInOpenQuote(e, inVal, env) && !Dangling(RawTokens(e, inVal, env))
    ensures Sealed(e, inVal, env)
    decreases |e|
  {
    hide Next, RawTokens, Dangling, OpenFrom, Expects;
    if e != "" {
      var (tok, n) := Next(e, inVal, env);
      LastRaw(e, inVal, env);
      NextCloses(e, inVal, env);
      if e == "-" || e == "!" {
        SignOrDot(e, inVal, env);
      }
      if e[n..] == "." {
        SignOrDot(e[n..], Expects(tok, inVal), env);
      }
      if n == |e| {
        NothingOpen(Expects(tok, inVal), env);
      }
      Seals(e[n..], Expects(tok, inVal), env);
    }
  }

  lemma NothingOpen(inVal: bool, env: Env)
    ensures !EndsInOpenQuote("", inVal, env) && !Dangling(RawTokens("", inVal, env))
  {
  }

  ghost predicate Gap(more: string) {
    more == "" || more[0] == ' '
  }

  lemma {:induction false} RunSame(s: string, more: string, j: nat)
    requires j <= |s| && RunEnd(s, j) < |s|
    ensures RunEnd(s + more, j) == RunEnd(s, j)
    decreases |s| - j
  {
    if !StopsRun(s[j]) {
      RunSame(s, more, j + 1);
    }
  }

  lemma {:induction false} FlagsSame(s: string, more: string, j: nat)
    requires j <= |s| && FlagsEnd(s, j) < |s|
    ensures FlagsEnd(s + more, j) == FlagsEnd(s, j)
    decreases |s| - j
  {
    if s[j] == 'i' || s[j] == 'g' {
      FlagsSame(s, more, j + 1);
    }
  }

  lemma {:induction false} FlagsStop(s: string, j: nat)
    requires j < |s| && s[|s| - 1] == ')'
    ensures FlagsEnd(s, j) < |s|
    decreases |s| - j
  {
    if s[j] == 'i' || s[j] == 'g' {
      FlagsStop(s, j + 1);
    }
  }

  /** Whitespace behind the parenthesis keeps an open literal open. */
  lemma {:induction false} RegexSame(s: string, more: string, j: nat)
    requires j <= |s| && s != "" && s[|s| - 1] == ')' && Gap(more)
    ensures RegexEnd(s + more, j) == RegexEnd(s, j)
    decreases |s| - j
  {
    var m := s + more;
    if j == |s| {
      assert more != "" ==> m[j] == ' ';
    } else if !IsSpace(s[j]) {
      assert m[j] == s[j];
      if s[j] == '\\' && j + 1 < |s| {
        RegexSame(s, more, j + 2);
      } else if s[j] == '/' {
        FlagsStop(s, j + 1);
        FlagsSame(s, more, j + 1);
      } else {
        RegexSame(s, more, j + 1);
      }
    }
  }

  lemma {:induction false} NumbersSame(s: string, more: string, j: nat)
    requires j <= |s|
    ensures SignedEnd(s, j) < |s| ==> SignedEnd(s + more, j) == SignedEnd(s, j)
    ensures s != "" && s[|s| - 1] == ')' && NumberEnd(s, j) < |s| ==> NumberEnd(s + more, j) == NumberEnd(s, j)
    decreases |s| - j
  {
    if j < |s| {
      NumbersSame(s, more, j + 1);
    }
  }

  lemma {:induction false} WordSame(s: string, more: string, j: nat, inVal: bool)
    requires j <= |s| && s != "" && s[|s| - 1] == ')' && WordEnd(s, j, inVal) < |s|
    ensures WordEnd(s + more, j, inVal) == WordEnd(s, j, inVal)
    decreases |s| - j
  {
    if WordEnd(s, j, inVal) > j {
      WordSame(s, more, j + 1, inVal);
    }
  }

  lemma {:induction false} SpacesSame(s: string, more: string, j: nat)
    requires j <= |s| && SpacesEnd(s, j) < |s|
    ensures SpacesEnd(s + more, j) == SpacesEnd(s, j)
    decreases |s| - j
  {
    if IsSpace(s[j]) {
      SpacesSame(s, more, j + 1);
    }
  }

  lemma {:induction false} StringSame(s: string, more: string, j: nat, q: Quoting)
    requires j <= |s| && StringFrom(s, j, q).1 < |s|
    ensures StringFrom(s + more, j, q) == StringFrom(s, j, q)
    decreases |s| - j
  {
    if j < |s| && s[j] != '"' {
      if s[j] == '\\' && j + 1 < |s| {
        StringSame(s, more, j + 2, q.Char(s[j + 1]));
      } else if s[j] == '*' {
        StringSame(s, more, j + 1, q.Star());
      } else {
        StringSame(s, more, j + 1, q.Char(s[j]));
      }
    }
  }

  /** A token that ends before the parenthesis does not see what follows the parenthesis. */
  lemma NextSame(e: string, more: string, inVal: bool, env: Env)
    requires e != "" && Gap(more) && Next(e + ")", inVal, env).1 <= |e|
    ensures Next(e + ")" + more, inVal, env) == Next(e + ")", inVal, env)
  {
    hide RunEnd, RegexEnd, FlagsEnd, SignedEnd, NumberEnd, WordEnd, SpacesEnd, StringFrom, Word;
    var s := e + ")";
    var m := s + more;
    var n := Next(s, inVal, env).1;
    assert m[0] == s[0] && m[1] == s[1];
    RegexSame(s, more, 1);
    NumbersSame(s, more, 0);
    NumbersSame(s, more, 1);
    if RunEnd(s, 1) < |s| {
      RunSame(s, more, 1);
    }
    if WordEnd(s, 0, inVal) < |s| {
      WordSame(s, more, 0, inVal);
    }
    if SpacesEnd(s, 1) < |s| {
      SpacesSame(s, more, 1);
    }
    if StringFrom(s, 1, NO_QUOTE).1 < |s| {
      StringSame(s, more, 1, NO_QUOTE);
    }
    assert m[..n] == s[..n];
  }

  /** A sealed expression reads the same in parentheses, whatever follows them after whitespace. */
  lemma {:induction false} SealedReads(e: string, more: string, inVal: bool, env: Env)
    requires Sealed(e, inVal, env) && Gap(more)
    ensures RawTokens(e + ")" + more, inVal, env) == RawTokens(e, inVal, env) + ([RP] + RawTokens(more, false, env))
    decreases |e|
  {
    hide Next, RawTokens;
    if e == "" {
      assert e + ")" + more == [')'] + more;
      RawChar(')', more, inVal, env);
      RawEnd(e, inVal, env);
    } else {
      var (tok, n) := Next(e, inVal, env);
      NextSame(e, more, inVal, env);
      assert (e + ")" + more)[n..] == e[n..] + ")" + more;
      SealedReads(e[n..], more, Expects(tok, inVal), env);
      RawOne(e, inVal, env);
      RawOne(e + ")" + more, inVal, env);
    }
  }

  lemma {:induction false} JoinedInside(last: Option<Token>, ts: seq<Token>, more: seq<Token>)
    ensures Joined(last, ts + ([RP] + more)) == Joined(last, ts) + ([RP] + Joined(Some(RP), more))
    decreases |ts|
  {
    if ts == [] {
      JoinedKeeps(last, RP, more);
      assert ts + ([RP] + more) == [RP] + more;
    } else {
      assert (ts + ([RP] + more))[1..] == ts[1..] + ([RP] + more);
      JoinedInside(last, ts[1..], more);
      JoinedInside(Some(ts[0]), ts[1..], more);
    }
  }

  /** An opening parenthesis is like the start of the input. */
  lemma {:induction false} JoinedFresh(ts: seq<Token>)
    ensures Joined(Some(LP), ts) == Joined(None, ts)
    decreases |ts|
  {
    if ts != [] && ts[0] == SPACE {
      JoinedFresh(ts[1..]);
    }
  }

  lemma {:induction false} JoinedDangles(last: Option<Token>, ts: seq<Token>)
    requires Dangling(ts)
    ensures Dangling(Joined(last, ts))
    decreases |ts|
  {
    if |ts| > 1 {
      JoinedDangles(last, ts[1..]);
      JoinedDangles(Some(ts[0]), ts[1..]);
    }
  }

  /** A filter by itself that leaves no quote open is sealed: a sign or a dot at its end would make it
      malformed. */
  lemma FilterSeals(e: string, n: Node, env: Env)
    requires Standalone(e, n, env) && !EndsInOpenQuote(e, false, env)
    ensures Sealed(e, false, env)
  {
    hide ParseOr, Scanned, RawTokens, Joined, EndsInOpenQuote, TrimSpace, Sealed;
    if Dangling(RawTokens(e, false, env)) {
      JoinedDangles(None, RawTokens(e, false, env));
      DanglingFails(Tokens(e, env), env);
      CompleteScans(Tokens(e, env), n, env);
    } else {
      Seals(e, false, env);
    }
  }

  /** No part ends in an open quote. */
  predicate AllClosed(es: seq<string>, env: Env) {
    forall i :: 0 <= i < |es| ==> !EndsInOpenQuote(es[i], false, env)
  }

  ghost predicate AllStandalone(es: seq<string>, ns: seq<Node>, env: Env) {
    |es| == |ns| && forall i :: 0 <= i < |es| ==> Standalone(es[i], ns[i], env)
  }

  function Groups(es: seq<string>, ns: seq<Node>, env: Env): (gs: seq<Group>)
    requires |es| == |ns|
    ensures |gs| == |es|
  {
    if es == [] then [] else [Group(Tokens(es[0], env), ns[0])] + Groups(es[1..], ns[1..], env)
  }

  lemma {:induction false} GroupsComplete(es: seq<string>, ns: seq<Node>, env: Env)
    requires AllStandalone(es, ns, env)
    ensures forall g :: g in Groups(es, ns, env) ==> Complete(g, env)
    decreases |es|
  {
    if es != [] {
      assert Standalone(es[0], ns[0], env);
      GroupsComplete(es[1..], ns[1..], env);
    }
  }

  /** One wrapped expression and what follows it. */
  lemma WrappedReads(e: string, n: Node, last: Option<Token>, more: string, env: Env)
    requires Standalone(e, n, env) && !EndsInOpenQuote(e, false, env) && Gap(more)
    ensures Joined(last, RawTokens(Wrapped(e) + more, false, env))
         == [LP] + Tokens(e, env) + [RP] + Joined(Some(RP), RawTokens(more, false, env))
  {
    hide RawTokens, Joined, Parse, TrimSpace, Sealed, EndsInOpenQuote;
    assert Wrapped(e) + more == ['('] + (e + ")" + more);
    RawChar('(', e + ")" + more, false, env);
    FilterSeals(e, n, env);
    SealedReads(e, more, false, env);
    var ts, tail := RawTokens(e, false, env), RawTokens(more, false, env);
    JoinedKeeps(last, LP, ts + ([RP] + tail));
    JoinedInside(Some(LP), ts, tail);
    JoinedFresh(ts);
  }

  lemma {:induction false} MoreReads(es: seq<string>, ns: seq<Node>, env: Env)
    requires AllStandalone(es, ns, env) && AllClosed(es, env)
    ensures Joined(Some(RP), RawTokens(MoreText(es), false, env)) == MoreGroups(Groups(es, ns, env))
    ensures Gap(MoreText(es))
    decreases |es|
  {
    hide RawTokens, Joined, Standalone, Wrapped, EndsInOpenQuote;
    if es == [] {
      RawEnd("", false, env);
      JoinedNothing(Some(RP));
    } else {
      assert Standalone(es[0], ns[0], env);
      MoreReads(es[1..], ns[1..], env);
      var tail := Wrapped(es[0]) + MoreText(es[1..]);
      assert MoreText(es) == [' '] + tail;
      WrappedStarts(es[0], MoreText(es[1..]), env);
      RawChar(' ', tail, false, env);
      JoinedSpace(RawTokens(tail, false, env));
      WrappedReads(es[0], ns[0], Some(SPACE), MoreText(es[1..]), env);
    }
  }

  lemma WrappedStarts(e: string, more: string, env: Env)
    ensures var s := Wrapped(e) + more;
        s != "" && s[0] == '(' && RawTokens(s, false, env) != [] &&
        RawTokens(s, false, env)[0] == LP
  {
    hide RawTokens;
    assert Wrapped(e) + more == ['('] + (e + ")" + more);
    RawChar('(', e + ")" + more, false, env);
  }

  /** Whitespace between two groups stays. */
  lemma JoinedSpace(ts: seq<Token>)
    requires ts != [] && ts[0] == LP
    ensures Joined(Some(RP), [SPACE] + ts) == [SPACE] + Joined(Some(SPACE), ts)
  {
    assert ([SPACE] + ts)[1..] == ts;
  }

  lemma {:induction false} TextCloses(es: seq<string>)
    ensures es != [] ==> var s := Text(es); s != "" && s[0] == '(' && s[|s| - 1] == ')'
    ensures MoreText(es) != "" ==> MoreText(es)[|MoreText(es)| - 1] == ')'
    decreases |es|
  {
    if es != [] {
      TextCloses(es[1..]);
    }
  }

  lemma MoreGaps(es: seq<string>)
    ensures Gap(MoreText(es))
  {
  }

  /** The combination of parts that leave no quote open. */
  lemma ClosedPartsConjoin(es: seq<string>, ns: seq<Node>, env: Env)
    requires es != [] && AllStandalone(es, ns, env) && AllClosed(es, env)
    ensures Tokens(Text(es), env) == InParens(Groups(es, ns, env)[0]) + MoreGroups(Groups(es, ns, env)[1..])
  {
    hide Joined, Standalone, EndsInOpenQuote, RawTokens;
    assert Standalone(es[0], ns[0], env);
    MoreReads(es[1..], ns[1..], env);
    WrappedReads(es[0], ns[0], None, MoreText(es[1..]), env);
    assert Groups(es, ns, env)[1..] == Groups(es[1..], ns[1..], env);
  }

  /** What the parts of a literal say. */
  function PartsText(parts: seq<GlobPart>): string {
    if parts == [] then ""
    else PartsText(parts[..|parts| - 1]) + if parts[|parts| - 1].wild then "*" else parts[|parts| - 1].lit
  }

  lemma PartsTextPush(parts: seq<GlobPart>, p: GlobPart)
    ensures PartsText(parts + [p]) == PartsText(parts) + if p.wild then "*" else p.lit
  {
    assert (parts + [p])[..|parts|] == parts;
  }

  ghost predicate TextMatches(q: Quoting) {
    q.text == PartsText(q.parts) + q.lit
  }

  lemma QuotingMatches(q: Quoting, c: char)
    requires TextMatches(q)
    ensures TextMatches(q.Char(c)) && TextMatches(q.Star()) && TextMatches(q.Flushed()) && q.Flushed().lit == ""
  {
    hide PartsText;
    PartsTextPush(q.parts, Lit(q.lit));
    PartsTextPush(q.Flushed().parts, WILD);
    Reassoc(PartsText(q.parts), q.lit, [c]);
  }

  lemma Reassoc(a: string, b: string, c: string)
    ensures (a + b) + c == a + (b + c) && a + "" == a
  {
  }

  /** A quoted string keeps what it has read, and its parts say what its text says. */
  lemma {:induction false} StringText(s: string, j: nat, q: Quoting)
    requires j <= |s| && TextMatches(q)
    ensures var t := StringFrom(s, j, q).0;
            t.kind == TString && q.text <= t.text && (t.parts.Some? ==> PartsText(t.parts.value) == t.text)
    decreases |s| - j
  {
    hide TextMatches;
    if j < |s| && s[j] != '"' {
      if s[j] == '\\' && j + 1 < |s| {
        QuotingMatches(q, s[j + 1]);
        StringText(s, j + 2, q.Char(s[j + 1]));
      } else if s[j] == '*' {
        QuotingMatches(q, s[j]);
        StringText(s, j + 1, q.Star());
      } else {
        QuotingMatches(q, s[j]);
        StringText(s, j + 1, q.Char(s[j]));
      }
    } else {
      QuotingMatches(q, '"');
      StringEnds(q);
    }
  }

  lemma StringEnds(q: Quoting)
    requires TextMatches(q) && TextMatches(q.Flushed()) && q.Flushed().lit == ""
    ensures q.Done().kind == TString && q.Done().text == q.text
    ensures q.Done().parts.Some? ==> PartsText(q.Done().parts.value) == q.text
  {
  }

  /** An open string swallows the parenthesis that was to close its group. */
  lemma {:induction false} OpenSwallows(s: string, more: string, j: nat, q: Quoting)
    requires j <= |s| && OpenFrom(s, j) && TextMatches(q) && more != "" && more[0] == ')'
    ensures StringFrom(s + more, j, q).0.text != StringFrom(s, j, q).0.text
    decreases |s| - j
  {
    hide TextMatches;
    var m := s + more;
    if j == |s| {
      QuotingMatches(q, ')');
      StringText(m, j + 1, q.Char(')'));
      assert |q.Char(')').text| == |q.text| + 1;
    } else {
      assert m[j] == s[j];
      if s[j] == '\\' && j + 1 < |s| {
        assert m[j + 1] == s[j + 1];
        QuotingMatches(q, s[j + 1]);
        OpenSwallows(s, more, j + 2, q.Char(s[j + 1]));
      } else if s[j] == '\\' {
        assert m[j + 1] == ')';
        QuotingMatches(q, ')');
        StringText(m, j + 2, q.Char(')'));
        assert q.Char(')').text[|q.text|] == ')' && q.Char('\\').text[|q.text|] == '\\';
        assert StringFrom(s, j, q).0.text == q.Char('\\').text;
      } else if s[j] == '*' {
        QuotingMatches(q, s[j]);
        OpenSwallows(s, more, j + 1, q.Star());
      } else {
        QuotingMatches(q, s[j]);
        OpenSwallows(s, more, j + 1, q.Char(s[j]));
      }
    }
  }

  lemma OpenUnlike(e: string, more: string)
    requires e != "" && e[0] == '"' && OpenFrom(e, 1) && Gap(more)
    ensures Unlike(StringFrom(e, 1, NO_QUOTE).0, StringFrom(e + ")" + more, 1, NO_QUOTE).0)
    ensures StringFrom(e, 1, NO_QUOTE).1 == |e|
  {
    hide OpenFrom, StringFrom;
    assert e + ")" + more == e + (")" + more);
    StringCloses(e, 1, NO_QUOTE);
    StringText(e, 1, NO_QUOTE);
    StringText(e + ")" + more, 1, NO_QUOTE);
    OpenSwallows(e, ")" + more, 1, NO_QUOTE);
  }

  lemma OpenFirst(e: string, more: string, inVal: bool, env: Env)
    requires e != "" && e[0] == '"' && OpenFrom(e, 1) && Gap(more)
    ensures Next(e, inVal, env).1 == |e|
    ensures Unlike(Next(e, inVal, env).0, Next(e + ")" + more, inVal, env).0)
  {
    hide OpenFrom, StringFrom, Unlike;
    OpenUnlike(e, more);
    assert (e + ")" + more)[0] == '"';
  }

  /** How an expression with an open quote reads in its group: as alone, up to that string. */
  lemma {:induction false} OpenReads(e: string, more: string, inVal: bool, env: Env)
    returns (front: seq<Token>, t: Token, u: Token, later: seq<Token>)
    requires EndsInOpenQuote(e, inVal, env) && Gap(more)
    ensures RawTokens(e, inVal, env) == front + [t] && Unlike(t, u)
    ensures RawTokens(e + ")" + more, inVal, env) == front + ([u] + later)
    decreases |e|
  {
    hide Next, RawTokens, OpenFrom, Unlike, Expects;
    var m := e + ")" + more;
    var (tok, n) := Next(e, inVal, env);
    var (tok', n') := Next(m, inVal, env);
    RawOne(e, inVal, env);
    RawOne(m, inVal, env);
    if n == |e| {
      OpenFirst(e, more, inVal, env);
      RawEnd(e[n..], Expects(tok, inVal), env);
      front, t, u, later := [], tok, tok', RawTokens(m[n'..], Expects(tok', inVal), env);
    } else {
      NextCloses(e, inVal, env);
      if e[n..] == "." {
        SignOrDot(e[n..], Expects(tok, inVal), env);
      }
      NextSame(e, more, inVal, env);
      assert m[n..] == e[n..] + ")" + more;
      var f;
      f, t, u, later := OpenReads(e[n..], more, Expects(tok, inVal), env);
      front := [tok] + f;
      assert [tok] + (f + [t]) == front + [t] && [tok] + (f + ([u] + later)) == front + ([u] + later);
    }
  }

  lemma {:induction false} JoinedParts(last: Option<Token>, front: seq<Token>, t: Token, u: Token, later: seq<Token>)
    returns (kept: seq<Token>)
    requires Unlike(t, u)
    ensures Joined(last, front + [t]) == kept + [t]
    ensures Joined(last, front + ([u] + later)) == kept + ([u] + Joined(Some(u), later))
    decreases |front|
  {
    var a, b := front + [t], front + ([u] + later);
    if front == [] {
      kept := [];
      assert a == [t] && b == [u] + later && [t][1..] == [] && ([u] + later)[1..] == later;
    } else {
      assert a[1..] == front[1..] + [t] && b[1..] == front[1..] + ([u] + later);
      assert a[1..][0].kind == b[1..][0].kind;
      if front[0] == SPACE && !Joins(last, a[1..]) {
        kept := JoinedParts(last, front[1..], t, u, later);
      } else {
        var k := JoinedParts(Some(front[0]), front[1..], t, u, later);
        kept := [front[0]] + k;
      }
    }
  }

  lemma PartedHere(front: seq<Token>, t: Token, x: seq<Token>, u: Token, y: seq<Token>)
    requires Unlike(t, u)
    ensures Parted(front + [t] + x, front + ([u] + y))
  {
    hide Unlike;
    var a, b, k := front + [t] + x, front + ([u] + y), |front|;
    assert a[..k] == b[..k] && a[k] == t && b[k] == u;
  }

  /** A group with an open quote does not read as the group it should be, whatever follows. */
  lemma WrappedLeaks(e: string, last: Option<Token>, more: string, rest: seq<Token>, env: Env)
    requires EndsInOpenQuote(e, false, env) && Gap(more)
    ensures Parted([LP] + Tokens(e, env) + [RP] + rest, Joined(last, RawTokens(Wrapped(e) + more, false, env)))
  {
    hide RawTokens, Joined, EndsInOpenQuote, Unlike, Parted;
    assert Wrapped(e) + more == ['('] + (e + ")" + more);
    RawChar('(', e + ")" + more, false, env);
    var front, t, u, later := OpenReads(e, more, false, env);
    var kept := JoinedParts(Some(LP), front, t, u, later);
    JoinedKeeps(last, LP, front + ([u] + later));
    JoinedFresh(front + [t]);
    PartedHere(kept, t, [RP] + rest, u, Joined(Some(u), later));
    PartedAfter([LP], kept + [t] + ([RP] + rest), kept + ([u] + Joined(Some(u), later)));
    assert [LP] + (kept + [t] + ([RP] + rest)) == [LP] + (kept + [t]) + [RP] + rest;
  }

  /** If some part has an open quote, the combined text does not read as its groups. */
  lemma {:induction false} MoreLeaks(es: seq<string>, ns: seq<Node>, env: Env)
    requires AllStandalone(es, ns, env) && !AllClosed(es, env)
    ensures Parted(MoreGroups(Groups(es, ns, env)), Joined(Some(RP), RawTokens(MoreText(es), false, env)))
    decreases |es|
  {
    hide RawTokens, Joined, Standalone, Wrapped, EndsInOpenQuote, Parted;
    var gs := Groups(es, ns, env);
    assert Standalone(es[0], ns[0], env);
    var tail := Wrapped(es[0]) + MoreText(es[1..]);
    assert MoreText(es) == [' '] + tail;
    WrappedStarts(es[0], MoreText(es[1..]), env);
    RawChar(' ', tail, false, env);
    JoinedSpace(RawTokens(tail, false, env));
    GroupLeaks(es, ns, Some(SPACE), env);
    PartedAfter([SPACE], InParens(gs[0]) + MoreGroups(gs[1..]), Joined(Some(SPACE), RawTokens(tail, false, env)));
    assert [SPACE] + (InParens(gs[0]) + MoreGroups(gs[1..])) == MoreGroups(gs);
  }

  lemma {:induction false} GroupLeaks(es: seq<string>, ns: seq<Node>, last: Option<Token>, env: Env)
    requires AllStandalone(es, ns, env) && !AllClosed(es, env)
    ensures Parted(InParens(Groups(es, ns, env)[0]) + MoreGroups(Groups(es, ns, env)[1..]),
                   Joined(last, RawTokens(Wrapped(es[0]) + MoreText(es[1..]), false, env)))
    decreases |es|, 0
  {
    hide RawTokens, Joined, Wrapped, EndsInOpenQuote, Parted, MoreText, Parse, TrimSpace;
    var gs := Groups(es, ns, env);
    var more := MoreText(es[1..]);
    assert gs[1..] == Groups(es[1..], ns[1..], env);
    MoreGaps(es[1..]);
    if EndsInOpenQuote(es[0], false, env) {
      WrappedLeaks(es[0], last, more, MoreGroups(gs[1..]), env);
    } else {
      assert Standalone(es[0], ns[0], env);
      WrappedReads(es[0], ns[0], last, more, env);
      MoreLeaks(es[1..], ns[1..], env);
      PartedAfter(InParens(gs[0]), MoreGroups(gs[1..]), Joined(Some(RP), RawTokens(more, false, env)));
    }
  }

  /** What the quick filters promise, and exactly when they keep it: if the active chips and the working
      filter are filters by themselves, the combined expression parses to the conjunction of all of them,
      nested to the left in the order of the chips, if and only if none of them ends in an open quote. With
      none of them it keeps everything. */
  lemma EffectiveFilterConjoins(working: string, chips: seq<Chip>, ns: seq<Node>, env: Env)
    requires AllStandalone(Parts(working, chips), ns, env)
    ensures var es := Parts(working, chips);
            if ns == [] then Parse(Text(es), env) == Everything
            else Parse(Text(es), env) == Filtered(Conjoin(ns[0], Groups(es, ns, env)[1..])) <==> AllClosed(es, env)
  {
    hide Joined, Standalone, Parts, TrimSpace, EndsInOpenQuote, RawTokens, ParseOr, Parted;
    var es := Parts(working, chips);
    if es == [] {
      NothingTrims();
    } else {
      var gs := Groups(es, ns, env);
      TextCloses(es);
      Untrimmed(Text(es));
      GroupsComplete(es, ns, env);
      GroupsMeanConjunction(gs, env);
      if AllClosed(es, env) {
        ClosedPartsConjoin(es, ns, env);
      } else {
        GroupLeaks(es, ns, None, env);
        PartedTreesDiffer(InParens(gs[0]) + MoreGroups(gs[1..]), Tokens(Text(es), env), Conjoin(gs[0].node, gs[1..]),
            env);
      }
    }
  }

  lemma NothingTrims()
    ensures TrimSpace("") == ""
  {
  }

  /** For one filter: put in parentheses it means what it means alone if and only if it does not end in an
      open quote. */
  lemma WrappedMeansSame(e: string, n: Node, env: Env)
    requires Standalone(e, n, env)
    ensures Parse(Wrapped(e), env) == Filtered(n) <==> !EndsInOpenQuote(e, false, env)
  {
    hide Joined, TrimSpace, EndsInOpenQuote, RawTokens, ParseOr, Parted;
    var es, ns := [e], [n];
    assert AllStandalone(es, ns, env);
    assert AllClosed(es, env) <==> !EndsInOpenQuote(es[0], false, env);
    var gs := Groups(es, ns, env);
    assert es[1..] == [] && gs[1..] == [] && Text(es) == Wrapped(e) + "" == Wrapped(e);
    TextCloses(es);
    Untrimmed(Text(es));
    GroupsComplete(es, ns, env);
    GroupsMeanConjunction(gs, env);
    if AllClosed(es, env) {
      ClosedPartsConjoin(es, ns, env);
    } else {
      GroupLeaks(es, ns, None, env);
      PartedTreesDiffer(InParens(gs[0]) + MoreGroups(gs[1..]), Tokens(Text(es), env), n, env);
    }
  }

  /** Every node of the conjunction is asked. */
  lemma EffectiveFilterMeaning(working: string, chips: seq<Chip>, ns: seq<Node>, env: Env, r: Reader, x: nat)
    requires |Parts(working, chips)| == |ns| > 0
    ensures Compile(Conjoin(ns[0], Groups(Parts(working, chips), ns, env)[1..]), r)(x)
       <==> forall i :: 0 <= i < |ns| ==> Compile(ns[i], r)(x)
  {
    hide Groups, Conjoin, Compile, Parts;
    var es := Parts(working, chips);
    var all := Groups(es, ns, env);
    var gs := all[1..];
    ConjunctionMeaning(ns[0], gs, r, x);
    GroupNodes(es, ns, env);
    assert forall i :: 0 <= i < |gs| ==> gs[i] == all[i + 1];
    if Compile(Conjoin(ns[0], gs), r)(x) {
      forall i | 0 <= i < |ns| ensures Compile(ns[i], r)(x) {
        if i > 0 {
          assert gs[i - 1] in gs && gs[i - 1].node == ns[i];
        }
      }
    }
  }

  lemma {:induction false} GroupNodes(es: seq<string>, ns: seq<Node>, env: Env)
    requires |es| == |ns|
    ensures forall i :: 0 <= i < |es| ==> Groups(es, ns, env)[i].node == ns[i]
    decreases |es|
  {
    if es != [] {
      GroupNodes(es[1..], ns[1..], env);
    }
  }

  /** How an open quote reads, alone and in front of a parenthesis. */
  lemma OpenQuoteReads(env: Env)
    ensures RawTokens("\"a", false, env) == [Token(TString, "a", 0.0, None)]
    ensures RawTokens("\"a)", false, env) == [Token(TString, "a)", 0.0, None)]
  {
    var t, u := Token(TString, "a", 0.0, None), Token(TString, "a)", 0.0, None);
    var q := NO_QUOTE.Char('a');
    assert q.text == "a" && q.Char(')').text == "a)";
    assert StringFrom("\"a", 1, NO_QUOTE) == StringFrom("\"a", 2, q) == (t, 2);
    assert StringFrom("\"a)", 1, NO_QUOTE) == StringFrom("\"a)", 2, q) == StringFrom("\"a)", 3, q.Char(')')) == (u, 3);
    assert Next("\"a", false, env) == (t, 2) && Next("\"a)", false, env) == (u, 3);
    assert "\"a"[2..] == "" && "\"a)"[3..] == "";
    RawOne("\"a", false, env);
    RawOne("\"a)", false, env);
    RawEnd("", false, env);
  }

  /** A quote that is left open is tolerated alone but swallows the parenthesis of its group. */
  lemma OpenQuoteLeaks(env: Env)
    ensures Parse("\"a", env) == Filtered(Substr(["msg"], "a", true, None))
    ensures Parse(Wrapped("\"a"), env) == Malformed
  {
    hide RawTokens, Joined, TrimSpace;
    var u := Token(TString, "a)", 0.0, None);
    Untrimmed(Wrapped("\"a"));
    OpenQuoteReads(env);
    assert Wrapped("\"a") == ['('] + "\"a)";
    RawChar('(', "\"a)", false, env);
    OpenQuoteParses('a', env);
    JoinedPlain(None, [LP, u], []);
    JoinedNothing(Some(u));
    assert [LP, u] + [] == [LP, u] && [LP] + [u] == [LP, u];
    StringParses(u, env);
    assert [LP, u][1..] == [u];
    assert ParseAtom([LP, u], env) == Err;
    assert ParseNot([LP, u], env) == Err && ParseOr([LP, u], env) == Err;
    assert Tokens(Wrapped("\"a"), env) == [LP, u];
  }

  lemma SwallowedString(env: Env)
    ensures Next("\"a) (\"b)", false, env) == (Token(TString, "a) (", 0.0, None), 6)
  {
    var s := "\"a) (\"b)";
    var q1 := NO_QUOTE.Char('a');
    var q2 := q1.Char(')');
    var q3 := q2.Char(' ');
    var q4 := q3.Char('(');
    var t := Token(TString, "a) (", 0.0, None);
    assert q1.text == "a" && q2.text == "a)" && q3.text == "a) " && q4.text == "a) (";
    assert StringFrom(s, 5, q4) == (t, 6);
    assert StringFrom(s, 3, q2) == StringFrom(s, 4, q3) == (t, 6);
    assert StringFrom(s, 1, NO_QUOTE) == StringFrom(s, 2, q1) == (t, 6);
  }

  lemma SwallowedReads(env: Env)
    ensures RawTokens("(\"a) (\"b)", false, env) == [LP, Token(TString, "a) (", 0.0, None), Tok(TIdent, "b"), RP]
  {
    hide RawTokens, Next;
    var s := "\"a) (\"b)";
    SwallowedString(env);
    assert "(\"a) (\"b)" == ['('] + s && s[6..] == "b" + ")" && ")" == [')'] + "";
    RawChar('(', s, false, env);
    RawOne(s, false, env);
    assert IsIdentStart('b') && IsIdent("b", env);
    RawWord("b", ")", false, env);
    assert Word("b", env) == Tok(TIdent, "b");
    RawChar(')', "", false, env);
    RawEnd("", false, env);
  }

  lemma StringAtom(t: Token, more: seq<Token>, env: Env)
    requires t.kind == TString && t.parts.None?
    ensures ParseNot([t] + more, env) == Ok(Substr(["msg"], t.text, true, None), more)
  {
    assert ([t] + more)[1..] == more;
  }

  lemma WordAtom(env: Env)
    ensures ParseNot([Tok(TIdent, "b"), RP], env) == Ok(Substr(["msg"], "b", false, None), [RP])
  {
    var b := Tok(TIdent, "b");
    assert [b, RP][1..] == [RP];
    assert Segments(["b"], [RP]) == (["b"], [RP]);
    assert ParseTerm([b, RP], env) == Ok(Substr(["msg"], "b", false, None), [RP]);
  }

  lemma SwallowedParses(t: Token, env: Env)
    requires t.kind == TString && t.parts.None?
    ensures ParseOr([LP, t, Tok(TIdent, "b"), RP], env)
         == Ok(And(Substr(["msg"], t.text, true, None), Substr(["msg"], "b", false, None)), [])
  {
    hide ParseNot, ParseOr;
    var b := Tok(TIdent, "b");
    var n, m := Substr(["msg"], t.text, true, None), Substr(["msg"], "b", false, None);
    assert [t] + [b, RP] == [t, b, RP] && [LP] + [t, b, RP] == [LP, t, b, RP];
    StringAtom(t, [b, RP], env);
    WordAtom(env);
    assert AndTail(And(n, m), [RP], env) == Ok(And(n, m), [RP]);
    assert AndTail(n, [b, RP], env) == AndRight(n, [b, RP], env) == Ok(And(n, m), [RP]);
    InGroup([t, b, RP], And(n, m), env);
  }

  lemma InGroup(ts: seq<Token>, n: Node, env: Env)
    requires ParseAnd(ts, env) == Ok(n, [RP])
    ensures ParseOr([LP] + ts, env) == Ok(n, [])
  {
    hide ParseAnd;
    assert OrTail(n, [RP], env) == Ok(n, [RP]);
    assert ParseOr(ts, env) == Ok(n, [RP]);
    ParensParse(ts, n, [], env);
    assert [RP] + [] == [RP];
    GroupIsAtom(ts, env);
    AloneParses([LP] + ts, n, env);
  }

  lemma AloneParses(ts: seq<Token>, n: Node, env: Env)
    requires ParseNot(ts, env) == Ok(n, [])
    ensures ParseOr(ts, env) == Ok(n, [])
  {
    hide ParseNot;
    assert AndTail(n, [], env) == Ok(n, []) && OrTail(n, [], env) == Ok(n, []);
  }

  /** Two chips with an open quote: the first quote of the second closes the string of the first. The result
      is a filter, but another one. */
  lemma TwoOpenQuotes(env: Env)
    ensures Parse(Text(["\"a", "\"b"]), env)
         == Filtered(And(Substr(["msg"], "a) (", true, None), Substr(["msg"], "b", false, None)))
    ensures Parse("\"a", env) == Filtered(Substr(["msg"], "a", true, None))
    ensures Parse("\"b", env) == Filtered(Substr(["msg"], "b", true, None))
  {
    hide RawTokens, Joined, TrimSpace, ParseOr;
    var t, b := Token(TString, "a) (", 0.0, None), Tok(TIdent, "b");
    var s := "(\"a) (\"b)";
    assert ["\"a", "\"b"][1..] == ["\"b"] && ["\"b"][1..] == [];
    assert Text(["\"a", "\"b"]) == Wrapped("\"a") + (" " + Wrapped("\"b") + "") == s;
    Untrimmed(s);
    SwallowedReads(env);
    JoinedPlain(None, [LP, t, b, RP], []);
    JoinedNothing(Some(RP));
    assert [LP, t, b, RP] + [] == [LP, t, b, RP];
    SwallowedParses(t, env);
    OpenQuoteParses('a', env);
    OpenQuoteParses('b', env);
  }

  lemma OpenQuoteParses(c: char, env: Env)
    requires c == 'a' || c == 'b'
    ensures Parse(['"', c], env) == Filtered(Substr(["msg"], [c], true, None))
  {
    hide RawTokens, Joined, TrimSpace;
    var s, t := ['"', c], Token(TString, [c], 0.0, None);
    Untrimmed(s);
    assert NO_QUOTE.Char(c).text == [c];
    assert StringFrom(s, 1, NO_QUOTE) == StringFrom(s, 2, NO_QUOTE.Char(c)) == (t, 2);
    assert Next(s, false, env) == (t, 2) && s[2..] == "";
    RawOne(s, false, env);
    RawEnd("", false, env);
    JoinedPlain(None, [t], []);
    JoinedNothing(Some(t));
    assert [t] + [] == [t];
    StringAtom(t, [], env);
    AloneParses([t], Substr(["msg"], [c], true, None), env);
  }

  lemma JoinedNothing(last: Option<Token>)
    ensures Joined(last, []) == []
  {
  }

  lemma StringParses(t: Token, env: Env)
    requires t.kind == TString
    ensures ParseOr([t], env).Ok? && ParseOr([t], env).rest == []
  {
    assert [t][1..] == [];
    var n := ParseTerm([t], env).node;
    assert AndTail(n, [], env) == Ok(n, []) && OrTail(n, [], env) == Ok(n, []);
    assert ParseNot([t], env) == Ok(n, []);
  }
}
