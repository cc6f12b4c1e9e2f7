/** What a filter input means: the tree that the parser makes of each form of term. */
module Inputs {
  import opened Options
  import opened Globs
  import opened Ast
  import opened Lexing
  import opened Parsing
  import opened Grammar
  import opened Terms
  import opened Composing
  import opened ChipFilters
  import Chips

  /** A numeral: digits, and dots that a digit follows. */
  predicate Numeral(a: string) {
    a != "" && IsDigit(a[0]) && forall i :: 0 <= i < |a| ==> InNumeral(a, i)
  }

  predicate InNumeral(a: string, i: nat)
    requires i < |a|
  {
    IsDigit(a[i]) || (a[i] == '.' && i + 1 < |a| && IsDigit(a[i + 1]))
  }

  /** What may follow a numeral. */
  predicate EndsNumeral(rest: string) {
    rest == "" || (!IsDigit(rest[0]) && (rest[0] == '.' ==> |rest| == 1 || !IsDigit(rest[1])))
  }

  lemma {:induction false} NumeralEnd(a: string, rest: string, j: nat)
    requires Numeral(a) && EndsNumeral(rest) && j <= |a|
    ensures NumberEnd(a + rest, j) == |a|
    decreases |a| - j
  {
    var s := a + rest;
    if j < |a| {
      assert InNumeral(a, j) && s[j] == a[j];
      assert j + 1 < |a| ==> s[j + 1] == a[j + 1];
      NumeralEnd(a, rest, j + 1);
    } else if rest != "" {
      assert s[j] == rest[0];
      assert |rest| > 1 ==> s[j + 1] == rest[1];
    }
  }

  function NumberTok(a: string, env: Env): Token {
    Token(TNumber, a, env.numeral(a), None)
  }

  lemma RawNumber(a: string, rest: string, inVal: bool, env: Env)
    requires Numeral(a) && EndsNumeral(rest)
    ensures RawTokens(a + rest, inVal, env) == [NumberTok(a, env)] + RawTokens(rest, false, env)
  {
    hide RawTokens, NumberEnd, Numeral, EndsNumeral;
    var s := a + rest;
    NumeralEnd(a, rest, 0);
    NumeralStarts(a);
    assert s[0] == a[0] && s[..|a|] == a && s[|a|..] == rest;
    RawOne(s, inVal, env);
  }

  lemma NumeralStarts(a: string)
    requires Numeral(a)
    ensures a != "" && IsDigit(a[0])
  {
  }

  /** A negative numeral in value position swallows every dot behind it. */
  lemma {:induction false} SignedDigits(s: string, j: nat, n: nat)
    requires j <= n <= |s| && (forall i :: j <= i < n ==> IsDigit(s[i]) || s[i] == '.')
    requires n == |s| || (!IsDigit(s[n]) && s[n] != '.')
    ensures SignedEnd(s, j) == n
    decreases n - j
  {
    if j < n {
      SignedDigits(s, j + 1, n);
    }
  }

  lemma RawNegative(a: string, rest: string, env: Env)
    requires Numeral(a) && (rest == "" || (!IsDigit(rest[0]) && rest[0] != '.'))
    ensures RawTokens("-" + a + rest, true, env) == [NumberTok("-" + a, env)] + RawTokens(rest, false, env)
  {
    hide RawTokens, SignedEnd;
    var s := "-" + a + rest;
    forall i | 1 <= i < 1 + |a| ensures IsDigit(s[i]) || s[i] == '.' {
      assert InNumeral(a, i - 1) && s[i] == a[i - 1];
    }
    assert rest != "" ==> s[1 + |a|] == rest[0];
    SignedDigits(s, 1, 1 + |a|);
    assert s[0] == '-' && s[..1 + |a|] == "-" + a && s[1 + |a|..] == rest;
    RawOne(s, true, env);
  }

  /** A text that is one token alone. */
  lemma Alone(s: string, t: Token, env: Env)
    requires s != "" && TrimSpace(s) == s && RawTokens(s, false, env) == [t] && t != SPACE
    ensures Tokens(s, env) == [t]
  {
    hide RawTokens, Joined, TrimSpace;
    JoinedPlain(None, [t], []);
    JoinedNothing(Some(t));
    assert [t] + [] == [t];
  }

  lemma ParsedAlone(s: string, t: Token, n: Node, env: Env)
    requires s != "" && TrimSpace(s) == s && RawTokens(s, false, env) == [t] && t != SPACE
    requires ParseNot([t], env) == Ok(n, [])
    ensures Parse(s, env) == Filtered(n)
  {
    hide RawTokens, TrimSpace, ParseNot, Joined, ParseOr;
    Alone(s, t, env);
    AloneParses([t], n, env);
  }

  lemma OneTerm(t: Token, env: Env)
    requires t.kind == TNumber || t.kind == TStar || (t.kind == TString && t.parts.None?) || t.kind == TIdent
    ensures ParseNot([t], env)
         == Ok(if t.kind == TString then Substr(["msg"], t.text, true, None)
               else Substr(["msg"], if t.kind == TStar then TrimStars(t.text) else t.text, false, None), [])
  {
    hide TrimStars;
    assert [t][1..] == [];
    if t.kind == TIdent {
      assert Segments([t.text], []) == ([t.text], []);
      assert FieldRef([t]) == ([t.text], []);
    }
  }

  lemma WordTrims(w: string, env: Env)
    requires IsIdent(w, env) && Sane(env)
    ensures TrimSpace(w) == w
  {
    IdentEnds(w, env);
    Untrimmed(w);
  }

  lemma WordRaw(w: string, env: Env)
    requires PlainWord(w, env)
    ensures RawTokens(w, false, env) == [Tok(TIdent, w)]
  {
    hide RawTokens, IsIdent;
    assert w + "" == w;
    RawWord(w, "", false, env);
    RawEnd("", false, env);
  }

  /** A bare word searches the message for the word. */
  lemma WordMeans(w: string, env: Env)
    requires PlainWord(w, env) && Sane(env)
    ensures Parse(w, env) == Filtered(Substr(["msg"], w, false, None))
  {
    hide RawTokens, IsIdent, TrimSpace, ParseNot, Parse;
    WordNotEmpty(w, env);
    WordTrims(w, env);
    WordRaw(w, env);
    OneTerm(Tok(TIdent, w), env);
    ParsedAlone(w, Tok(TIdent, w), Substr(["msg"], w, false, None), env);
  }

  lemma WordNotEmpty(w: string, env: Env)
    requires IsIdent(w, env)
    ensures w != "" && IsIdentChar(w[0], true, env)
  {
  }

  lemma NumeralTrims(a: string)
    requires Numeral(a)
    ensures TrimSpace(a) == a
  {
    assert InNumeral(a, |a| - 1);
    Untrimmed(a);
  }

  /** A bare number does so for its digits. */
  lemma NumberMeans(a: string, env: Env)
    requires Numeral(a)
    ensures Parse(a, env) == Filtered(Substr(["msg"], a, false, None))
  {
    hide RawTokens, Numeral, TrimSpace, ParseNot, Parse;
    assert a + "" == a;
    NumeralStarts(a);
    NumeralTrims(a);
    RawNumber(a, "", false, env);
    RawEnd("", false, env);
    OneTerm(NumberTok(a, env), env);
    ParsedAlone(a, NumberTok(a, env), Substr(["msg"], a, false, None), env);
  }

  /** A sign in front negates. */
  lemma SignMeans(sign: char, w: string, env: Env)
    requires (sign == '-' || sign == '!') && PlainWord(w, env) && Sane(env) && w != "" && IsIdentStart(w[0])
    ensures Parse([sign] + w, env) == Filtered(Not(Substr(["msg"], w, false, None)))
  {
    hide RawTokens, IsIdent, TrimSpace, ParseNot, ParseOr, Joined;
    var s := [sign] + w;
    WordRaw(w, env);
    WordNotEmpty(w, env);
    IdentEnds(w, env);
    assert s[|s| - 1] == w[|w| - 1];
    Untrimmed(s);
    assert s[0] == sign && s[1] == w[0] && s[1..] == w;
    RawOne(s, false, env);
    var t := Tok(TDash, [sign]);
    assert Next(s, false, env) == (t, 1);
    var ts := [t, Tok(TIdent, w)];
    assert ts == [t] + [Tok(TIdent, w)];
    JoinedPlain(None, ts, []);
    JoinedNothing(Some(Tok(TIdent, w)));
    assert ts + [] == ts && ts[1..] == [Tok(TIdent, w)];
    OneTerm(Tok(TIdent, w), env);
    Negation(ts, Substr(["msg"], w, false, None), env);
  }

  lemma Negation(ts: seq<Token>, n: Node, env: Env)
    requires ts != [] && ts[0].kind == TDash && ParseNot(ts[1..], env) == Ok(n, []) && |ts| > 1 && ts[1].kind == TIdent
    ensures ParseOr(ts, env) == Ok(Not(n), [])
  {
    hide ParseAtom;
    assert ts[1..][0] == ts[1];
    assert ParseNot(ts, env) == Ok(Not(n), []);
    AloneParses(ts, Not(n), env);
  }

  /** Words with one blank between them, and the tokens that the parser sees of them. */
  function Spaced(ws: seq<string>): string
    requires ws != []
  {
    if |ws| == 1 then ws[0] else ws[0] + ([' '] + Spaced(ws[1..]))
  }

  function Gapped(ws: seq<string>, env: Env): seq<Token>
    requires ws != []
  {
    if |ws| == 1 then [Word(ws[0], env)] else [Word(ws[0], env)] + ([SPACE] + Gapped(ws[1..], env))
  }

  function Seen(ws: seq<string>, env: Env): seq<Token>
    requires ws != []
  {
    if |ws| == 1 then [Word(ws[0], env)]
    else
      var t, u := Word(ws[0], env), Word(ws[1], env);
      [t] + ((if IsCloser(t.kind) && IsOpener(u.kind) then [SPACE] else []) + Seen(ws[1..], env))
  }

  ghost predicate Idents(ws: seq<string>, env: Env) {
    ws != [] && forall i :: 0 <= i < |ws| ==> IsIdent(ws[i], env)
  }

  lemma {:induction false} SpacedReads(ws: seq<string>, env: Env)
    requires Idents(ws, env)
    ensures RawTokens(Spaced(ws), false, env) == Gapped(ws, env)
    ensures ws[0] != "" && ws[|ws| - 1] != "" && Spaced(ws) != "" && Spaced(ws)[0] == ws[0][0]
    ensures Spaced(ws)[|Spaced(ws)| - 1] == ws[|ws| - 1][|ws[|ws| - 1]| - 1]
    decreases |ws|
  {
    hide RawTokens, Word, IsIdent;
    var w := ws[0];
    WordNotEmpty(w, env);
    if |ws| == 1 {
      assert w + "" == w;
      RawWord(w, "", false, env);
      RawEnd("", false, env);
    } else {
      SpacedReads(ws[1..], env);
      var rest := Spaced(ws[1..]);
      WordNotEmpty(ws[1], env);
      RawWord(w, [' '] + rest, false, env);
      RawChar(' ', rest, false, env);
    }
  }

  lemma {:induction false} SpacedJoins(ws: seq<string>, last: Option<Token>, env: Env)
    requires Idents(ws, env)
    ensures Joined(last, Gapped(ws, env)) == Seen(ws, env)
    decreases |ws|
  {
    hide Word, IsIdent, Joined;
    var t := Word(ws[0], env);
    WordExpects(ws[0], false, env);
    if |ws| == 1 {
      assert [t] + [] == [t];
      JoinedKeeps(last, t, []);
      JoinedNothing(Some(t));
    } else {
      var rest := Gapped(ws[1..], env);
      JoinedKeeps(last, t, [SPACE] + rest);
      SpacedJoins(ws[1..], Some(t), env);
      SpacedJoins(ws[1..], Some(SPACE), env);
      assert rest[0] == Word(ws[1], env);
      KeepsGap(t, rest);
    }
  }

  lemma KeepsGap(t: Token, rest: seq<Token>)
    requires rest != []
    ensures Joined(Some(t), [SPACE] + rest)
         == if IsCloser(t.kind) && IsOpener(rest[0].kind) then [SPACE] + Joined(Some(SPACE), rest)
            else Joined(Some(t), rest)
  {
    assert ([SPACE] + rest)[1..] == rest;
  }

  lemma SpacedTokens(ws: seq<string>, env: Env)
    requires Idents(ws, env) && Sane(env)
    ensures Tokens(Spaced(ws), env) == Seen(ws, env) && TrimSpace(Spaced(ws)) == Spaced(ws) && Spaced(ws) != ""
  {
    hide Word, IsIdent, Joined, RawTokens, TrimSpace;
    SpacedReads(ws, env);
    SpacedJoins(ws, None, env);
    IdentEnds(ws[0], env);
    IdentEnds(ws[|ws| - 1], env);
    Untrimmed(Spaced(ws));
  }

  predicate Disjoins(op: string) {
    op == "OR" || op == "or"
  }

  predicate Conjoins(op: string) {
    op == "AND" || op == "and"
  }

  predicate Negates(op: string) {
    op == "NOT" || op == "not"
  }

  /** A search of the message. */
  function For(w: string): Node {
    Substr(["msg"], w, false, None)
  }

  lemma WordSeen(w: string, env: Env)
    requires PlainWord(w, env)
    ensures Word(w, env) == Tok(TIdent, w)
  {
  }

  lemma OperatorSeen(op: string, env: Env)
    requires Disjoins(op) || Conjoins(op) || Negates(op)
    ensures IsIdent(op, env)
    ensures Word(op, env) == Tok(if Disjoins(op) then TOr else if Conjoins(op) then TAnd else TNot, op)
  {
  }

  lemma SeenOne(w: string, t: Token, env: Env)
    requires Word(w, env) == t
    ensures Seen([w], env) == [t]
  {
  }

  lemma SeenFirst(all: seq<string>, toks: seq<Token>, w: string, ws: seq<string>, ts: seq<Token>, env: Env)
    requires all == [w] + ws && ws != [] && ts != [] && Seen(ws, env) == ts && Word(ws[0], env) == ts[0]
    requires var t := Word(w, env);
             toks == [t] + ((if IsCloser(t.kind) && IsOpener(ts[0].kind) then [SPACE] else []) + ts)
    ensures Seen(all, env) == toks
  {
    assert all[1..] == ws && all[1] == ws[0];
  }

  /** A word in front of an operator, a blank or the end is a search. */
  lemma WordBefore(w: string, more: seq<Token>, env: Env)
    requires more == [] || more[0].kind == TOr || more[0].kind == TAnd
    ensures ParseNot([Tok(TIdent, w)] + more, env) == Ok(For(w), more)
  {
    var ts := [Tok(TIdent, w)] + more;
    assert ts[1..] == more;
    assert Segments([w], more) == ([w], more);
    assert FieldRef(ts) == ([w], more);
  }

  lemma AndEnds(left: Node, more: seq<Token>, env: Env)
    requires more == [] || more[0].kind == TOr
    ensures AndTail(left, more, env) == Ok(left, more)
  {
  }

  lemma AndGoesOn(left: Node, t: Token, w: string, more: seq<Token>, env: Env)
    requires t.kind == TAnd && (more == [] || more[0].kind == TOr)
    ensures AndTail(left, [t, Tok(TIdent, w)] + more, env) == Ok(And(left, For(w)), more)
  {
    hide ParseNot, For;
    var ts := [t, Tok(TIdent, w)] + more;
    assert ts[1..] == [Tok(TIdent, w)] + more;
    WordBefore(w, more, env);
    AndEnds(And(left, For(w)), more, env);
    assert AndRight(left, ts[1..], env) == Ok(And(left, For(w)), more);
  }

  lemma OrGoesOn(left: Node, t: Token, ts: seq<Token>, right: Node, env: Env)
    requires t.kind == TOr && ParseAnd(ts, env) == Ok(right, [])
    ensures OrTail(left, [t] + ts, env) == Ok(Or(left, right), [])
  {
    hide ParseAnd;
    assert ([t] + ts)[1..] == ts;
    assert OrTail(Or(left, right), [], env) == Ok(Or(left, right), []);
  }

  lemma OneWord(w: string, more: seq<Token>, env: Env)
    requires more == [] || more[0].kind == TOr
    ensures ParseAnd([Tok(TIdent, w)] + more, env) == Ok(For(w), more)
  {
    hide ParseNot, AndTail, For;
    WordBefore(w, more, env);
    AndEnds(For(w), more, env);
  }

  lemma TwoWords(v: string, t: Token, w: string, more: seq<Token>, env: Env)
    requires t.kind == TAnd && (more == [] || more[0].kind == TOr)
    ensures ParseAnd([Tok(TIdent, v), t, Tok(TIdent, w)] + more, env) == Ok(And(For(v), For(w)), more)
  {
    hide ParseNot, AndTail, For;
    var ts := [Tok(TIdent, v), t, Tok(TIdent, w)] + more;
    assert ts == [Tok(TIdent, v)] + ([t, Tok(TIdent, w)] + more);
    WordBefore(v, [t, Tok(TIdent, w)] + more, env);
    AndGoesOn(For(v), t, w, more, env);
  }

  lemma SpacedParses(ws: seq<string>, n: Node, env: Env)
    requires Idents(ws, env) && Sane(env) && ParseOr(Seen(ws, env), env) == Ok(n, [])
    ensures Parse(Spaced(ws), env) == Filtered(n)
  {
    hide ParseOr, Tokens, TrimSpace, Seen;
    SpacedTokens(ws, env);
  }

  /** Two words with AND between them, in capitals or not, or with a blank alone, are searched for together. */
  lemma AndMeans(v: string, op: string, w: string, env: Env)
    requires PlainWord(v, env) && PlainWord(w, env) && Sane(env) && Conjoins(op)
    ensures Parse(Spaced([v, op, w]), env) == Filtered(And(For(v), For(w)))
    ensures Parse(Spaced([v, w]), env) == Filtered(And(For(v), For(w)))
  {
    hide Parse, ParseOr, ParseAnd, Word, IsIdent, For, Seen;
    var a, o, b := Tok(TIdent, v), Tok(TAnd, op), Tok(TIdent, w);
    WordSeen(v, env);
    WordSeen(w, env);
    OperatorSeen(op, env);
    SeenOne(w, b, env);
    SeenFirst([op, w], [o, b], op, [w], [b], env);
    SeenFirst([v, op, w], [a, o, b], v, [op, w], [o, b], env);
    SeenFirst([v, w], [a, SPACE, b], v, [w], [b], env);
    assert Seen([v, op, w], env) == [Tok(TIdent, v), Tok(TAnd, op), Tok(TIdent, w)] + [];
    assert Seen([v, w], env) == [Tok(TIdent, v), SPACE, Tok(TIdent, w)] + [];
    TwoWords(v, Tok(TAnd, op), w, [], env);
    TwoWords(v, SPACE, w, [], env);
    OrEnds(Seen([v, op, w], env), And(For(v), For(w)), env);
    OrEnds(Seen([v, w], env), And(For(v), For(w)), env);
    SpacedParses([v, op, w], And(For(v), For(w)), env);
    SpacedParses([v, w], And(For(v), For(w)), env);
  }

  lemma OrEnds(ts: seq<Token>, n: Node, env: Env)
    requires ParseAnd(ts, env) == Ok(n, [])
    ensures ParseOr(ts, env) == Ok(n, [])
  {
    hide ParseAnd;
    assert OrTail(n, [], env) == Ok(n, []);
  }

  lemma OrSplits(left: seq<Token>, l: Node, t: Token, right: seq<Token>, r: Node, env: Env)
    requires t.kind == TOr && ParseAnd(left + ([t] + right), env) == Ok(l, [t] + right)
    requires ParseAnd(right, env) == Ok(r, [])
    ensures ParseOr(left + ([t] + right), env) == Ok(Or(l, r), [])
  {
    hide ParseAnd, OrTail;
    OrGoesOn(l, t, right, r, env);
  }

  lemma OrSeen(v: string, w: string, op: string, x: string, env: Env)
    requires PlainWord(v, env) && PlainWord(w, env) && PlainWord(x, env) && Disjoins(op)
    ensures var a, b, c, o := Tok(TIdent, v), Tok(TIdent, w), Tok(TIdent, x), Tok(TOr, op);
            && Seen([v, op, x], env) == [a] + ([o] + [c])
            && Seen([v, w, op, x], env) == [a, SPACE, b] + ([o] + [c])
            && Seen([v, op, w, x], env) == [a] + ([o] + [b, SPACE, c])
    ensures IsIdent(op, env)
  {
    hide Word, IsIdent, Seen;
    var a, b, c, o := Tok(TIdent, v), Tok(TIdent, w), Tok(TIdent, x), Tok(TOr, op);
    WordSeen(v, env);
    WordSeen(w, env);
    WordSeen(x, env);
    OperatorSeen(op, env);
    SeenOne(x, c, env);
    SeenFirst([op, x], [o, c], op, [x], [c], env);
    SeenFirst([v, op, x], [a, o, c], v, [op, x], [o, c], env);
    SeenFirst([w, op, x], [b, o, c], w, [op, x], [o, c], env);
    SeenFirst([v, w, op, x], [a, SPACE, b, o, c], v, [w, op, x], [b, o, c], env);
    SeenFirst([w, x], [b, SPACE, c], w, [x], [c], env);
    SeenFirst([op, w, x], [o, b, SPACE, c], op, [w, x], [b, SPACE, c], env);
    SeenFirst([v, op, w, x], [a, o, b, SPACE, c], v, [op, w, x], [o, b, SPACE, c], env);
  }

  /** OR, in capitals or not, asks for either side, */
  lemma OrMeans(v: string, op: string, x: string, env: Env)
    requires PlainWord(v, env) && PlainWord(x, env) && Sane(env) && Disjoins(op)
    ensures Parse(Spaced([v, op, x]), env) == Filtered(Or(For(v), For(x)))
  {
    hide Parse, ParseOr, ParseAnd, Word, IsIdent, For, Seen;
    var c, o := Tok(TIdent, x), Tok(TOr, op);
    OrSeen(v, v, op, x, env);
    assert [c] + [] == [c];
    OneWord(x, [], env);
    OneWord(v, [o] + [c], env);
    OrSplits([Tok(TIdent, v)], For(v), o, [c], For(x), env);
    SpacedParses([v, op, x], Or(For(v), For(x)), env);
  }

  /** and binds less than a blank, on its left */
  lemma OrBindsLess(v: string, w: string, op: string, x: string, env: Env)
    requires PlainWord(v, env) && PlainWord(w, env) && PlainWord(x, env) && Sane(env) && Disjoins(op)
    ensures Parse(Spaced([v, w, op, x]), env) == Filtered(Or(And(For(v), For(w)), For(x)))
  {
    hide Parse, ParseOr, ParseAnd, Word, IsIdent, For, Seen;
    var c, o := Tok(TIdent, x), Tok(TOr, op);
    OrSeen(v, w, op, x, env);
    assert [c] + [] == [c];
    OneWord(x, [], env);
    TwoWords(v, SPACE, w, [o] + [c], env);
    OrSplits([Tok(TIdent, v), SPACE, Tok(TIdent, w)], And(For(v), For(w)), o, [c], For(x), env);
    SpacedParses([v, w, op, x], Or(And(For(v), For(w)), For(x)), env);
  }

  /** and on its right. */
  lemma OrBindsLessBehind(v: string, op: string, w: string, x: string, env: Env)
    requires PlainWord(v, env) && PlainWord(w, env) && PlainWord(x, env) && Sane(env) && Disjoins(op)
    ensures Parse(Spaced([v, op, w, x]), env) == Filtered(Or(For(v), And(For(w), For(x))))
  {
    hide Parse, ParseOr, ParseAnd, Word, IsIdent, For, Seen;
    var right, o := [Tok(TIdent, w), SPACE, Tok(TIdent, x)], Tok(TOr, op);
    OrSeen(v, w, op, x, env);
    assert right + [] == right;
    TwoWords(w, SPACE, x, [], env);
    OneWord(v, [o] + right, env);
    OrSplits([Tok(TIdent, v)], For(v), o, right, And(For(w), For(x)), env);
    SpacedParses([v, op, w, x], Or(For(v), And(For(w), For(x))), env);
  }

  /** NOT, in capitals or not, negates the word behind it and no more. */
  lemma NotMeans(op: string, v: string, w: string, env: Env)
    requires PlainWord(v, env) && PlainWord(w, env) && Sane(env) && Negates(op)
    ensures Parse(Spaced([op, v]), env) == Filtered(Not(For(v)))
    ensures Parse(Spaced([op, v, w]), env) == Filtered(And(Not(For(v)), For(w)))
  {
    hide Parse, ParseOr, ParseAnd, ParseNot, Word, IsIdent, For, AndTail, Seen;
    var n, a, b := Tok(TNot, op), Tok(TIdent, v), Tok(TIdent, w);
    WordSeen(v, env);
    WordSeen(w, env);
    OperatorSeen(op, env);
    SeenOne(v, a, env);
    SeenOne(w, b, env);
    SeenFirst([op, v], [n, a], op, [v], [a], env);
    SeenFirst([v, w], [a, SPACE, b], v, [w], [b], env);
    SeenFirst([op, v, w], [n, a, SPACE, b], op, [v, w], [a, SPACE, b], env);
    assert Seen([op, v], env) == [n] + ([a] + []);
    assert Seen([op, v, w], env) == [n] + ([a] + [SPACE, b]);
    assert [SPACE, b] + [] == [SPACE, b];
    NotBefore(n, v, [], env);
    NotBefore(n, v, [SPACE, b], env);
    AndEnds(Not(For(v)), [], env);
    AndGoesOn(Not(For(v)), SPACE, w, [], env);
    AndStarts(Seen([op, v], env), Not(For(v)), [], Not(For(v)), env);
    AndStarts(Seen([op, v, w], env), Not(For(v)), [SPACE, b], And(Not(For(v)), For(w)), env);
    OrEnds(Seen([op, v], env), Not(For(v)), env);
    OrEnds(Seen([op, v, w], env), And(Not(For(v)), For(w)), env);
    SpacedParses([op, v], Not(For(v)), env);
    SpacedParses([op, v, w], And(Not(For(v)), For(w)), env);
  }

  lemma AndStarts(ts: seq<Token>, left: Node, more: seq<Token>, n: Node, env: Env)
    requires ParseNot(ts, env) == Ok(left, more) && AndTail(left, more, env) == Ok(n, [])
    ensures ParseAnd(ts, env) == Ok(n, [])
  {
    hide ParseNot, AndTail;
  }

  lemma NotBefore(t: Token, w: string, more: seq<Token>, env: Env)
    requires t.kind == TNot && (more == [] || more[0].kind == TOr || more[0].kind == TAnd)
    ensures ParseNot([t] + ([Tok(TIdent, w)] + more), env) == Ok(Not(For(w)), more)
  {
    hide ParseAtom, For;
    var ts := [Tok(TIdent, w)] + more;
    WordBefore(w, more, env);
    assert ([t] + ts)[1..] == ts;
  }

  /** The whole input is one field with a value whose tokens are these. */
  ghost predicate ValueTokens(f: string, value: string, toks: seq<Token>, env: Env) {
    && PlainWord(f, env) && Sane(env) && value != "" && !Blank(value[|value| - 1])
    && RawTokens(value, true, env) == toks && toks != [] && SPACE !in toks
  }

  /** Then the input means what the value means. */
  lemma FieldInput(f: string, value: string, toks: seq<Token>, n: Node, env: Env)
    requires ValueTokens(f, value, toks, env)
    ensures FieldValue([f], toks, env) == Ok(n, []) ==> Parse(f + (":" + value), env) == Filtered(n)
    ensures FieldValue([f], toks, env) == Err ==> Parse(f + (":" + value), env) == Malformed
  {
    hide RawTokens, IsIdent, TrimSpace, Joined, FieldValue, ParseOr, ParseTerm;
    TermTrims(f, value, env);
    FieldRaw(f, value, env);
    var ts := [Tok(TIdent, f), COLON, toks[0]] + toks[1..];
    assert [Tok(TIdent, f)] + ([COLON] + toks) == ts && [toks[0]] + toks[1..] == toks;
    JoinedPlain(None, ts, []);
    JoinedNothing(Some(ts[|ts| - 1]));
    assert ts + [] == ts;
    FieldTerm(f, toks[0], toks[1..], env);
    if FieldValue([f], toks, env) == Ok(n, []) {
      TermAlone(ts, n, env);
    } else if FieldValue([f], toks, env) == Err {
      TermFails(ts, env);
    }
  }

  lemma TermFails(ts: seq<Token>, env: Env)
    requires ts != [] && ts[0].kind == TIdent && ParseTerm(ts, env) == Err
    ensures ParseOr(ts, env) == Err
  {
    hide ParseTerm;
    assert ParseNot(ts, env) == Err;
  }

  /** A text as it is written between quotes: a backslash before each quote, star and backslash. */
  function Inked(v: string): string {
    if v == "" then "" else (if v[0] in "\\\"*" then ['\\', v[0]] else [v[0]]) + Inked(v[1..])
  }

  /** A pattern as it is written between quotes. */
  function Drawn(parts: seq<GlobPart>): string {
    if parts == [] then "" else (if parts[0].wild then "*" else Inked(parts[0].lit)) + Drawn(parts[1..])
  }

  /** Wilds with texts between them: no empty text, and no two texts side by side. */
  predicate Drawable(parts: seq<GlobPart>) {
    && (forall i :: 0 <= i < |parts| ==> parts[i] == if parts[i].wild then WILD else Lit(parts[i].lit))
    && (forall i :: 0 <= i < |parts| && !parts[i].wild ==> parts[i].lit != "")
    && (forall i :: 0 < i < |parts| && !parts[i].wild ==> parts[i - 1].wild)
  }

  lemma {:induction false} TextInks(p: string, v: string, rest: string, q: Quoting)
    ensures StringFrom(p + (Inked(v) + rest), |p|, q)
         == StringFrom(p + (Inked(v) + rest), |p| + |Inked(v)|, q.(text := q.text + v, lit := q.lit + v))
    decreases |v|
  {
    var s := p + (Inked(v) + rest);
    if v == "" {
      assert q.text + v == q.text && q.lit + v == q.lit;
    } else {
      var front := if v[0] in "\\\"*" then ['\\', v[0]] else [v[0]];
      assert s == (p + front) + (Inked(v[1..]) + rest);
      assert s[|p|] == front[0];
      if |front| == 2 {
        assert s[|p| + 1] == v[0];
      }
      TextInks(p + front, v[1..], rest, q.Char(v[0]));
      assert q.text + [v[0]] + v[1..] == q.text + v && q.lit + [v[0]] + v[1..] == q.lit + v;
    }
  }

  /** A pattern reads back part by part. */
  lemma {:induction false} PatternReads(p: string, parts: seq<GlobPart>, q: Quoting)
    requires Drawable(parts) && (q.lit == "" || parts == [] || parts[0].wild)
    ensures var s := p + (Drawn(parts) + "\""); var (t, n) := StringFrom(s, |p|, q);
            && n == |s| && t.kind == TString
            && t.parts == if q.wild || WILD in parts then Some(q.Flushed().parts + parts) else None
    decreases |parts|
  {
    hide Inked;
    var s := p + (Drawn(parts) + "\"");
    if parts == [] {
      assert s[|p|] == '"' && q.Flushed().parts + parts == q.Flushed().parts;
    } else {
      var front := if parts[0].wild then "*" else Inked(parts[0].lit);
      var rest := Drawn(parts[1..]) + "\"";
      assert s == (p + front) + rest && s == p + (front + rest);
      var q' := if parts[0].wild then q.Star()
                else q.(text := q.text + parts[0].lit, lit := q.lit + parts[0].lit);
      if parts[0].wild {
        assert s[|p|] == '*';
      } else {
        TextInks(p, parts[0].lit, rest, q);
      }
      LaterDrawable(parts);
      PatternReads(p + front, parts[1..], q');
      PartsPush(parts, q, q');
    }
  }

  lemma LaterDrawable(parts: seq<GlobPart>)
    requires parts != [] && Drawable(parts)
    ensures Drawable(parts[1..]) && (parts[1..] != [] && !parts[0].wild ==> parts[1].wild)
  {
    if |parts| > 1 {
      assert parts[1 - 1] == parts[0];
    }
  }

  lemma PartsPush(parts: seq<GlobPart>, q: Quoting, q': Quoting)
    requires parts != [] && Drawable(parts) && (q.lit == "" || parts[0].wild)
    requires q' == if parts[0].wild then q.Star()
                   else q.(text := q.text + parts[0].lit, lit := q.lit + parts[0].lit)
    ensures q'.Flushed().parts + parts[1..] == q.Flushed().parts + parts
    ensures q'.wild || WILD in parts[1..] <==> q.wild || WILD in parts
  {
    var before := q.Flushed().parts;
    assert parts == [parts[0]] + parts[1..];
    if !parts[0].wild {
      assert q.lit + parts[0].lit == parts[0].lit;
      assert parts[0] == Lit(parts[0].lit);
    }
    assert q'.Flushed().parts == before + [parts[0]];
    assert before + [parts[0]] + parts[1..] == before + parts;
  }

  /** A quoted text with stars searches the message for the pattern that the stars cut it into. */
  lemma PatternMeans(parts: seq<GlobPart>, env: Env)
    requires Drawable(parts) && WILD in parts
    ensures Parse("\"" + (Drawn(parts) + "\""), env) == Filtered(Substr(["msg"], "", false, Some(parts)))
  {
    hide RawTokens, TrimSpace, ParseNot, Parse, StringFrom, Drawn, Drawable;
    var t := PatternToken(parts, false, env);
    var s := "\"" + (Drawn(parts) + "\"");
    Untrimmed(s);
    PatternAtom(t, env);
    ParsedAlone(s, t, Substr(["msg"], "", false, Some(parts)), env);
  }

  lemma PatternAtom(t: Token, env: Env)
    requires t.kind == TString && t.parts.Some?
    ensures ParseNot([t], env) == Ok(Substr(["msg"], "", false, t.parts), [])
  {
    assert [t][1..] == [];
  }

  lemma PatternToken(parts: seq<GlobPart>, inVal: bool, env: Env) returns (t: Token)
    requires Drawable(parts) && WILD in parts
    ensures var s := "\"" + (Drawn(parts) + "\"");
            && RawTokens(s, inVal, env) == [t] && t.kind == TString && t.parts == Some(parts)
            && s != "" && !Blank(s[0]) && !Blank(s[|s| - 1])
  {
    hide RawTokens, StringFrom, Drawn, Drawable;
    var s := "\"" + (Drawn(parts) + "\"");
    PatternReads("\"", parts, NO_QUOTE);
    assert [] + parts == parts;
    assert s[0] == '"' && s[|s| - 1] == '"';
    RawOne(s, inVal, env);
    t := Next(s, inVal, env).0;
    RawEnd(s[|s|..], Expects(t, inVal), env);
  }

  /** And as the value of a field it searches the field. */
  lemma FieldPatternMeans(f: string, parts: seq<GlobPart>, env: Env)
    requires PlainWord(f, env) && Sane(env) && Drawable(parts) && WILD in parts
    ensures Parse(f + (":" + ("\"" + (Drawn(parts) + "\""))), env) == Filtered(Substr([f], "", false, Some(parts)))
  {
    hide RawTokens, IsIdent, Parse, Drawn, Drawable;
    var t := PatternToken(parts, true, env);
    assert [t][1..] == [];
    FieldInput(f, "\"" + (Drawn(parts) + "\""), [t], Substr([f], "", false, Some(parts)), env);
  }

  const LB := Tok(TLBracket, "[")
  const RB := Tok(TRBracket, "]")
  const DOTS := Tok(TDotDot, "..")

  lemma RawBracket(rest: string, env: Env)
    requires rest != "" && (IsDigit(rest[0]) || rest[0] == '-')
    ensures RawTokens("[" + rest, true, env) == [LB] + RawTokens(rest, true, env)
  {
    hide RawTokens;
    var s := "[" + rest;
    assert s[0] == '[' && s[1] == rest[0] && s[1..] == rest;
    RawOne(s, true, env);
  }

  lemma RawDots(rest: string, inVal: bool, env: Env)
    ensures RawTokens(".." + rest, inVal, env) == [DOTS] + RawTokens(rest, true, env)
  {
    hide RawTokens;
    var s := ".." + rest;
    assert s[0] == '.' && s[1] == '.' && s[2..] == rest;
    RawOne(s, inVal, env);
  }

  lemma RawClose(inVal: bool, env: Env)
    ensures RawTokens("]", inVal, env) == [RB]
  {
    hide RawTokens;
    RawOne("]", inVal, env);
    assert "]"[1..] == "";
    RawEnd("", Expects(RB, inVal), env);
  }

  /** A bound of a range, or what a number is compared with: a numeral, possibly negative. */
  predicate Bound(a: string, negative: bool) {
    if negative then a != "" && a[0] == '-' && Numeral(a[1..]) else Numeral(a)
  }

  lemma RawBound(a: string, negative: bool, rest: string, env: Env)
    requires Bound(a, negative) && EndsNumeral(rest) && (negative ==> rest == "" || rest[0] != '.')
    ensures RawTokens(a + rest, true, env) == [NumberTok(a, env)] + RawTokens(rest, false, env)
    ensures a + rest != "" && (IsDigit((a + rest)[0]) || (a + rest)[0] == '-') && NumberTok(a, env) != SPACE
  {
    hide RawTokens, Numeral;
    if negative {
      RawNegative(a[1..], rest, env);
      assert a == "-" + a[1..];
    } else {
      NumeralStarts(a);
      RawNumber(a, rest, true, env);
    }
  }

  function Between(a: string, b: string): string {
    "[" + (a + (".." + (b + "]")))
  }

  /** A range gives its bounds, the lower one first. */
  lemma RangeMeans(f: string, a: string, b: string, negative: bool, env: Env)
    requires PlainWord(f, env) && Sane(env) && Bound(a, false) && Bound(b, negative)
    ensures Parse(f + (":" + Between(a, b)), env) == Filtered(Range([f], env.numeral(a), env.numeral(b)))
  {
    hide RawTokens, IsIdent, Parse, Bound;
    var x, y := NumberTok(a, env), NumberTok(b, env);
    var toks := [LB, x, DOTS, y, RB];
    RawBound(b, negative, "]", env);
    RawClose(false, env);
    RawDots(b + "]", false, env);
    RawBound(a, false, ".." + (b + "]"), env);
    RawBracket(a + (".." + (b + "]")), env);
    assert [LB] + ([x] + ([DOTS] + ([y] + [RB]))) == toks;
    var value := Between(a, b);
    assert value[|value| - 1] == ']';
    FieldInput(f, value, toks, Range([f], env.numeral(a), env.numeral(b)), env);
    assert toks[5..] == [];
  }

  /** A range with a negative lower bound is malformed: the sign swallows the dots. */
  lemma NegativeRangeFails(f: string, a: string, b: string, env: Env)
    requires PlainWord(f, env) && Sane(env) && Bound(a, true) && Bound(b, false)
    ensures Parse(f + (":" + Between(a, b)), env) == Malformed
  {
    hide RawTokens, IsIdent, Parse;
    var digits := a[1..] + ".." + b;
    var value := Between(a, b);
    assert value == "[" + ("-" + digits + "]");
    NegativeSwallows(a[1..], b, env);
    RawClose(false, env);
    RawBracket("-" + digits + "]", env);
    var x := NumberTok("-" + digits, env);
    assert [LB] + ([x] + [RB]) == [LB, x, RB];
    assert value[|value| - 1] == ']';
    FieldInput(f, value, [LB, x, RB], Exists([f]), env);
  }

  lemma NegativeSwallows(a: string, b: string, env: Env)
    requires Numeral(a) && Numeral(b)
    ensures var digits := a + ".." + b;
            RawTokens("-" + digits + "]", true, env) == [NumberTok("-" + digits, env)] + RawTokens("]", false, env)
  {
    hide RawTokens, SignedEnd;
    var digits := a + ".." + b;
    var s := "-" + digits + "]";
    var n := 1 + |digits|;
    forall i | 1 <= i < n ensures IsDigit(s[i]) || s[i] == '.' {
      if i <= |a| {
        assert InNumeral(a, i - 1) && s[i] == a[i - 1];
      } else if i > |a| + 2 {
        assert InNumeral(b, i - |a| - 3) && s[i] == b[i - |a| - 3];
      }
    }
    assert s[n] == ']';
    SignedDigits(s, 1, n);
    NumeralStarts(a);
    assert s[0] == '-' && s[1] == a[0] && s[..n] == "-" + digits && s[n..] == "]";
    RawOne(s, true, env);
  }

  lemma RawOperator(op: string, rest: string, env: Env)
    requires Operator(op) && rest != "" && rest[0] != '='
    requires |op| == 2 || IsDigit(rest[0]) || IsIdentStart(rest[0])
    ensures RawTokens(op + rest, true, env) == [Tok(TCmp, op)] + RawTokens(rest, true, env)
  {
    hide RawTokens;
    var s := op + rest;
    assert s[0] == op[0] && s[1] == (if |op| == 2 then '=' else rest[0]) && s[|op|..] == rest;
    assert op == if |op| == 2 then [op[0], '='] else [op[0]];
    RawOne(s, true, env);
  }

  predicate Operator(op: string) {
    op in {">", ">=", "<", "<="}
  }

  lemma BoundEnds(a: string, negative: bool, env: Env)
    requires Bound(a, negative)
    ensures a != "" && !Blank(a[|a| - 1]) && a[0] != '='
  {
    var d := if negative then a[1..] else a;
    assert InNumeral(d, |d| - 1);
    assert d[|d| - 1] == a[|a| - 1];
  }

  /** A comparison with a number, in each of the four operators; a negative number needs a two-character one. */
  lemma CompareMeans(f: string, op: string, a: string, negative: bool, env: Env)
    requires PlainWord(f, env) && Sane(env) && Operator(op) && Bound(a, negative) && (negative ==> |op| == 2)
    ensures Parse(f + (":" + (op + a)), env) == Filtered(CmpNum([f], op, env.numeral(a)))
  {
    hide RawTokens, IsIdent, Parse, Bound;
    var x := NumberTok(a, env);
    var toks := [Tok(TCmp, op), x];
    BoundEnds(a, negative, env);
    assert a + "" == a;
    RawBound(a, negative, "", env);
    RawEnd("", false, env);
    PositiveStarts(a, negative);
    RawOperator(op, a, env);
    assert [Tok(TCmp, op)] + ([x] + []) == toks && toks[2..] == [];
    assert (op + a)[|op + a| - 1] == a[|a| - 1];
    FieldInput(f, op + a, toks, CmpNum([f], op, env.numeral(a)), env);
  }

  lemma PositiveStarts(a: string, negative: bool)
    requires Bound(a, negative)
    ensures a != "" && (!negative ==> IsDigit(a[0]))
  {
  }

  /** Behind > or < alone a negative number is no comparison but a text. */
  lemma NegativeCompareIsText(f: string, op: string, a: string, env: Env)
    requires PlainWord(f, env) && Sane(env) && (op == ">" || op == "<") && Bound(a, true)
    ensures Parse(f + (":" + (op + a)), env) == Filtered(Eq([f], op + a))
  {
    hide RawTokens, IsIdent, Parse, RunEnd;
    var value := op + a;
    var t := Tok(TStar, value);
    BoundEnds(a, true, env);
    forall i | 0 <= i < |value| ensures !StopsRun(value[i]) && value[i] != '*' {
      if i >= 2 {
        assert InNumeral(a[1..], i - 2) && value[i] == a[1..][i - 2];
      }
    }
    RunToEnd(value, 1);
    assert value[0] == op[0] && value[1] == '-' && value[..|value|] == value && value[|value|..] == "";
    RawOne(value, true, env);
    RawEnd("", Expects(t, true), env);
    NoLiteral(value);
    assert value[|value| - 1] == a[|a| - 1] && [t][1..] == [];
    FieldInput(f, value, [t], Eq([f], value), env);
  }

  lemma {:induction false} RunToEnd(s: string, j: nat)
    requires j <= |s| && forall i :: j <= i < |s| ==> !StopsRun(s[i])
    ensures RunEnd(s, j) == |s|
    decreases |s| - j
  {
    if j < |s| {
      RunToEnd(s, j + 1);
    }
  }

  /** A comparison with a word. */
  lemma CompareTextMeans(f: string, op: string, v: string, env: Env)
    requires PlainWord(f, env) && Sane(env) && Operator(op) && PlainWord(v, env)
    requires |op| == 2 || (v != "" && IsIdentStart(v[0]))
    ensures Parse(f + (":" + (op + v)), env) == Filtered(CmpStr([f], op, v))
  {
    hide RawTokens, IsIdent, Parse;
    var toks := [Tok(TCmp, op), Tok(TIdent, v)];
    WordNotEmpty(v, env);
    IdentEnds(v, env);
    assert v + "" == v;
    RawWord(v, "", true, env);
    RawEnd("", false, env);
    NoEqualsSign(v, env);
    RawOperator(op, v, env);
    assert [Tok(TCmp, op)] + ([Tok(TIdent, v)] + []) == toks && toks[2..] == [];
    assert (op + v)[|op + v| - 1] == v[|v| - 1];
    FieldInput(f, op + v, toks, CmpStr([f], op, v), env);
  }

  lemma NoEqualsSign(v: string, env: Env)
    requires IsIdent(v, env)
    ensures v[0] != '='
  {
    WordNotEmpty(v, env);
  }

  lemma TextToken(v: string, inVal: bool, env: Env) returns (t: Token)
    ensures var s := "\"" + (Inked(v) + "\"");
            && RawTokens(s, inVal, env) == [t] && t.kind == TString && t.text == v && t.parts.None?
            && s != "" && !Blank(s[0]) && !Blank(s[|s| - 1]) && s[0] == '"'
  {
    hide RawTokens, StringFrom, Inked;
    var s := "\"" + (Inked(v) + "\"");
    TextInks("\"", v, "\"", NO_QUOTE);
    assert NO_QUOTE.text + v == v && NO_QUOTE.lit + v == v;
    assert s[0] == '"' && s[|s| - 1] == '"';
    StringStops(s, |s| - 1, Quoting(v, v, [], false));
    RawOne(s, inVal, env);
    t := Next(s, inVal, env).0;
    RawEnd(s[|s|..], Expects(t, inVal), env);
  }

  lemma StringStops(s: string, j: nat, q: Quoting)
    requires j < |s| && s[j] == '"'
    ensures StringFrom(s, j, q) == (q.Done(), j + 1)
  {
  }

  /** Any text at all can be quoted, and is then compared with the whole message. */
  lemma QuotedMeans(v: string, env: Env)
    ensures Parse("\"" + (Inked(v) + "\""), env) == Filtered(Substr(["msg"], v, true, None))
  {
    hide RawTokens, TrimSpace, ParseNot, Parse, Inked;
    var t := TextToken(v, false, env);
    var s := "\"" + (Inked(v) + "\"");
    Untrimmed(s);
    OneTerm(t, env);
    ParsedAlone(s, t, Substr(["msg"], v, true, None), env);
  }

  /** As the value of a field it is compared with the field, and behind >= or <= it is a bound. */
  lemma FieldQuotedMeans(f: string, v: string, env: Env)
    requires PlainWord(f, env) && Sane(env)
    ensures Parse(f + (":" + ("\"" + (Inked(v) + "\""))), env) == Filtered(Eq([f], v))
    ensures forall op :: op == ">=" || op == "<=" ==>
              Parse(f + (":" + (op + ("\"" + (Inked(v) + "\"")))), env) == Filtered(CmpStr([f], op, v))
  {
    hide RawTokens, IsIdent, Parse, Inked;
    var value := "\"" + (Inked(v) + "\"");
    var t := TextToken(v, true, env);
    assert [t][1..] == [];
    FieldInput(f, value, [t], Eq([f], v), env);
    forall op | op == ">=" || op == "<="
      ensures Parse(f + (":" + (op + value)), env) == Filtered(CmpStr([f], op, v))
    {
      var toks := [Tok(TCmp, op), t];
      RawOperator(op, value, env);
      assert [Tok(TCmp, op)] + [t] == toks && toks[2..] == [];
      assert (op + value)[|op + value| - 1] == value[|value| - 1];
      FieldInput(f, op + value, toks, CmpStr([f], op, v), env);
    }
  }

  /** A star alone asks whether the field is there. */
  lemma StarMeans(f: string, env: Env)
    requires PlainWord(f, env) && Sane(env)
    ensures Parse(f + (":" + "*"), env) == Filtered(Exists([f]))
  {
    hide RawTokens, IsIdent, Parse;
    var t := Tok(TStar, "*");
    assert WordEnd("*", 0, true) == 1 && "*"[..1] == "*" && "*"[1..] == "";
    StarIsNoWord("*", env);
    assert Next("*", true, env) == (t, 1);
    RawOne("*", true, env);
    RawEnd("", Expects(t, true), env);
    NoLiteral("*");
    assert TrimStars("*") == "" && [t][1..] == [];
    FieldInput(f, "*", [t], Exists([f]), env);
  }

  lemma StarIsNoWord(s: string, env: Env)
    requires s != "" && s[0] == '*'
    ensures Word(s, env) == Tok(TStar, s)
  {
    assert !IsIdentChar(s[0], true, env);
  }

  /** Stars around a word search the field for it. */
  lemma StarsMean(f: string, w: string, env: Env)
    requires PlainWord(f, env) && Sane(env) && PlainWord(w, env)
    ensures Parse(f + (":" + ("*" + w + "*")), env) == Filtered(Substr([f], w, false, None))
  {
    hide RawTokens, IsIdent, Parse, WordEnd, TrimStars;
    var value := "*" + w + "*";
    var t := Tok(TStar, value);
    StarredWord(w, true, env);
    StarIsNoWord(value, env);
    assert value[0] == '*' && value[..|value|] == value && value[|value|..] == "";
    assert Next(value, true, env) == (t, |value|);
    RawOne(value, true, env);
    RawEnd("", Expects(t, true), env);
    NoLiteral(value);
    StarsTrim(w, env);
    WordNotEmpty(w, env);
    assert value[|value| - 1] == '*' && [t][1..] == [];
    FieldInput(f, value, [t], Substr([f], w, false, None), env);
  }

  /** And alone they search the message. */
  lemma StarsAloneMean(w: string, env: Env)
    requires PlainWord(w, env)
    ensures Parse("*" + w + "*", env) == Filtered(Substr(["msg"], w, false, None))
  {
    hide RawTokens, IsIdent, Parse, WordEnd, TrimStars, TrimSpace, ParseNot;
    var value := "*" + w + "*";
    var t := Tok(TStar, value);
    StarredWord(w, false, env);
    StarIsNoWord(value, env);
    assert value[0] == '*' && value[|value| - 1] == '*' && value[..|value|] == value && value[|value|..] == "";
    Untrimmed(value);
    assert Next(value, false, env) == (t, |value|);
    RawOne(value, false, env);
    RawEnd("", Expects(t, false), env);
    StarsTrim(w, env);
    OneTerm(t, env);
    ParsedAlone(value, t, Substr(["msg"], w, false, None), env);
  }

  lemma StarredWord(w: string, inVal: bool, env: Env)
    requires IsIdent(w, env)
    ensures WordEnd("*" + w + "*", 0, inVal) == |w| + 2
  {
    var value := "*" + w + "*";
    forall i | 0 <= i < |value| ensures !IsSpace(value[i]) && !IsDelim(value[i]) {
      if 1 <= i <= |w| {
        assert value[i] == w[i - 1] && IsIdentChar(w[i - 1], i == 1, env);
      }
    }
    WordToEnd(value, 0, inVal);
  }

  lemma {:induction false} WordToEnd(s: string, j: nat, inVal: bool)
    requires j <= |s| && forall i :: j <= i < |s| ==> !IsSpace(s[i]) && !IsDelim(s[i])
    ensures WordEnd(s, j, inVal) == |s|
    decreases |s| - j
  {
    if j < |s| {
      WordToEnd(s, j + 1, inVal);
    }
  }

  lemma StarsTrim(w: string, env: Env)
    requires IsIdent(w, env)
    ensures TrimStars("*" + w + "*") == w
  {
    WordNotEmpty(w, env);
    assert IsIdentChar(w[0], true, env) && IsIdentChar(w[|w| - 1], |w| == 1, env);
    assert ("*" + w + "*")[1..] == w + "*";
    assert TrimStarsLeft(w + "*") == w + "*" == TrimStarsLeft("*" + w + "*");
    assert (w + "*")[..|w|] == w && TrimStarsRight(w) == w;
    assert TrimStarsRight(w + "*") == TrimStarsRight((w + "*")[..|w|]);
  }

  /** The body of a regular expression literal: no slash, and whitespace only behind a backslash. */
  predicate LiteralBody(b: string) {
    if b == "" then true
    else if b[0] == '\\' then |b| > 1 && LiteralBody(b[2..])
    else b[0] != '/' && !IsSpace(b[0]) && LiteralBody(b[1..])
  }

  predicate Flags(flags: string) {
    forall i :: 0 <= i < |flags| ==> flags[i] == 'i' || flags[i] == 'g'
  }

  lemma {:induction false} BodyEnds(p: string, b: string, flags: string)
    requires LiteralBody(b) && Flags(flags)
    ensures RegexEnd(p + (b + ("/" + flags)), |p|) == Some(|p| + |b| + 1 + |flags|)
    decreases |b|
  {
    var s := p + (b + ("/" + flags));
    if b == "" {
      assert s[|p|] == '/';
      forall i | |p| + 1 <= i < |s| ensures s[i] == 'i' || s[i] == 'g' {
        assert s[i] == flags[i - |p| - 1];
      }
      FlagsToEnd(s, |p| + 1);
    } else {
      assert s[|p|] == b[0];
      if b[0] == '\\' {
        assert s == (p + b[..2]) + (b[2..] + ("/" + flags));
        BodyEnds(p + b[..2], b[2..], flags);
      } else {
        assert s == (p + b[..1]) + (b[1..] + ("/" + flags));
        BodyEnds(p + b[..1], b[1..], flags);
      }
    }
  }

  lemma {:induction false} FlagsToEnd(s: string, j: nat)
    requires j <= |s| && forall i :: j <= i < |s| ==> s[i] == 'i' || s[i] == 'g'
    ensures FlagsEnd(s, j) == |s|
    decreases |s| - j
  {
    if j < |s| {
      FlagsToEnd(s, j + 1);
    }
  }

  /** What the body stands for: an escaped slash is a slash. */
  lemma LiteralSplits(b: string, flags: string)
    requires b != "" && Flags(flags)
    ensures SplitRegex("/" + (b + ("/" + flags))) == Some((Unescaped(b), flags))
  {
    var s := "/" + (b + ("/" + flags));
    var k := |b| + 2;
    forall i | k <= i < |s| ensures s[i] == 'i' || s[i] == 'g' {
      assert s[i] == flags[i - k];
    }
    assert s[k - 1] == '/';
    Chips.FlagsBack(s, k, |s|);
    assert s[1..k - 1] == b && s[k..] == flags;
  }

  /** A regular expression literal gives its pattern and flags, if the pattern compiles and is not asked for
      globally; otherwise the input is malformed. */
  lemma LiteralMeans(f: string, b: string, flags: string, env: Env)
    requires PlainWord(f, env) && Sane(env) && b != "" && LiteralBody(b) && Flags(flags)
    ensures var pattern := Unescaped(b);
            var fine := !('g' in flags) && env.compiles((if 'i' in flags then "(?i)" else "") + pattern);
            Parse(f + (":" + ("/" + (b + ("/" + flags)))), env)
            == if fine then Filtered(Regex([f], pattern, flags)) else Malformed
  {
    hide RawTokens, IsIdent, Parse, RegexEnd, SplitRegex, Unescaped, LiteralBody;
    var value := "/" + (b + ("/" + flags));
    var t := Tok(TStar, value);
    BodyEnds("/", b, flags);
    LiteralSplits(b, flags);
    assert value[0] == '/' && value[..|value|] == value && value[|value|..] == "";
    assert Next(value, true, env) == (t, |value|);
    RawOne(value, true, env);
    RawEnd("", Expects(t, true), env);
    LastNotBlank(b, flags);
    assert [t][1..] == [];
    FieldInput(f, value, [t], Regex([f], Unescaped(b), flags), env);
  }

  lemma LastNotBlank(b: string, flags: string)
    requires Flags(flags)
    ensures var value := "/" + (b + ("/" + flags)); !Blank(value[|value| - 1])
  {
    var value := "/" + (b + ("/" + flags));
    if flags != "" {
      assert value[|value| - 1] == flags[|flags| - 1];
    } else {
      assert value[|value| - 1] == '/';
    }
  }

  lemma FieldPlain(f: string, env: Env)
    requires PlainWord(f, env)
    ensures Chips.FieldRef(f) == f
  {
    forall i | 0 <= i < |f| ensures f[i] != '.' {
      assert IsIdentChar(f[i], i == 0, env);
    }
  }

  lemma ChipPrints(f: string, op: Chips.Op, v: string, flags: string, rendered: string, env: Env)
    requires PlainWord(f, env) && !Chips.Negating(op) && !(f == "msg" && op == Chips.Contains)
    requires rendered == Chips.RenderValue(op, v) + if op == Chips.RegexOp then flags else ""
    ensures Chips.ClauseToTerm(Chips.Clause(f, op, v, flags)) == f + (":" + rendered)
  {
    hide Chips.RenderValue, PlainWord, Chips.FieldRef;
    FieldPlain(f, env);
    assert "" + (f + (":" + rendered)) == f + (":" + rendered);
  }

  function SignOf(op: Chips.Op): string
    requires op in {Chips.Gt, Chips.Gte, Chips.Lt, Chips.Lte}
  {
    match op
    case Gt => ">"
    case Gte => ">="
    case Lt => "<"
    case Lte => "<="
  }

  /** What the server makes of the chips of a field: a comparison chip with a number compares, */
  lemma CompareChipMeans(f: string, op: Chips.Op, a: string, negative: bool, env: Env)
    requires PlainWord(f, env) && Sane(env) && op in {Chips.Gt, Chips.Gte, Chips.Lt, Chips.Lte} && Bound(a, negative)
    requires negative ==> op == Chips.Gte || op == Chips.Lte
    ensures Parse(Chips.ClauseToTerm(Chips.Clause(f, op, a, "")), env)
         == Filtered(CmpNum([f], SignOf(op), env.numeral(a)))
  {
    hide Parse, PlainWord, Bound, Sane, Chips.ClauseToTerm;
    var r := SignOf(op) + a;
    assert Chips.RenderValue(op, a) + "" == r;
    ChipPrints(f, op, a, "", r, env);
    CompareMeans(f, SignOf(op), a, negative, env);
  }

  lemma {:induction false} NoDotsIn(a: string)
    requires forall i :: 0 <= i < |a| ==> InNumeral(a, i)
    ensures Index(a, "..") < 0
    ensures forall rest: string :: Index(a + (".." + rest), "..") == |a|
    decreases |a|
  {
    if a == "" {
      assert forall rest: string :: "" + (".." + rest) == ".." + rest && ".." <= ".." + rest;
      assert !(".." <= "");
    } else {
      assert InNumeral(a, 0);
      forall i | 0 <= i < |a[1..]| ensures InNumeral(a[1..], i) {
        assert InNumeral(a, i + 1) && a[1..][i] == a[i + 1];
      }
      NoDotsIn(a[1..]);
      forall rest: string ensures Index(a + (".." + rest), "..") == |a| {
        var s := a + (".." + rest);
        assert s[1..] == a[1..] + (".." + rest);
        assert |a| > 1 ==> s[1] == a[1];
        assert s[0] == a[0] && !(s[0] == s[1] == '.');
      }
    }
  }

  /** a range chip with two numbers asks for what lies between them, */
  lemma RangeChipMeans(f: string, a: string, b: string, env: Env)
    requires PlainWord(f, env) && Sane(env) && Numeral(a) && Numeral(b)
    ensures Parse(Chips.ClauseToTerm(Chips.Clause(f, Chips.RangeOp, a + (".." + b), "")), env)
         == Filtered(Range([f], env.numeral(a), env.numeral(b)))
  {
    hide Parse, PlainWord, Sane, Chips.ClauseToTerm, Numeral;
    BoundsPrint(a, b);
    assert Chips.RenderValue(Chips.RangeOp, a + (".." + b)) + "" == Between(a, b);
    ChipPrints(f, Chips.RangeOp, a + (".." + b), "", Between(a, b), env);
    RangeMeans(f, a, b, false, env);
  }

  lemma BoundsPrint(a: string, b: string)
    requires Numeral(a) && Numeral(b)
    ensures Chips.Bounds(a + (".." + b)) == Between(a, b)
  {
    hide Index;
    var v := a + (".." + b);
    NoDotsIn(a);
    NoDotsIn(b);
    NoDashIn(a, b);
    assert v[..|a|] == a && v[|a| + 2..] == b;
    assert "[" + a + ".." + b + "]" == Between(a, b);
  }

  lemma NoDashIn(a: string, b: string)
    requires Numeral(a) && Numeral(b)
    ensures Index(a + (".." + b), Chips.DASH) < 0
  {
    var v := a + (".." + b);
    var at := Index(v, Chips.DASH);
    if at >= 0 {
      IndexOccurs(v, Chips.DASH);
      assert v[at..][0] == v[at];
      NoSpaceIn(a, b);
    }
  }

  lemma NoSpaceIn(a: string, b: string)
    requires Numeral(a) && Numeral(b)
    ensures var v := a + (".." + b); forall i :: 0 <= i < |v| ==> v[i] != ' '
  {
    var v := a + (".." + b);
    forall i | 0 <= i < |v| ensures v[i] != ' ' {
      if i < |a| {
        assert InNumeral(a, i);
      } else if i >= |a| + 2 {
        assert InNumeral(b, i - |a| - 2);
      }
    }
  }

  /** an existence chip asks whether the field is there, and a contains chip searches it, */
  lemma ExistsChipMeans(f: string, env: Env)
    requires PlainWord(f, env) && Sane(env)
    ensures Parse(Chips.ClauseToTerm(Chips.Clause(f, Chips.ExistsOp, "", "")), env) == Filtered(Exists([f]))
  {
    hide Parse, PlainWord, Sane, Chips.ClauseToTerm;
    assert Chips.RenderValue(Chips.ExistsOp, "") + "" == "*";
    ChipPrints(f, Chips.ExistsOp, "", "", "*", env);
    StarMeans(f, env);
  }

  lemma ContainsChipMeans(f: string, w: string, env: Env)
    requires PlainWord(f, env) && Sane(env) && PlainWord(w, env) && Chips.NoBlank(w)
    ensures Parse(Chips.ClauseToTerm(Chips.Clause(f, Chips.Contains, w, "")), env)
         == Filtered(Substr([f], w, false, None))
  {
    hide Parse, PlainWord, Sane, Chips.ClauseToTerm;
    Chips.SolidShort(w);
    if f == "msg" {
      MessageChipPrints(w);
      StarsAloneMean(w, env);
    } else {
      assert Chips.RenderValue(Chips.Contains, w) + "" == "*" + w + "*";
      ChipPrints(f, Chips.Contains, w, "", "*" + w + "*", env);
      StarsMean(f, w, env);
    }
  }

  lemma MessageChipPrints(w: string)
    requires Chips.Solid(w) == w
    ensures Chips.ClauseToTerm(Chips.Clause("msg", Chips.Contains, w, "")) == "*" + w + "*"
  {
    assert "" + "*" + w + "*" == "*" + w + "*";
  }

  /** and a regular expression chip matches its pattern, slashes and all. */
  lemma RegexChipMeans(f: string, q: string, flags: string, env: Env)
    requires PlainWord(f, env) && Sane(env) && q != "" && LiteralBody(Chips.SlashesEscaped(q))
    requires (flags == "" || flags == "i") && env.compiles((if flags == "i" then "(?i)" else "") + q)
    ensures Parse(Chips.ClauseToTerm(Chips.Clause(f, Chips.RegexOp, q, flags)), env)
         == Filtered(Regex([f], q, flags))
  {
    hide Parse, PlainWord, Sane, Chips.ClauseToTerm, LiteralBody, Chips.SlashesEscaped, Unescaped;
    var b := Chips.SlashesEscaped(q);
    Chips.SlashesReturn(q);
    assert Chips.RenderValue(Chips.RegexOp, q) + flags == "/" + (b + ("/" + flags));
    ChipPrints(f, Chips.RegexOp, q, flags, "/" + (b + ("/" + flags)), env);
    LiteralMeans(f, b, flags, env);
  }
}
