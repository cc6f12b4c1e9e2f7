/** What the parser promises: parentheses isolate, groups conjoin, and parsing undoes printing. */
module Grammar {
  import opened Options
  import opened Ast
  import opened Lexing
  import opened Parsing
  import opened Filters

  const LP := Tok(TLParen, "(")
  const RP := Tok(TRParen, ")")

  /** The same outcome with more tokens left over. */
  function Before(out: Outcome, more: seq<Token>): Outcome {
    if out.Ok? then Ok(out.node, out.rest + more) else Err
  }

  ghost predicate Closes(more: seq<Token>) {
    more != [] && more[0].kind == TRParen
  }

  /** Locality: in front of a closing parenthesis the parser does what it does at the end of the input,
      including the tolerated AND at the end. */
  lemma {:induction false} OrIsLocal(ts: seq<Token>, more: seq<Token>, env: Env)
    requires Closes(more) && ParseOr(ts, env).Ok?
    ensures ParseOr(ts + more, env) == Before(ParseOr(ts, env), more)
    decreases |ts|, 4
  {
    AndIsLocal(ts, more, env);
    var left := ParseAnd(ts, env);
    OrTailIsLocal(left.node, left.rest, more, env);
  }

  lemma {:induction false} OrTailIsLocal(left: Node, ts: seq<Token>, more: seq<Token>, env: Env)
    requires Closes(more) && OrTail(left, ts, env).Ok?
    ensures OrTail(left, ts + more, env) == Before(OrTail(left, ts, env), more)
    decreases |ts|, 5
  {
    if ts == [] {
      assert ts + more == more;
    } else if ts[0].kind == TOr {
      assert (ts + more)[1..] == ts[1..] + more;
      AndIsLocal(ts[1..], more, env);
      var right := ParseAnd(ts[1..], env);
      OrTailIsLocal(Or(left, right.node), right.rest, more, env);
    }
  }

  lemma {:induction false} AndIsLocal(ts: seq<Token>, more: seq<Token>, env: Env)
    requires Closes(more) && ParseAnd(ts, env).Ok?
    ensures ParseAnd(ts + more, env) == Before(ParseAnd(ts, env), more)
    decreases |ts|, 3
  {
    NotIsLocal(ts, more, env);
    var left := ParseNot(ts, env);
    AndTailIsLocal(left.node, left.rest, more, env);
  }

  lemma {:induction false} AndTailIsLocal(left: Node, ts: seq<Token>, more: seq<Token>, env: Env)
    requires Closes(more) && AndTail(left, ts, env).Ok?
    ensures AndTail(left, ts + more, env) == Before(AndTail(left, ts, env), more)
    decreases |ts|, 4
  {
    if ts == [] {
      assert ts + more == more;
    } else {
      assert (ts + more)[1..] == ts[1..] + more;
      if ts[0].kind == TAnd {
        if |ts| > 1 && ts[1].kind != TOr && ts[1].kind != TRParen {
          AndRightIsLocal(left, ts[1..], more, env);
        }
      } else if IsOpener(ts[0].kind) {
        AndRightIsLocal(left, ts, more, env);
      }
    }
  }

  lemma {:induction false} AndRightIsLocal(left: Node, ts: seq<Token>, more: seq<Token>, env: Env)
    requires Closes(more) && AndRight(left, ts, env).Ok?
    ensures AndRight(left, ts + more, env) == Before(AndRight(left, ts, env), more)
    decreases |ts|, 3
  {
    NotIsLocal(ts, more, env);
    var right := ParseNot(ts, env);
    AndTailIsLocal(And(left, right.node), right.rest, more, env);
  }

  lemma {:induction false} NotIsLocal(ts: seq<Token>, more: seq<Token>, env: Env)
    requires Closes(more) && ParseNot(ts, env).Ok?
    ensures ParseNot(ts + more, env) == Before(ParseNot(ts, env), more)
    decreases |ts|, 2
  {
    if ts[0].kind == TDash || ts[0].kind == TNot {
      assert (ts + more)[1..] == ts[1..] + more;
      AtomIsLocal(ts[1..], more, env);
    } else {
      AtomIsLocal(ts, more, env);
    }
  }

  lemma {:induction false} AtomIsLocal(ts: seq<Token>, more: seq<Token>, env: Env)
    requires Closes(more) && ParseAtom(ts, env).Ok?
    ensures ParseAtom(ts + more, env) == Before(ParseAtom(ts, env), more)
    decreases |ts|, 1
  {
    if ts[0].kind == TLParen {
      assert (ts + more)[1..] == ts[1..] + more;
      OrIsLocal(ts[1..], more, env);
      var inner := ParseOr(ts[1..], env);
      assert (inner.rest + more)[1..] == inner.rest[1..] + more;
    } else {
      TermIsLocal(ts, more, env);
    }
  }

  lemma TermIsLocal(ts: seq<Token>, more: seq<Token>, env: Env)
    requires Closes(more) && ts != [] && ParseTerm(ts, env).Ok?
    ensures ParseTerm(ts + more, env) == Before(ParseTerm(ts, env), more)
  {
    hide FieldValue;
    assert (ts + more)[1..] == ts[1..] + more;
    if ts[0].kind == TAt || ts[0].kind == TIdent {
      ReferenceIsLocal(ts, more);
      var (path, rest) := FieldRef(ts);
      if rest != [] && rest[0].kind == TColon {
        assert (rest + more)[1..] == rest[1..] + more;
        ValueIsLocal(path, rest[1..], more, env);
      } else if rest == [] {
        assert rest + more == more;
      }
    }
  }

  /** No path goes on here. */
  ghost predicate StopsPath(more: seq<Token>) {
    more != [] && more[0].kind in {TRParen, TString}
  }

  lemma ReferenceIsLocal(ts: seq<Token>, more: seq<Token>)
    requires StopsPath(more) && ts != []
    ensures FieldRef(ts + more) == (FieldRef(ts).0, FieldRef(ts).1 + more)
  {
    hide Segments, StopsPath;
    assert (ts + more)[0] == ts[0] && (ts + more)[1..] == ts[1..] + more;
    var after := if ts[0].kind == TAt then ts[1..] else ts;
    if after == [] || after[0].kind != TIdent {
      NoPathThere(after, more);
    } else {
      assert (after + more)[0] == after[0] && (after + more)[1..] == after[1..] + more;
      SegmentsAreLocal([after[0].text], after[1..], more);
    }
  }

  lemma NoPathThere(after: seq<Token>, more: seq<Token>)
    requires StopsPath(more) && (after == [] || after[0].kind != TIdent)
    ensures after + more != [] && (after + more)[0].kind != TIdent
  {
  }

  lemma {:induction false} SegmentsAreLocal(path: seq<string>, ts: seq<Token>, more: seq<Token>)
    requires StopsPath(more)
    ensures Segments(path, ts + more) == (Segments(path, ts).0, Segments(path, ts).1 + more)
    decreases |ts|
  {
    if |ts| >= 2 && ts[0].kind == TDot && ts[1].kind == TIdent {
      assert (ts + more)[2..] == ts[2..] + more;
      SegmentsAreLocal(path + [ts[1].text], ts[2..], more);
    }
  }

  lemma ValueIsLocal(path: seq<string>, ts: seq<Token>, more: seq<Token>, env: Env)
    requires FieldValue(path, ts, env).Ok?
    ensures FieldValue(path, ts + more, env) == Before(FieldValue(path, ts, env), more)
  {
    hide PlainValue;
    if ts[0].kind == TLBracket {
      assert (ts + more)[5..] == ts[5..] + more;
    } else if ts[0].kind == TCmp {
      assert (ts + more)[2..] == ts[2..] + more;
    } else {
      assert (ts + more)[1..] == ts[1..] + more;
    }
  }

  /** A filter that is complete by itself. */
  datatype Group = Group(toks: seq<Token>, node: Node)

  ghost predicate Complete(g: Group, env: Env) {
    ParseOr(g.toks, env) == Ok(g.node, [])
  }

  function InParens(g: Group): seq<Token> {
    [LP] + g.toks + [RP]
  }

  function MoreGroups(gs: seq<Group>): seq<Token> {
    if gs == [] then [] else [SPACE] + InParens(gs[0]) + MoreGroups(gs[1..])
  }

  function Conjoin(left: Node, gs: seq<Group>): Node
    decreases |gs|
  {
    if gs == [] then left else Conjoin(And(left, gs[0].node), gs[1..])
  }

  lemma GroupParses(g: Group, more: seq<Token>, env: Env)
    requires Complete(g, env)
    ensures ParseNot(InParens(g) + more, env) == Ok(g.node, more)
  {
    var ts := InParens(g) + more;
    assert ts[1..] == g.toks + ([RP] + more);
    OrIsLocal(g.toks, [RP] + more, env);
    assert [] + ([RP] + more) == [RP] + more;
    assert ([RP] + more)[1..] == more;
  }

  lemma {:induction false} MoreGroupsParse(left: Node, gs: seq<Group>, env: Env)
    requires forall g :: g in gs ==> Complete(g, env)
    ensures AndTail(left, MoreGroups(gs), env) == Ok(Conjoin(left, gs), [])
    decreases |gs|
  {
    if gs != [] {
      var rest := InParens(gs[0]) + MoreGroups(gs[1..]);
      assert MoreGroups(gs) == [SPACE] + rest;
      assert MoreGroups(gs)[1..] == rest && rest[0] == LP;
      GroupParses(gs[0], MoreGroups(gs[1..]), env);
      MoreGroupsParse(And(left, gs[0].node), gs[1..], env);
    }
  }

  /** Filters put in parentheses and separated by whitespace mean their conjunction, nested to the left,
      whatever operators they use inside. */
  lemma GroupsMeanConjunction(gs: seq<Group>, env: Env)
    requires gs != [] && forall g :: g in gs ==> Complete(g, env)
    ensures ParseOr(InParens(gs[0]) + MoreGroups(gs[1..]), env) == Ok(Conjoin(gs[0].node, gs[1..]), [])
  {
    GroupParses(gs[0], MoreGroups(gs[1..]), env);
    MoreGroupsParse(gs[0].node, gs[1..], env);
  }

  /** A row matches the conjunction exactly when it matches every filter. */
  lemma {:induction false} ConjunctionMeaning(left: Node, gs: seq<Group>, r: Reader, x: nat)
    ensures Compile(Conjoin(left, gs), r)(x) <==> Compile(left, r)(x) && forall g :: g in gs ==> Compile(g.node, r)(x)
    decreases |gs|
  {
    if gs != [] {
      ConjunctionMeaning(And(left, gs[0].node), gs[1..], r, x);
      assert forall g :: g in gs <==> g == gs[0] || g in gs[1..];
    }
  }

  predicate Keyword(w: string) {
    w in {"AND", "and", "OR", "or", "NOT", "not"}
  }

  predicate PlainWord(w: string, env: Env) {
    IsIdent(w, env) && !Keyword(w)
  }

  /** Trees over equalities between plain words. */
  predicate Printable(n: Node, env: Env) {
    match n
    case And(l, r) => Printable(l, env) && Printable(r, env)
    case Or(l, r) => Printable(l, env) && Printable(r, env)
    case Not(x) => Printable(x, env)
    case Eq(path, v) => path != [] && (forall p :: p in path ==> PlainWord(p, env)) && PlainWord(v, env)
    case _ => false
  }

  predicate NoDoubleNot(n: Node) {
    match n
    case And(l, r) => NoDoubleNot(l) && NoDoubleNot(r)
    case Or(l, r) => NoDoubleNot(l) && NoDoubleNot(r)
    case Not(x) => !x.Not? && NoDoubleNot(x)
    case _ => true
  }

  function DotToks(p: seq<string>): seq<Token> {
    if p == [] then [] else [Tok(TDot, "."), Tok(TIdent, p[0])] + DotToks(p[1..])
  }

  function PathToks(p: seq<string>): seq<Token>
    requires p != []
  {
    if |p| == 1 then [Tok(TIdent, p[0])] else [Tok(TAt, "@"), Tok(TIdent, p[0])] + DotToks(p[1..])
  }

  const AND := Tok(TAnd, "AND")
  const OR := Tok(TOr, "OR")
  const NOT := Tok(TNot, "NOT")
  const COLON := Tok(TColon, ":")

  /** The tokens of the printed form; `gap` is what stands around operators. */
  function Toks(n: Node, gap: seq<Token>, env: Env): seq<Token>
    requires Printable(n, env)
  {
    match n
    case And(l, r) => [LP] + Toks(l, gap, env) + gap + [AND] + gap + Toks(r, gap, env) + [RP]
    case Or(l, r) => [LP] + Toks(l, gap, env) + gap + [OR] + gap + Toks(r, gap, env) + [RP]
    case Not(x) => [NOT] + gap + Toks(x, gap, env)
    case Eq(path, v) => PathToks(path) + [COLON, Tok(TIdent, v)]
  }

  lemma {:induction false} DotsParse(path: seq<string>, p: seq<string>, more: seq<Token>)
    requires more != [] && more[0].kind != TDot
    ensures Segments(path, DotToks(p) + more) == (path + p, more)
    decreases |p|
  {
    if p != [] {
      var ts := DotToks(p) + more;
      assert ts[2..] == DotToks(p[1..]) + more;
      assert path + [p[0]] + p[1..] == path + p;
      DotsParse(path + [p[0]], p[1..], more);
    } else {
      assert DotToks(p) + more == more && path + p == path;
    }
  }

  lemma PathStarts(p: seq<string>, more: seq<Token>)
    requires p != []
    ensures var rest := [Tok(TIdent, p[0])] + (DotToks(p[1..]) + more);
            PathToks(p) + more == if |p| == 1 then rest else [Tok(TAt, "@")] + rest
  {
    if |p| == 1 {
      assert DotToks(p[1..]) == [] && [] + more == more;
    } else {
      assert [Tok(TAt, "@"), Tok(TIdent, p[0])] == [Tok(TAt, "@")] + [Tok(TIdent, p[0])];
      Reassociate([Tok(TAt, "@")], [Tok(TIdent, p[0])], DotToks(p[1..]), more);
    }
  }

  lemma PathParses(p: seq<string>, more: seq<Token>)
    requires p != [] && more != [] && more[0].kind != TDot
    ensures FieldRef(PathToks(p) + more) == (p, more)
  {
    hide Segments, DotToks;
    var tail := DotToks(p[1..]) + more;
    var word := Tok(TIdent, p[0]);
    PathStarts(p, more);
    assert [p[0]] + p[1..] == p;
    assert ([word] + tail)[1..] == tail;
    assert ([Tok(TAt, "@")] + ([word] + tail))[1..] == [word] + tail;
    DotsParse([p[0]], p[1..], more);
  }

  lemma EqParses(path: seq<string>, v: string, more: seq<Token>, env: Env)
    requires Printable(Eq(path, v), env)
    ensures ParseAtom(Toks(Eq(path, v), [], env) + more, env) == Ok(Eq(path, v), more)
  {
    var value := [COLON, Tok(TIdent, v)] + more;
    var ts := Toks(Eq(path, v), [], env) + more;
    assert ts == PathToks(path) + value;
    PathParses(path, value);
    assert value[1..][1..] == more;
  }

  /** Parsing the tokens of a printed tree gives the tree, if it has no NOT under a NOT. */
  lemma {:induction false} ToksParse(n: Node, more: seq<Token>, env: Env)
    requires Printable(n, env) && NoDoubleNot(n)
    ensures ParseNot(Toks(n, [], env) + more, env) == Ok(n, more)
    ensures !n.Not? ==> ParseAtom(Toks(n, [], env) + more, env) == Ok(n, more)
    decreases n, 1
  {
    hide ParseAtom;
    match n
    case And(l, r) =>
      OperatorParses(n, l, r, AND, more, env);
      FirstTok(n, env);
    case Or(l, r) =>
      OperatorParses(n, l, r, OR, more, env);
      FirstTok(n, env);
    case Not(x) => NotParses(x, more, env);
    case Eq(path, v) =>
      EqParses(path, v, more, env);
      FirstTok(n, env);
  }

  lemma NotRegroups(x: Node, more: seq<Token>, env: Env)
    requires Printable(x, env)
    ensures Toks(Not(x), [], env) + more == [NOT] + (Toks(x, [], env) + more)
  {
    assert [NOT] + [] + Toks(x, [], env) == [NOT] + Toks(x, [], env);
  }

  lemma NotParses(x: Node, more: seq<Token>, env: Env)
    requires Printable(Not(x), env) && NoDoubleNot(Not(x))
    ensures ParseNot(Toks(Not(x), [], env) + more, env) == Ok(Not(x), more)
    decreases Not(x), 0
  {
    hide Toks, ParseAtom;
    NotRegroups(x, more, env);
    ToksParse(x, more, env);
    var ts := Toks(x, [], env) + more;
    assert ([NOT] + ts)[1..] == ts;
  }

  lemma FirstTok(n: Node, env: Env)
    requires Printable(n, env)
    ensures Toks(n, [], env) != [] && Toks(n, [], env)[0].kind in {TLParen, TNot, TIdent, TAt}
  {
  }

  /** Two operands around an operator, up to a closing parenthesis. */
  lemma OperandsParse(l: Node, r: Node, left: seq<Token>, right: seq<Token>, close: seq<Token>, env: Env)
    requires Closes(close) && right != [] && right[0].kind != TOr && right[0].kind != TRParen
    requires ParseNot(right, env) == Ok(r, close)
    ensures ParseNot(left, env) == Ok(l, [AND] + right) ==> ParseOr(left, env) == Ok(And(l, r), close)
    ensures ParseNot(left, env) == Ok(l, [OR] + right) ==> ParseOr(left, env) == Ok(Or(l, r), close)
  {
    hide ParseNot;
    assert ([AND] + right)[1..] == right && ([OR] + right)[1..] == right;
    assert AndTail(And(l, r), close, env) == Ok(And(l, r), close);
    assert AndTail(r, close, env) == Ok(r, close);
    assert OrTail(And(l, r), close, env) == Ok(And(l, r), close);
    assert OrTail(Or(l, r), close, env) == Ok(Or(l, r), close);
    assert AndRight(l, right, env) == Ok(And(l, r), close);
    assert AndTail(l, [AND] + right, env) == Ok(And(l, r), close);
    assert AndTail(l, [OR] + right, env) == Ok(l, [OR] + right);
    assert OrTail(l, [OR] + right, env) == Ok(Or(l, r), close);
  }

  lemma OperatorToks(n: Node, l: Node, r: Node, op: Token, gap: seq<Token>, env: Env)
    requires Printable(n, env) && ((n == And(l, r) && op == AND) || (n == Or(l, r) && op == OR))
    ensures Printable(l, env) && Printable(r, env)
    ensures Toks(n, gap, env) == [LP] + Toks(l, gap, env) + gap + [op] + gap + Toks(r, gap, env) + [RP]
  {
  }

  lemma Regroup(a: seq<Token>, op: Token, b: seq<Token>, more: seq<Token>)
    ensures ([LP] + a + [] + [op] + [] + b + [RP]) + more == [LP] + (a + ([op] + (b + ([RP] + more))))
  {
  }

  lemma ParensParse(ts: seq<Token>, n: Node, more: seq<Token>, env: Env)
    requires ParseOr(ts, env) == Ok(n, [RP] + more)
    ensures ParseAtom([LP] + ts, env) == Ok(n, more)
  {
    assert ([LP] + ts)[1..] == ts && ([RP] + more)[1..] == more;
  }

  lemma OperatorParses(n: Node, l: Node, r: Node, op: Token, more: seq<Token>, env: Env)
    requires Printable(n, env) && NoDoubleNot(n) && ((n == And(l, r) && op == AND) || (n == Or(l, r) && op == OR))
    ensures ParseAtom(Toks(n, [], env) + more, env) == Ok(n, more)
    decreases n, 0
  {
    hide ParseOr, ParseNot, ParseAtom, Toks;
    OperatorToks(n, l, r, op, [], env);
    var a, b := Toks(l, [], env), Toks(r, [], env);
    var right := b + ([RP] + more);
    ToksParse(l, [op] + right, env);
    ToksParse(r, [RP] + more, env);
    FirstTok(r, env);
    OperandsParse(l, r, a + ([op] + right), right, [RP] + more, env);
    ParensParse(a + ([op] + right), n, more, env);
    Regroup(a, op, b, more);
  }

  /** A NOT directly under a NOT makes the printed form malformed, however deep it is. */
  lemma {:induction false} DoubleNotFails(n: Node, more: seq<Token>, env: Env)
    requires Printable(n, env) && !NoDoubleNot(n)
    ensures ParseNot(Toks(n, [], env) + more, env) == Err
    ensures !n.Not? ==> ParseAtom(Toks(n, [], env) + more, env) == Err
    decreases n, 1
  {
    match n
    case And(l, r) => OperatorFails(n, l, r, AND, more, env);
    case Or(l, r) => OperatorFails(n, l, r, OR, more, env);
    case Not(x) =>
      assert (Toks(n, [], env) + more)[1..] == Toks(x, [], env) + more;
      if x.Not? {
        assert (Toks(x, [], env) + more)[0] == NOT;
      } else {
        DoubleNotFails(x, more, env);
      }
    case Eq(path, v) =>
  }

  /** A malformed operand makes the whole group malformed. */
  lemma OperandsFail(l: Node, left: seq<Token>, right: seq<Token>, op: Token, env: Env)
    requires op == AND || op == OR
    requires ParseNot(left, env) == Err || (ParseNot(left, env) == Ok(l, [op] + right) && ParseNot(right, env) == Err)
    requires right != [] && right[0].kind != TOr && right[0].kind != TRParen
    ensures ParseOr(left, env) == Err && ParseAtom([LP] + left, env) == Err
  {
    hide ParseNot;
    assert ([op] + right)[1..] == right && ([LP] + left)[1..] == left;
    if ParseNot(left, env).Ok? {
      assert AndRight(l, right, env) == Err;
      assert ParseAnd(right, env) == Err;
      if op == AND {
        assert AndTail(l, [op] + right, env) == Err;
      } else {
        assert AndTail(l, [op] + right, env) == Ok(l, [op] + right);
        assert OrTail(l, [op] + right, env) == Err;
      }
    }
    assert ParseOr(left, env) == Err;
  }

  lemma GroupIsAtom(ts: seq<Token>, env: Env)
    ensures ParseNot([LP] + ts, env) == ParseAtom([LP] + ts, env)
  {
    hide ParseAtom;
  }

  lemma OperatorFails(n: Node, l: Node, r: Node, op: Token, more: seq<Token>, env: Env)
    requires Printable(n, env) && !NoDoubleNot(n) && ((n == And(l, r) && op == AND) || (n == Or(l, r) && op == OR))
    ensures ParseAtom(Toks(n, [], env) + more, env) == Err && ParseNot(Toks(n, [], env) + more, env) == Err
    decreases n, 0
  {
    hide ParseOr, ParseAtom, Toks;
    OperatorToks(n, l, r, op, [], env);
    var a, b := Toks(l, [], env), Toks(r, [], env);
    var right := b + ([RP] + more);
    if NoDoubleNot(l) {
      ToksParse(l, [op] + right, env);
      DoubleNotFails(r, [RP] + more, env);
    } else {
      DoubleNotFails(l, [op] + right, env);
    }
    FirstTok(r, env);
    OperandsFail(l, a + ([op] + right), right, op, env);
    Regroup(a, op, b, more);
    GroupIsAtom(a + ([op] + right), env);
  }

  /** Letters and digits are not whitespace. */
  ghost predicate Sane(env: Env) {
    forall c :: Blank(c) ==> !env.letter(c) && !env.digit(c)
  }

  /** A word ends here. */
  predicate EndsWord(rest: string, inVal: bool) {
    rest == "" || IsSpace(rest[0]) || (IsDelim(rest[0]) && (rest[0] != '.' || !inVal))
  }

  lemma {:induction false} WordEnds(w: string, rest: string, j: nat, inVal: bool, env: Env)
    requires IsIdent(w, env) && EndsWord(rest, inVal) && j <= |w|
    ensures WordEnd(w + rest, j, inVal) == |w|
    decreases |w| - j
  {
    var s := w + rest;
    if j < |w| {
      assert s[j] == w[j] && IsIdentChar(w[j], j == 0, env);
      WordEnds(w, rest, j + 1, inVal, env);
    } else if rest != "" {
      assert s[j] == rest[0];
    }
  }

  lemma RawWord(w: string, rest: string, inVal: bool, env: Env)
    requires IsIdent(w, env) && EndsWord(rest, inVal)
    ensures RawTokens(w + rest, inVal, env) == [Word(w, env)] + RawTokens(rest, false, env)
  {
    hide RawTokens, Next;
    var s := w + rest;
    assert s[..|w|] == w && s[|w|..] == rest;
    NextWord(w, rest, inVal, env);
    WordExpects(w, inVal, env);
    assert RawTokens(s, inVal, env) == [Word(w, env)] + RawTokens(s[|w|..], false, env) by { RawOne(s, inVal, env); }
  }

  lemma NextWord(w: string, rest: string, inVal: bool, env: Env)
    requires IsIdent(w, env) && EndsWord(rest, inVal)
    ensures Next(w + rest, inVal, env) == (Word(w, env), |w|)
  {
    hide WordEnd, Word, RunEnd, RegexEnd, SignedEnd, NumberEnd, SpacesEnd, StringFrom;
    var s := w + rest;
    WordEnds(w, rest, 0, inVal, env);
    assert s[0] == w[0] && IsIdentChar(w[0], true, env);
    assert s[..|w|] == w;
  }

  lemma WordExpects(w: string, inVal: bool, env: Env)
    ensures Word(w, env) != SPACE && !Expects(Word(w, env), inVal)
  {
  }

  lemma RawOne(s: string, inVal: bool, env: Env)
    requires s != ""
    ensures var (tok, n) := Next(s, inVal, env);
            RawTokens(s, inVal, env) == [tok] + RawTokens(s[n..], Expects(tok, inVal), env)
  {
    hide Next;
  }

  lemma RawChar(c: char, rest: string, inVal: bool, env: Env)
    ensures c == '(' ==> RawTokens([c] + rest, inVal, env) == [LP] + RawTokens(rest, false, env)
    ensures c == ')' ==> RawTokens([c] + rest, inVal, env) == [RP] + RawTokens(rest, false, env)
    ensures c == ':' ==> RawTokens([c] + rest, inVal, env) == [COLON] + RawTokens(rest, true, env)
    ensures c == '@' ==> RawTokens([c] + rest, inVal, env) == [Tok(TAt, "@")] + RawTokens(rest, false, env)
    ensures c == '.' && (rest == "" || rest[0] != '.') ==>
              RawTokens([c] + rest, inVal, env) == [Tok(TDot, ".")] + RawTokens(rest, false, env)
    ensures c == ' ' && (rest == "" || !IsSpace(rest[0])) ==>
        RawTokens([c] + rest, inVal, env) == [SPACE] + RawTokens(rest, inVal, env)
  {
    assert ([c] + rest)[1..] == rest;
    if c == ' ' && (rest == "" || !IsSpace(rest[0])) {
      assert SpacesEnd([c] + rest, 1) == 1;
    }
  }

  /** The first character of a printed tree, and the last. */
  lemma {:induction false} PrintEnds(n: Node, env: Env)
    requires Printable(n, env) && Sane(env)
    ensures var s := Print(n); s != "" && !Blank(s[0]) && !Blank(s[|s| - 1]) && s[0] != '.'
  {
    hide Blank;
    match n
    case And(l, r) => BracketsEnd(Print(n));
    case Or(l, r) => BracketsEnd(Print(n));
    case Not(x) =>
      PrintEnds(x, env);
      BracketsEnd("N)");
      assert Print(n)[|Print(n)| - 1] == Print(x)[|Print(x)| - 1];
    case Eq(path, v) =>
      assert path[0] in path;
      IdentEnds(path[0], env);
      IdentEnds(v, env);
      BracketsEnd("@)");
      assert Print(n) == JoinPath(path) + ":" + v && Print(n)[|Print(n)| - 1] == v[|v| - 1];
      assert JoinPath(path)[0] == if |path| == 1 then path[0][0] else '@';
  }

  lemma BracketsEnd(s: string)
    requires s != "" && (s[0] == '(' || s[0] == 'N' || s[0] == '@') && s[|s| - 1] == ')'
    ensures !Blank(s[0]) && !Blank(s[|s| - 1]) && s[0] != '.'
  {
  }

  lemma IdentEnds(w: string, env: Env)
    requires IsIdent(w, env) && Sane(env)
    ensures !Blank(w[0]) && !Blank(w[|w| - 1]) && w[0] != '.'
  {
    assert IsIdentChar(w[0], true, env) && IsIdentChar(w[|w| - 1], |w| == 1, env);
  }

  lemma DotsRegroup(p: seq<string>, rest: string, more: seq<Token>)
    ensures p != [] ==> Dotted(p) + rest == ['.'] + (p[0] + (Dotted(p[1..]) + rest))
    ensures p != [] ==> DotToks(p) + more == [Tok(TDot, ".")] + ([Tok(TIdent, p[0])] + (DotToks(p[1..]) + more))
    ensures p == [] ==> Dotted(p) + rest == rest && DotToks(p) + more == more
  {
    if p != [] {
      Reassociate(".", p[0], Dotted(p[1..]), rest);
      assert [Tok(TDot, "."), Tok(TIdent, p[0])] == [Tok(TDot, ".")] + [Tok(TIdent, p[0])];
      Reassociate([Tok(TDot, ".")], [Tok(TIdent, p[0])], DotToks(p[1..]), more);
    }
  }

  lemma DottedStarts(p: seq<string>, rest: string)
    requires p != [] || (rest != "" && rest[0] == ':')
    ensures var s := Dotted(p) + rest; s != "" && s[0] == if p == [] then ':' else '.'
  {
  }

  lemma {:induction false} DotsRead(p: seq<string>, rest: string, env: Env)
    requires (forall w :: w in p ==> PlainWord(w, env)) && rest != "" && rest[0] == ':'
    ensures RawTokens(Dotted(p) + rest, false, env) == DotToks(p) + RawTokens(rest, false, env)
    decreases |p|
  {
    hide RawTokens, IsIdent, Dotted, DotToks;
    DotsRegroup(p, rest, RawTokens(rest, false, env));
    if p != [] {
      var tail := Dotted(p[1..]) + rest;
      assert p[0] in p;
      FirstLetter(p[0], tail, env);
      RawChar('.', p[0] + tail, false, env);
      DottedStarts(p[1..], rest);
      RawWord(p[0], tail, false, env);
      DotsRead(p[1..], rest, env);
    }
  }

  lemma PathRegroups(p: seq<string>, rest: string, more: seq<Token>)
    requires |p| > 1
    ensures JoinPath(p) + rest == ['@'] + (p[0] + (Dotted(p[1..]) + rest))
    ensures PathToks(p) + more == [Tok(TAt, "@")] + ([Tok(TIdent, p[0])] + (DotToks(p[1..]) + more))
  {
    Reassociate("@", p[0], Dotted(p[1..]), rest);
    assert [Tok(TAt, "@"), Tok(TIdent, p[0])] == [Tok(TAt, "@")] + [Tok(TIdent, p[0])];
    Reassociate([Tok(TAt, "@")], [Tok(TIdent, p[0])], DotToks(p[1..]), more);
  }

  lemma Reassociate<T>(a: seq<T>, b: seq<T>, c: seq<T>, d: seq<T>)
    ensures (a + b + c) + d == a + (b + (c + d))
  {
  }

  lemma PathReads(p: seq<string>, rest: string, env: Env)
    requires p != [] && (forall w :: w in p ==> PlainWord(w, env)) && rest != "" && rest[0] == ':'
    ensures RawTokens(JoinPath(p) + rest, false, env) == PathToks(p) + RawTokens(rest, false, env)
  {
    assert p[0] in p;
    if |p| == 1 {
      hide RawTokens, IsIdent;
      RawWord(p[0], rest, false, env);
    } else {
      LongPathReads(p, rest, env);
    }
  }

  lemma LongPathReads(p: seq<string>, rest: string, env: Env)
    requires |p| > 1 && (forall w :: w in p ==> PlainWord(w, env)) && rest != "" && rest[0] == ':'
    ensures RawTokens(JoinPath(p) + rest, false, env) == PathToks(p) + RawTokens(rest, false, env)
  {
    hide RawTokens, IsIdent, Dotted, DotToks, JoinPath, PathToks;
    assert p[0] in p;
    var tail := Dotted(p[1..]) + rest;
    PathRegroups(p, rest, RawTokens(rest, false, env));
    DottedStarts(p[1..], rest);
    RawChar('@', p[0] + tail, false, env);
    RawWord(p[0], tail, false, env);
    DotsRead(p[1..], rest, env);
  }

  /** The tokenizer reads back the printed form, whitespace and all. */
  lemma {:induction false} PrintReads(n: Node, rest: string, env: Env)
    requires Printable(n, env) && Sane(env) && (rest == "" || rest[0] == ' ' || rest[0] == ')')
    ensures RawTokens(Print(n) + rest, false, env) == Toks(n, [SPACE], env) + RawTokens(rest, false, env)
    decreases n, 1
  {
    Keywords(env);
    match n
    case And(l, r) => OperatorReads(n, l, r, "AND", rest, env);
    case Or(l, r) => OperatorReads(n, l, r, "OR", rest, env);
    case Not(x) => NotReads(x, rest, env);
    case Eq(path, v) => EqReads(path, v, rest, env);
  }

  lemma NotText(x: Node, rest: string, more: seq<Token>, env: Env)
    requires Printable(x, env)
    ensures Print(Not(x)) + rest == "NOT" + ([' '] + (Print(x) + rest))
    ensures Toks(Not(x), [SPACE], env) + more == [NOT] + ([SPACE] + (Toks(x, [SPACE], env) + more))
  {
    assert "NOT " == "NOT" + [' '];
    Reassociate("NOT", [' '], Print(x), rest);
    Reassociate([NOT], [SPACE], Toks(x, [SPACE], env), more);
  }

  lemma NotReads(x: Node, rest: string, env: Env)
    requires Printable(x, env) && Sane(env) && (rest == "" || rest[0] == ' ' || rest[0] == ')')
    ensures RawTokens(Print(Not(x)) + rest, false, env) == Toks(Not(x), [SPACE], env) + RawTokens(rest, false, env)
    decreases Not(x), 0
  {
    hide RawTokens, IsIdent, Print, Toks;
    Keywords(env);
    PrintEnds(x, env);
    var tail := Print(x) + rest;
    NotText(x, rest, RawTokens(rest, false, env), env);
    RawWord("NOT", [' '] + tail, false, env);
    RawChar(' ', tail, false, env);
    PrintReads(x, rest, env);
  }

  lemma EqReads(path: seq<string>, v: string, rest: string, env: Env)
    requires Printable(Eq(path, v), env) && (rest == "" || rest[0] == ' ' || rest[0] == ')')
    ensures RawTokens(Print(Eq(path, v)) + rest, false, env)
         == Toks(Eq(path, v), [SPACE], env) + RawTokens(rest, false, env)
  {
    hide RawTokens, IsIdent, JoinPath, PathToks;
    assert Print(Eq(path, v)) + rest == JoinPath(path) + ([':'] + (v + rest));
    PathReads(path, [':'] + (v + rest), env);
    RawChar(':', v + rest, false, env);
    RawWord(v, rest, true, env);
  }

  lemma Keywords(env: Env)
    ensures IsIdent("AND", env) && IsIdent("OR", env) && IsIdent("NOT", env)
  {
  }

  lemma RegroupText(n: Node, l: Node, r: Node, op: string, rest: string)
    requires (n == And(l, r) && op == "AND") || (n == Or(l, r) && op == "OR")
    ensures Print(n) + rest == ['('] + (Print(l) + ([' '] + (op + ([' '] + (Print(r) + ([')'] + rest))))))
  {
    var a, b := Print(l), Print(r);
    if op == "AND" {
      RegroupChars(a, " AND ", op, b, rest);
    } else {
      RegroupChars(a, " OR ", op, b, rest);
    }
  }

  lemma RegroupChars(a: string, mid: string, op: string, b: string, rest: string)
    requires mid == [' '] + op + [' ']
    ensures "(" + a + mid + b + ")" + rest == ['('] + (a + ([' '] + (op + ([' '] + (b + ([')'] + rest))))))
  {
    assert "(" == ['('] && ")" == [')'];
  }

  lemma OperatorReads(n: Node, l: Node, r: Node, op: string, rest: string, env: Env)
    requires Printable(n, env) && Sane(env) && IsIdent(op, env)
    requires (n == And(l, r) && op == "AND") || (n == Or(l, r) && op == "OR")
    ensures RawTokens(Print(n) + rest, false, env) == Toks(n, [SPACE], env) + RawTokens(rest, false, env)
    decreases n, 0
  {
    hide RawTokens, Toks, Print, IsIdent;
    PrintEnds(l, env);
    PrintEnds(r, env);
    var close := [')'] + rest;
    var right := Print(r) + close;
    var middle := [' '] + (op + ([' '] + right));
    RegroupText(n, l, r, op, rest);
    RawChar('(', Print(l) + middle, false, env);
    PrintReads(l, middle, env);
    FirstLetter(op, [' '] + right, env);
    RawChar(' ', op + ([' '] + right), false, env);
    RawWord(op, [' '] + right, false, env);
    RawChar(' ', right, false, env);
    PrintReads(r, close, env);
    RawChar(')', rest, false, env);
    RegroupGaps(n, l, r, Word(op, env), rest, env);
  }

  lemma FirstLetter(w: string, rest: string, env: Env)
    requires IsIdent(w, env)
    ensures w + rest != "" && !IsSpace((w + rest)[0]) && (w + rest)[0] != '.'
  {
    assert IsIdentChar(w[0], true, env);
  }

  lemma RegroupGaps(n: Node, l: Node, r: Node, op: Token, rest: string, env: Env)
    requires Printable(n, env)
    requires (n == And(l, r) && op == AND) || (n == Or(l, r) && op == OR)
    ensures Toks(n, [SPACE], env) + RawTokens(rest, false, env)
         == [LP] + (Toks(l, [SPACE], env) + ([SPACE] + ([op] + ([SPACE] + (Toks(r, [SPACE], env)
                    + ([RP] + RawTokens(rest, false, env)))))))
  {
    RegroupSpaced(Toks(l, [SPACE], env), op, Toks(r, [SPACE], env), RawTokens(rest, false, env));
  }

  function LastTok(n: Node): Token {
    match n
    case Not(x) => LastTok(x)
    case Eq(path, v) => Tok(TIdent, v)
    case _ => RP
  }

  lemma JoinedKeeps(last: Option<Token>, t: Token, more: seq<Token>)
    ensures t != SPACE ==> Joined(last, [t] + more) == [t] + Joined(Some(t), more)
    ensures t == SPACE && !Joins(last, more) ==> Joined(last, [t] + more) == Joined(last, more)
  {
    assert ([t] + more)[1..] == more;
  }

  lemma {:induction false} JoinedPlain(last: Option<Token>, ts: seq<Token>, more: seq<Token>)
    requires ts != [] && SPACE !in ts
    ensures Joined(last, ts + more) == ts + Joined(Some(ts[|ts| - 1]), more)
    decreases |ts|
  {
    assert ts + more == [ts[0]] + (ts[1..] + more);
    JoinedKeeps(last, ts[0], ts[1..] + more);
    if |ts| == 1 {
      assert ts[1..] + more == more;
    } else {
      JoinedPlain(Some(ts[0]), ts[1..], more);
      assert ts[1..][|ts| - 2] == ts[|ts| - 1];
    }
  }

  lemma {:induction false} NoGapInDots(p: seq<string>)
    ensures SPACE !in DotToks(p)
    decreases |p|
  {
    if p != [] {
      NoGapInDots(p[1..]);
    }
  }

  /** Exactly the whitespace around operators is dropped. */
  lemma {:induction false} GapsDropped(n: Node, last: Option<Token>, more: seq<Token>, env: Env)
    requires Printable(n, env)
    ensures Joined(last, Toks(n, [SPACE], env) + more) == Toks(n, [], env) + Joined(Some(LastTok(n)), more)
    ensures IsCloser(LastTok(n).kind)
    decreases n, 1
  {
    hide Joined;
    match n
    case And(l, r) => OperatorGaps(n, l, r, AND, last, more, env);
    case Or(l, r) => OperatorGaps(n, l, r, OR, last, more, env);
    case Not(x) =>
      NotGaps(x, last, more, env);
    case Eq(path, v) =>
      var ts := Toks(n, [SPACE], env);
      NoGapInDots(path[1..]);
      JoinedPlain(last, ts, more);
  }

  lemma NotGaps(x: Node, last: Option<Token>, more: seq<Token>, env: Env)
    requires Printable(x, env)
    ensures Joined(last, Toks(Not(x), [SPACE], env) + more) == Toks(Not(x), [], env) + Joined(Some(LastTok(x)), more)
    ensures IsCloser(LastTok(x).kind)
    decreases Not(x), 0
  {
    hide Joined, Toks;
    var tail := Toks(x, [SPACE], env) + more;
    NotText(x, "", more, env);
    JoinedKeeps(last, NOT, [SPACE] + tail);
    JoinedKeeps(Some(NOT), SPACE, tail);
    GapsDropped(x, Some(NOT), more, env);
    NotRegroups(x, Joined(Some(LastTok(x)), more), env);
  }

  lemma OperatorGaps(n: Node, l: Node, r: Node, op: Token, last: Option<Token>, more: seq<Token>, env: Env)
    requires Printable(n, env)
    requires (n == And(l, r) && op == AND) || (n == Or(l, r) && op == OR)
    ensures Joined(last, Toks(n, [SPACE], env) + more) == Toks(n, [], env) + Joined(Some(RP), more)
    decreases n, 0
  {
    hide Joined, Toks;
    OperatorToks(n, l, r, op, [SPACE], env);
    OperatorToks(n, l, r, op, [], env);
    var a, b := Toks(l, [SPACE], env), Toks(r, [SPACE], env);
    var close := [RP] + more;
    var right := b + close;
    var middle := [SPACE] + ([op] + ([SPACE] + right));
    RegroupSpaced(a, op, b, more);
    JoinedKeeps(last, LP, a + middle);
    GapsDropped(l, Some(LP), middle, env);
    var end := Some(LastTok(l));
    JoinedKeeps(end, SPACE, [op] + ([SPACE] + right));
    JoinedKeeps(end, op, [SPACE] + right);
    JoinedKeeps(Some(op), SPACE, right);
    GapsDropped(r, Some(op), close, env);
    JoinedKeeps(Some(LastTok(r)), RP, more);
    Regroup(Toks(l, [], env), op, Toks(r, [], env), Joined(Some(RP), more));
  }

  lemma RegroupSpaced(a: seq<Token>, op: Token, b: seq<Token>, more: seq<Token>)
    ensures ([LP] + a + [SPACE] + [op] + [SPACE] + b + [RP]) + more
         == [LP] + (a + ([SPACE] + ([op] + ([SPACE] + (b + ([RP] + more))))))
  {
  }

  lemma PrintTokens(n: Node, env: Env)
    requires Printable(n, env) && Sane(env)
    ensures Tokens(Print(n), env) == Toks(n, [], env)
  {
    assert Print(n) + "" == Print(n);
    assert RawTokens("", false, env) == [] && Joined(Some(LastTok(n)), []) == [];
    PrintReads(n, "", env);
    GapsDropped(n, None, [], env);
    assert Toks(n, [SPACE], env) + [] == Toks(n, [SPACE], env);
  }

  /** Parsing undoes printing, for every tree over plain equalities, exactly when no NOT stands directly
      under a NOT; otherwise the printed form is malformed. */
  lemma PrintParses(n: Node, env: Env)
    requires Printable(n, env) && Sane(env)
    ensures Parse(Print(n), env) == if NoDoubleNot(n) then Filtered(n) else Malformed
  {
    hide ParseNot, Toks, Print, Tokens;
    PrintEnds(n, env);
    Untrimmed(Print(n));
    PrintTokens(n, env);
    var ts := Toks(n, [], env);
    assert ts + [] == ts;
    if NoDoubleNot(n) {
      ToksParse(n, [], env);
      assert AndTail(n, [], env) == Ok(n, []) && OrTail(n, [], env) == Ok(n, []);
      assert ParseOr(ts, env) == Ok(n, []);
    } else {
      DoubleNotFails(n, [], env);
      assert ParseOr(ts, env) == Err;
    }
  }

  lemma Untrimmed(s: string)
    requires s != "" && !Blank(s[0]) && !Blank(s[|s| - 1])
    ensures TrimSpace(s) == s
  {
  }
}
