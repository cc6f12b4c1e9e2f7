/** The terms of a filter in the order in which they are written, by the tree and by the tokens. */
module Terms {
  import opened Options
  import opened Ast
  import opened Lexing
  import opened Parsing
  import opened Grammar

  function Leaves(n: Node): seq<Node> {
    match n
    case And(l, r) => Leaves(l) + Leaves(r)
    case Or(l, r) => Leaves(l) + Leaves(r)
    case Not(x) => Leaves(x)
    case _ => [n]
  }

  /** What stands between terms. */
  predicate Structural(k: TokenKind) {
    k in {TLParen, TRParen, TAnd, TOr, TDash, TNot}
  }

  function Prepend(some: seq<Node>, more: Option<seq<Node>>): Option<seq<Node>> {
    if more.Some? then Some(some + more.value) else None
  }

  /** The terms read off the tokens, whatever stands between them; None if one is malformed or a sign has
      nothing behind it. */
  function Scanned(ts: seq<Token>, env: Env): Option<seq<Node>>
    decreases |ts|
  {
    if ts == [] then Some([])
    else if Structural(ts[0].kind) then
      if |ts| == 1 && ts[0].kind in {TDash, TNot} then None else Scanned(ts[1..], env)
    else
      match ParseTerm(ts, env)
      case Ok(n, rest) => Prepend([n], Scanned(rest, env))
      case Err => None
  }

  /** The parser found the terms that stand there: those of the tree, and then those of what is left. */
  ghost predicate Faithful(ts: seq<Token>, out: Outcome, env: Env) {
    out.Ok? ==> Scanned(ts, env) == Prepend(Leaves(out.node), Scanned(out.rest, env))
  }

  lemma PrependTwice(a: seq<Node>, b: seq<Node>, more: Option<seq<Node>>)
    ensures Prepend(a, Prepend(b, more)) == Prepend(a + b, more)
  {
    if more.Some? {
      assert a + (b + more.value) == a + b + more.value;
    }
  }

  lemma {:induction false} OrScans(ts: seq<Token>, env: Env)
    ensures Faithful(ts, ParseOr(ts, env), env)
    decreases |ts|, 4
  {
    AndScans(ts, env);
    var out := ParseAnd(ts, env);
    if out.Ok? {
      OrTailScans(out.node, out.rest, env);
    }
  }

  lemma {:induction false} OrTailScans(left: Node, ts: seq<Token>, env: Env)
    ensures OrTail(left, ts, env).Ok? ==>
              Prepend(Leaves(left), Scanned(ts, env))
              == Prepend(Leaves(OrTail(left, ts, env).node), Scanned(OrTail(left, ts, env).rest, env))
    decreases |ts|, 5
  {
    if ts != [] && ts[0].kind == TOr {
      AndScans(ts[1..], env);
      var out := ParseAnd(ts[1..], env);
      if out.Ok? {
        OrTailScans(Or(left, out.node), out.rest, env);
        PrependTwice(Leaves(left), Leaves(out.node), Scanned(out.rest, env));
      }
    }
  }

  lemma {:induction false} AndScans(ts: seq<Token>, env: Env)
    ensures Faithful(ts, ParseAnd(ts, env), env)
    decreases |ts|, 3
  {
    NotScans(ts, env);
    var out := ParseNot(ts, env);
    if out.Ok? {
      AndTailScans(out.node, out.rest, env);
    }
  }

  lemma {:induction false} AndTailScans(left: Node, ts: seq<Token>, env: Env)
    ensures AndTail(left, ts, env).Ok? ==>
              Prepend(Leaves(left), Scanned(ts, env))
              == Prepend(Leaves(AndTail(left, ts, env).node), Scanned(AndTail(left, ts, env).rest, env))
    decreases |ts|, 4
  {
    if ts != [] {
      if ts[0].kind == TAnd {
        if |ts| > 1 && ts[1].kind != TOr && ts[1].kind != TRParen {
          AndRightScans(left, ts[1..], env);
        }
      } else if IsOpener(ts[0].kind) {
        AndRightScans(left, ts, env);
      }
    }
  }

  lemma {:induction false} AndRightScans(left: Node, ts: seq<Token>, env: Env)
    ensures AndRight(left, ts, env).Ok? ==>
              Prepend(Leaves(left), Scanned(ts, env))
              == Prepend(Leaves(AndRight(left, ts, env).node), Scanned(AndRight(left, ts, env).rest, env))
    decreases |ts|, 3
  {
    NotScans(ts, env);
    var out := ParseNot(ts, env);
    if out.Ok? {
      AndTailScans(And(left, out.node), out.rest, env);
      PrependTwice(Leaves(left), Leaves(out.node), Scanned(out.rest, env));
    }
  }

  lemma {:induction false} NotScans(ts: seq<Token>, env: Env)
    ensures Faithful(ts, ParseNot(ts, env), env)
    decreases |ts|, 2
  {
    if ts != [] {
      if ts[0].kind == TDash || ts[0].kind == TNot {
        AtomScans(ts[1..], env);
      } else {
        AtomScans(ts, env);
      }
    }
  }

  lemma {:induction false} AtomScans(ts: seq<Token>, env: Env)
    ensures Faithful(ts, ParseAtom(ts, env), env)
    decreases |ts|, 1
  {
    if ts != [] {
      if ts[0].kind == TLParen {
        OrScans(ts[1..], env);
      } else if ParseTerm(ts, env).Ok? {
        TermIsLeaf(ts, env);
      }
    }
  }

  lemma TermIsLeaf(ts: seq<Token>, env: Env)
    requires ts != [] && ParseTerm(ts, env).Ok?
    ensures Leaves(ParseTerm(ts, env).node) == [ParseTerm(ts, env).node] && !Structural(ts[0].kind)
  {
    hide FieldRef, Segments, SplitRegex, TrimStars;
  }

  /** A complete parse has found all terms of the input. */
  lemma CompleteScans(ts: seq<Token>, n: Node, env: Env)
    requires ParseOr(ts, env) == Ok(n, [])
    ensures Scanned(ts, env) == Some(Leaves(n))
  {
    OrScans(ts, env);
    assert Leaves(n) + [] == Leaves(n);
  }

  /** The input ends in a sign or a dot. */
  predicate Dangling(ts: seq<Token>) {
    ts != [] && ts[|ts| - 1].kind in {TDash, TDot}
  }

  lemma {:induction false} SegmentsDangle(path: seq<string>, ts: seq<Token>)
    requires Dangling(ts)
    ensures Dangling(Segments(path, ts).1)
    decreases |ts|
  {
    if |ts| >= 2 && ts[0].kind == TDot && ts[1].kind == TIdent {
      SegmentsDangle(path + [ts[1].text], ts[2..]);
    }
  }

  lemma ReferenceDangles(ts: seq<Token>)
    requires Dangling(ts) && (ts[0].kind == TAt || ts[0].kind == TIdent)
    ensures Dangling(FieldRef(ts).1)
  {
    hide Segments;
    var after := if ts[0].kind == TAt then ts[1..] else ts;
    if after[0].kind == TIdent {
      SegmentsDangle([after[0].text], after[1..]);
    }
  }

  lemma ValueDangles(path: seq<string>, ts: seq<Token>, env: Env)
    requires Dangling(ts) && FieldValue(path, ts, env).Ok?
    ensures Dangling(FieldValue(path, ts, env).rest)
  {
    hide PlainValue;
  }

  lemma TermDangles(ts: seq<Token>, env: Env)
    requires Dangling(ts) && ParseTerm(ts, env).Ok?
    ensures Dangling(ParseTerm(ts, env).rest)
  {
    hide FieldRef, FieldValue;
    if ts[0].kind == TAt || ts[0].kind == TIdent {
      ReferenceDangles(ts);
      var (path, rest) := FieldRef(ts);
      if rest[0].kind == TColon {
        ValueDangles(path, rest[1..], env);
      }
    }
  }

  /** Such an input is malformed. */
  lemma {:induction false} DanglingFails(ts: seq<Token>, env: Env)
    requires Dangling(ts)
    ensures Scanned(ts, env) == None
    decreases |ts|
  {
    hide ParseTerm;
    if Structural(ts[0].kind) {
      if |ts| > 1 {
        DanglingFails(ts[1..], env);
      } else {
        assert ts[0].kind == TDash;
      }
    } else if ParseTerm(ts, env).Ok? {
      TermDangles(ts, env);
      DanglingFails(ParseTerm(ts, env).rest, env);
    }
  }

  /** Two quoted strings that no term confuses. */
  predicate Unlike(t: Token, u: Token) {
    t.kind == u.kind == TString && t.text != u.text && (t.parts.Some? && u.parts.Some? ==> t.parts != u.parts)
  }

  /** Two inputs that agree up to a quoted string. */
  ghost predicate Parted(a: seq<Token>, b: seq<Token>) {
    exists k :: 0 <= k < |a| && k < |b| && a[..k] == b[..k] && Unlike(a[k], b[k])
  }

  /** A term that starts before the string: either both inputs have the same term there and agree behind it,
      or the terms differ. */
  lemma TermParts(p: seq<Token>, a: seq<Token>, b: seq<Token>, env: Env) returns (k: nat)
    requires p != [] && a != [] && b != [] && Unlike(a[0], b[0])
    requires ParseTerm(p + a, env).Ok? && ParseTerm(p + b, env).Ok?
    ensures k <= |p|
    ensures k == 0 ==> ParseTerm(p + a, env).node != ParseTerm(p + b, env).node
    ensures k > 0 ==>
              && ParseTerm(p + a, env).node == ParseTerm(p + b, env).node
              && ParseTerm(p + a, env).rest == p[k..] + a && ParseTerm(p + b, env).rest == p[k..] + b
  {
    hide Segments, FieldValue, FieldRef;
    assert (p + a)[1..] == p[1..] + a && (p + b)[1..] == p[1..] + b;
    k := 1;
    if p[0].kind == TAt || p[0].kind == TIdent {
      ReferenceIsLocal(p, a);
      ReferenceIsLocal(p, b);
      var (path, rest) := FieldRef(p);
      if rest == [] {
        assert rest + a == a && rest + b == b;
      } else if rest[0].kind == TColon {
        var v := rest[1..];
        assert (rest + a)[1..] == v + a && (rest + b)[1..] == v + b;
        var m := ValueParts(path, v, a, b, env);
        ReferenceSuffix(p);
        k := if m == 0 then 0 else |p| - |v| + m;
        assert m > 0 ==> v[m..] == p[k..];
      }
    }
  }

  lemma {:induction false} SegmentsSuffix(path: seq<string>, ts: seq<Token>)
    ensures var rest := Segments(path, ts).1; rest == ts[|ts| - |rest|..]
    decreases |ts|
  {
    if |ts| >= 2 && ts[0].kind == TDot && ts[1].kind == TIdent {
      SegmentsSuffix(path + [ts[1].text], ts[2..]);
    }
  }

  lemma ReferenceSuffix(ts: seq<Token>)
    requires ts != []
    ensures var rest := FieldRef(ts).1; rest == ts[|ts| - |rest|..]
  {
    hide Segments;
    var after := if ts[0].kind == TAt then ts[1..] else ts;
    if after != [] && after[0].kind == TIdent {
      SegmentsSuffix([after[0].text], after[1..]);
    }
  }

  /** The same for the value of a field. */
  lemma ValueParts(path: seq<string>, v: seq<Token>, a: seq<Token>, b: seq<Token>, env: Env) returns (m: nat)
    requires a != [] && b != [] && Unlike(a[0], b[0])
    requires FieldValue(path, v + a, env).Ok? && FieldValue(path, v + b, env).Ok?
    ensures m <= |v|
    ensures m == 0 ==> FieldValue(path, v + a, env).node != FieldValue(path, v + b, env).node
    ensures m > 0 ==>
              && FieldValue(path, v + a, env).node == FieldValue(path, v + b, env).node
              && FieldValue(path, v + a, env).rest == v[m..] + a && FieldValue(path, v + b, env).rest == v[m..] + b
  {
    hide FieldValue, PlainValue;
    m := if v == [] then 0 else if v[0].kind == TLBracket then 5 else if v[0].kind == TCmp then 2 else 1;
    if v == [] {
      assert v + a == a && v + b == b;
      StringIsValue(path, a, b, env);
    } else if m > |v| {
      ValueCutOff(path, v, a, b, env);
      m := 0;
    } else {
      ValueWithin(path, v, m, a, env);
      ValueWithin(path, v, m, b, env);
    }
  }

  /** A value that ends before what follows does not depend on it. */
  lemma ValueWithin(path: seq<string>, v: seq<Token>, m: nat, a: seq<Token>, env: Env)
    requires v != [] && m == (if v[0].kind == TLBracket then 5 else if v[0].kind == TCmp then 2 else 1) <= |v|
    requires FieldValue(path, v + a, env).Ok?
    ensures FieldValue(path, v, env).Ok? && FieldValue(path, v + a, env).node == FieldValue(path, v, env).node
    ensures FieldValue(path, v + a, env).rest == v[m..] + a
  {
    hide PlainValue;
    assert (v + a)[m..] == v[m..] + a;
  }

  lemma StringIsValue(path: seq<string>, a: seq<Token>, b: seq<Token>, env: Env)
    requires a != [] && b != [] && Unlike(a[0], b[0])
    requires FieldValue(path, a, env).Ok? && FieldValue(path, b, env).Ok?
    ensures FieldValue(path, a, env).node != FieldValue(path, b, env).node
  {
    hide PlainValue;
    StringValues(path, a[0], b[0], env);
  }

  /** A value cut off by a string: only a comparison takes it. */
  lemma ValueCutOff(path: seq<string>, v: seq<Token>, a: seq<Token>, b: seq<Token>, env: Env)
    requires v != [] && a != [] && b != [] && Unlike(a[0], b[0])
    requires |v| < if v[0].kind == TLBracket then 5 else if v[0].kind == TCmp then 2 else 1
    requires FieldValue(path, v + a, env).Ok? && FieldValue(path, v + b, env).Ok?
    ensures FieldValue(path, v + a, env).node != FieldValue(path, v + b, env).node
  {
    hide PlainValue;
    assert (v + a)[|v|] == a[0] && (v + b)[|v|] == b[0];
  }

  lemma StringValues(path: seq<string>, t: Token, u: Token, env: Env)
    requires Unlike(t, u)
    ensures PlainValue(path, t, env) != PlainValue(path, u, env)
  {
    hide SplitRegex, TrimStars;
  }

  lemma {:induction false} ScansPart(p: seq<Token>, a: seq<Token>, b: seq<Token>, env: Env)
    requires a != [] && b != [] && Unlike(a[0], b[0])
    requires Scanned(p + a, env).Some? && Scanned(p + b, env).Some?
    ensures Scanned(p + a, env) != Scanned(p + b, env)
    decreases |p|
  {
    hide ParseTerm;
    if p == [] {
      assert p + a == a && p + b == b;
      StringTerms(a, b, env);
    } else if Structural(p[0].kind) {
      assert (p + a)[1..] == p[1..] + a && (p + b)[1..] == p[1..] + b;
      ScansPart(p[1..], a, b, env);
    } else {
      var k := TermParts(p, a, b, env);
      var x, y := ParseTerm(p + a, env), ParseTerm(p + b, env);
      if k > 0 {
        ScansPart(p[k..], a, b, env);
        SameFront(x.node, Scanned(x.rest, env).value, Scanned(y.rest, env).value);
      } else {
        assert Scanned(p + a, env).value[0] == x.node && Scanned(p + b, env).value[0] == y.node;
      }
    }
  }

  lemma SameFront(n: Node, a: seq<Node>, b: seq<Node>)
    ensures [n] + a == [n] + b ==> a == b
  {
    assert ([n] + a)[1..] == a && ([n] + b)[1..] == b;
  }

  lemma StringTerms(a: seq<Token>, b: seq<Token>, env: Env)
    requires a != [] && b != [] && Unlike(a[0], b[0])
    requires Scanned(a, env).Some? && Scanned(b, env).Some?
    ensures Scanned(a, env) != Scanned(b, env)
  {
    assert Scanned(a, env).value[0] == ParseTerm(a, env).node && Scanned(b, env).value[0] == ParseTerm(b, env).node;
  }

  /** Inputs that differ in a quoted string have no tree in common. */
  lemma PartedTreesDiffer(a: seq<Token>, b: seq<Token>, n: Node, env: Env)
    requires Parted(a, b) && ParseOr(a, env) == Ok(n, [])
    ensures ParseOr(b, env) != Ok(n, [])
  {
    hide ParseOr;
    var k :| 0 <= k < |a| && k < |b| && a[..k] == b[..k] && Unlike(a[k], b[k]);
    assert a == a[..k] + a[k..] && b == a[..k] + b[k..];
    CompleteScans(a, n, env);
    if ParseOr(b, env) == Ok(n, []) {
      CompleteScans(b, n, env);
      ScansPart(a[..k], a[k..], b[k..], env);
    }
  }

  lemma PartedAfter(c: seq<Token>, a: seq<Token>, b: seq<Token>)
    requires Parted(a, b)
    ensures Parted(c + a, c + b)
  {
    hide Unlike;
    var k :| 0 <= k < |a| && k < |b| && a[..k] == b[..k] && Unlike(a[k], b[k]);
    var j := |c| + k;
    assert (c + a)[..j] == c + a[..k] && (c + b)[..j] == c + b[..k];
    assert (c + a)[j] == a[k] && (c + b)[j] == b[k];
  }
}
