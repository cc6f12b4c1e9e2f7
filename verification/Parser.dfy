/** The recursive-descent parser of the filter language. */
module Parsing {
  import opened Options
  import opened Globs
  import opened Ast
  import opened Lexing

  datatype Outcome = Ok(node: Node, rest: seq<Token>) | Err

  const MSG := ["msg"]

  function TrimStarsLeft(s: string): string {
    if s != "" && s[0] == '*' then TrimStarsLeft(s[1..]) else s
  }

  function TrimStarsRight(s: string): string {
    if s != "" && s[|s| - 1] == '*' then TrimStarsRight(s[..|s| - 1]) else s
  }

  function TrimStars(s: string): string {
    TrimStarsRight(TrimStarsLeft(s))
  }

  /** A plain substring search on the message. */
  function Bare(needle: string): Node {
    Substr(MSG, needle, false, None)
  }

  function ParseOr(ts: seq<Token>, env: Env): (r: Outcome)
    ensures r.Ok? ==> |r.rest| < |ts|
    decreases |ts|, 4
  {
    match ParseAnd(ts, env)
    case Ok(left, rest) => OrTail(left, rest, env)
    case Err => Err
  }

  function OrTail(left: Node, ts: seq<Token>, env: Env): (r: Outcome)
    ensures r.Ok? ==> |r.rest| <= |ts|
    decreases |ts|, 5
  {
    if ts == [] || ts[0].kind != TOr then Ok(left, ts)
    else
      match ParseAnd(ts[1..], env)
      case Ok(right, rest) => OrTail(Or(left, right), rest, env)
      case Err => Err
  }

  function ParseAnd(ts: seq<Token>, env: Env): (r: Outcome)
    ensures r.Ok? ==> |r.rest| < |ts|
    decreases |ts|, 3
  {
    match ParseNot(ts, env)
    case Ok(left, rest) => AndTail(left, rest, env)
    case Err => Err
  }

  /** An AND with nothing to join is passed over. */
  function AndTail(left: Node, ts: seq<Token>, env: Env): (r: Outcome)
    ensures r.Ok? ==> |r.rest| <= |ts|
    decreases |ts|, 4
  {
    if ts == [] then Ok(left, ts)
    else if ts[0].kind == TAnd then
      if |ts| == 1 || ts[1].kind == TOr || ts[1].kind == TRParen then Ok(left, ts[1..])
      else AndRight(left, ts[1..], env)
    else if IsOpener(ts[0].kind) then AndRight(left, ts, env)
    else Ok(left, ts)
  }

  function AndRight(left: Node, ts: seq<Token>, env: Env): (r: Outcome)
    ensures r.Ok? ==> |r.rest| < |ts|
    decreases |ts|, 3
  {
    match ParseNot(ts, env)
    case Ok(right, rest) => AndTail(And(left, right), rest, env)
    case Err => Err
  }

  function ParseNot(ts: seq<Token>, env: Env): (r: Outcome)
    ensures r.Ok? ==> |r.rest| < |ts|
    decreases |ts|, 2
  {
    if ts == [] then Err
    else if ts[0].kind == TDash || ts[0].kind == TNot then
      match ParseAtom(ts[1..], env)
      case Ok(x, rest) => Ok(Not(x), rest)
      case Err => Err
    else ParseAtom(ts, env)
  }

  function ParseAtom(ts: seq<Token>, env: Env): (r: Outcome)
    ensures r.Ok? ==> |r.rest| < |ts|
    decreases |ts|, 1
  {
    if ts == [] then Err
    else if ts[0].kind == TLParen then
      match ParseOr(ts[1..], env)
      case Ok(n, rest) => if rest != [] && rest[0].kind == TRParen then Ok(n, rest[1..]) else Err
      case Err => Err
    else ParseTerm(ts, env)
  }

  function ParseTerm(ts: seq<Token>, env: Env): (r: Outcome)
    requires ts != []
    ensures r.Ok? ==> |r.rest| < |ts|
  {
    var t := ts[0];
    if t.kind == TAt || t.kind == TIdent then
      var (path, rest) := FieldRef(ts);
      if rest != [] && rest[0].kind == TColon then FieldValue(path, rest[1..], env)
      else Ok(Bare(t.text), ts[1..])
    else if t.kind == TString then
      Ok(if t.parts.Some? then Substr(MSG, "", false, t.parts) else Substr(MSG, t.text, true, None), ts[1..])
    else if t.kind == TStar then Ok(Bare(TrimStars(t.text)), ts[1..])
    else if t.kind == TNumber then Ok(Bare(t.text), ts[1..])
    else Err
  }

  /** The path of a field and what follows; an `@` without an identifier gives no path. */
  function FieldRef(ts: seq<Token>): (r: (seq<string>, seq<Token>))
    requires ts != []
    ensures |r.1| <= |ts|
  {
    var after := if ts[0].kind == TAt then ts[1..] else ts;
    if after == [] || after[0].kind != TIdent then ([], after)
    else Segments([after[0].text], after[1..])
  }

  function Segments(path: seq<string>, ts: seq<Token>): (r: (seq<string>, seq<Token>))
    ensures |r.1| <= |ts|
    decreases |ts|
  {
    if |ts| >= 2 && ts[0].kind == TDot && ts[1].kind == TIdent then Segments(path + [ts[1].text], ts[2..])
    else (path, ts)
  }

  function FieldValue(path: seq<string>, ts: seq<Token>, env: Env): (r: Outcome)
    ensures r.Ok? ==> |r.rest| < |ts|
  {
    if ts == [] then Err
    else if ts[0].kind == TLBracket then
      if |ts| >= 5 && ts[1].kind == TNumber && ts[2].kind == TDotDot && ts[3].kind == TNumber && ts[4].kind == TRBracket
      then Ok(Range(path, ts[1].num, ts[3].num), ts[5..])
      else Err
    else if ts[0].kind == TCmp then
      if |ts| == 1 then Err
      else if ts[1].kind == TNumber then Ok(CmpNum(path, ts[0].text, ts[1].num), ts[2..])
      else if ts[1].kind == TIdent || ts[1].kind == TString then Ok(CmpStr(path, ts[0].text, ts[1].text), ts[2..])
      else Err
    else if ts[0].kind in {TString, TIdent, TStar, TNumber} then
      var n := PlainValue(path, ts[0], env);
      if n.Some? then Ok(n.value, ts[1..]) else Err
    else Err
  }

  /** What one value token stands for. */
  function PlainValue(path: seq<string>, t: Token, env: Env): Option<Node> {
    if t.kind == TStar && SplitRegex(t.text).Some? then
      var (pattern, flags) := SplitRegex(t.text).value;
      if 'g' in flags || !env.compiles((if 'i' in flags then "(?i)" else "") + pattern) then None
      else Some(Regex(path, pattern, flags))
    else if t.kind == TString && t.parts.Some? then Some(Substr(path, "", false, t.parts))
    else if t.kind == TStar && '*' in t.text then
      if TrimStars(t.text) == "" then Some(Exists(path)) else Some(Substr(path, TrimStars(t.text), false, None))
    else Some(Eq(path, t.text))
  }

  /** Where the flags at the end of a regular expression literal start. */
  function FlagsStart(tok: string, end: nat): (r: nat)
    requires end <= |tok|
    ensures r <= end
  {
    if end > 1 && (tok[end - 1] == 'i' || tok[end - 1] == 'g') then FlagsStart(tok, end - 1) else end
  }

  function Unescaped(s: string): string {
    if s == "" then ""
    else if |s| > 1 && s[0] == '\\' && s[1] == '/' then "/" + Unescaped(s[2..])
    else [s[0]] + Unescaped(s[1..])
  }

  /** The pattern and the flags of a literal. */
  function SplitRegex(tok: string): Option<(string, string)> {
    if |tok| < 2 || tok[0] != '/' then None
    else
      var end := FlagsStart(tok, |tok|);
      if end <= 1 || tok[end - 1] != '/' || end == 2 then None
      else Some((Unescaped(tok[1..end - 1]), tok[end..]))
  }

  predicate Blank(c: char) {
    var n := c as int;
    9 <= n <= 13 || n in {0x20, 0x85, 0xA0, 0x1680, 0x2028, 0x2029, 0x202F, 0x205F, 0x3000} || 0x2000 <= n <= 0x200A
  }

  function TrimStart(s: string): string {
    if s != "" && Blank(s[0]) then TrimStart(s[1..]) else s
  }

  function TrimEnd(s: string): string {
    if s != "" && Blank(s[|s| - 1]) then TrimEnd(s[..|s| - 1]) else s
  }

  function TrimSpace(s: string): string {
    TrimEnd(TrimStart(s))
  }

  /** No filter at all, a filter, or a malformed input. */
  datatype Parsed = Everything | Filtered(node: Node) | Malformed

  /** What an input parses to: all its tokens must be used. */
  function Parse(input: string, env: Env): Parsed {
    var s := TrimSpace(input);
    if s == "" then Everything
    else
      match ParseOr(Tokens(s, env), env)
      case Ok(n, rest) => if rest == [] then Filtered(n) else Malformed
      case Err => Malformed
  }

  lemma SegmentAt(path: seq<string>, toks: seq<Token>, pos: nat)
    requires pos <= |toks|
    ensures Segments(path, toks[pos..])
         == if pos + 1 < |toks| && toks[pos].kind == TDot && toks[pos + 1].kind == TIdent
            then Segments(path + [toks[pos + 1].text], toks[pos + 2..]) else (path, toks[pos..])
  {
    var ts := toks[pos..];
    if pos + 1 < |toks| {
      assert ts[0] == toks[pos] && ts[1] == toks[pos + 1] && ts[2..] == toks[pos + 2..];
    }
  }

  /** The parser itself: a cursor over the tokens, moved forward and, in one place, back. */
  class Parser {
    const toks: seq<Token>
    const env: Env
    var pos: nat

    constructor (toks: seq<Token>, env: Env)
      ensures this.toks == toks && this.env == env && pos == 0
    {
      this.toks, this.env, pos := toks, env, 0;
    }

    ghost predicate Valid()
      reads this
    {
      pos <= |toks|
    }

    ghost function Rest(): seq<Token>
      requires Valid()
      reads this
    {
      toks[pos..]
    }

    /** The method did what the function says: the same node, and the cursor after what it consumed. */
    ghost predicate Did(out: Outcome, n: Option<Node>)
      reads this
    {
      Valid() && out == if n.Some? then Ok(n.value, Rest()) else Err
    }

    predicate At(kind: TokenKind)
      reads this
    {
      pos < |toks| && toks[pos].kind == kind
    }

    method OrExpr() returns (n: Option<Node>)
      requires Valid()
      modifies this
      ensures Did(ParseOr(old(Rest()), env), n)
      decreases |toks| - pos, 4
    {
      ghost var start := Rest();
      n := AndExpr();
      if n.None? {
        return;
      }
      var left := n.value;
      while At(TOr)
        invariant Valid() && pos > old(pos) && ParseOr(start, env) == OrTail(left, Rest(), env)
        decreases |toks| - pos
      {
        pos := pos + 1;
        n := AndExpr();
        if n.None? {
          return;
        }
        left := Or(left, n.value);
      }
      return Some(left);
    }

    method AndExpr() returns (n: Option<Node>)
      requires Valid()
      modifies this
      ensures Did(ParseAnd(old(Rest()), env), n)
      decreases |toks| - pos, 3
    {
      ghost var start := Rest();
      n := NotExpr();
      if n.None? {
        return;
      }
      var left := n.value;
      while pos < |toks|
        invariant Valid() && pos > old(pos) && ParseAnd(start, env) == AndTail(left, Rest(), env)
      {
        if At(TAnd) {
          pos := pos + 1;
          if pos == |toks| || At(TOr) || At(TRParen) {
            break;
          }
        } else if !IsOpener(toks[pos].kind) {
          break;
        }
        n := NotExpr();
        if n.None? {
          return;
        }
        left := And(left, n.value);
      }
      return Some(left);
    }

    method NotExpr() returns (n: Option<Node>)
      requires Valid()
      modifies this
      ensures Did(ParseNot(old(Rest()), env), n)
      decreases |toks| - pos, 2
    {
      if pos == |toks| {
        return None;
      }
      if At(TDash) || At(TNot) {
        pos := pos + 1;
        n := Atom();
        if n.Some? {
          n := Some(Not(n.value));
        }
        return;
      }
      n := Atom();
    }

    method Atom() returns (n: Option<Node>)
      requires Valid()
      modifies this
      ensures Did(ParseAtom(old(Rest()), env), n)
      decreases |toks| - pos, 1
    {
      if pos == |toks| {
        return None;
      }
      if At(TLParen) {
        pos := pos + 1;
        n := OrExpr();
        if n.None? {
          return;
        }
        if !At(TRParen) {
          return None;
        }
        pos := pos + 1;
        return;
      }
      n := Term();
    }

    method Term() returns (n: Option<Node>)
      requires Valid() && pos < |toks|
      modifies this
      ensures Did(ParseTerm(old(Rest()), env), n)
    {
      hide FieldValue, Segments;
      var t := toks[pos];
      if t.kind == TAt || t.kind == TIdent {
        var save := pos;
        var path := Reference();
        if At(TColon) {
          pos := pos + 1;
          n := Value(path);
          return;
        }
        pos := save + 1;
        return Some(Bare(t.text));
      }
      if t.kind in {TString, TStar, TNumber} {
        pos := pos + 1;
        return Some(if t.kind == TString && t.parts.Some? then Substr(MSG, "", false, t.parts)
                    else if t.kind == TString then Substr(MSG, t.text, true, None)
                    else if t.kind == TStar then Bare(TrimStars(t.text))
                    else Bare(t.text));
      }
      return None;
    }

    method Reference() returns (path: seq<string>)
      requires Valid() && pos < |toks|
      modifies this
      ensures Valid() && pos >= old(pos) && (path, Rest()) == FieldRef(old(Rest()))
    {
      hide Segments;
      ghost var start := Rest();
      if At(TAt) {
        pos := pos + 1;
        assert start[1..] == Rest();
      }
      if !At(TIdent) {
        return [];
      }
      path := [toks[pos].text];
      assert Rest()[1..] == toks[pos + 1..];
      pos := pos + 1;
      while At(TDot)
        invariant Valid() && pos >= old(pos) && FieldRef(start) == Segments(path, Rest())
        decreases |toks| - pos
      {
        SegmentAt(path, toks, pos);
        if pos + 1 >= |toks| || toks[pos + 1].kind != TIdent {
          break;
        }
        path := path + [toks[pos + 1].text];
        pos := pos + 2;
      }
      SegmentAt(path, toks, pos);
    }

    method Value(path: seq<string>) returns (n: Option<Node>)
      requires Valid()
      modifies this
      ensures Did(FieldValue(path, old(Rest()), env), n)
    {
      if pos == |toks| {
        return None;
      }
      if At(TLBracket) {
        n := Bounds(path);
        return;
      }
      if At(TCmp) {
        var op := toks[pos].text;
        pos := pos + 1;
        if pos < |toks| {
          var next := toks[pos];
          if next.kind == TNumber {
            pos := pos + 1;
            return Some(CmpNum(path, op, next.num));
          }
          if next.kind == TIdent || next.kind == TString {
            pos := pos + 1;
            return Some(CmpStr(path, op, next.text));
          }
        }
        return None;
      }
      if toks[pos].kind in {TString, TIdent, TStar, TNumber} {
        n := PlainValue(path, toks[pos], env);
        pos := pos + 1;
        return;
      }
      return None;
    }

    method Bounds(path: seq<string>) returns (n: Option<Node>)
      requires Valid() && At(TLBracket)
      modifies this
      ensures Did(FieldValue(path, old(Rest()), env), n)
    {
      ghost var start := Rest();
      pos := pos + 1;
      if !At(TNumber) {
        return None;
      }
      var lo := toks[pos].num;
      pos := pos + 1;
      if !At(TDotDot) {
        return None;
      }
      pos := pos + 1;
      if !At(TNumber) {
        return None;
      }
      var hi := toks[pos].num;
      pos := pos + 1;
      if !At(TRBracket) {
        return None;
      }
      pos := pos + 1;
      assert start[5..] == Rest();
      return Some(Range(path, lo, hi));
    }
  }

  method ParseInput(input: string, env: Env) returns (result: Parsed)
    ensures result == Parse(input, env)
  {
    var s := TrimSpace(input);
    if s == "" {
      return Everything;
    }
    var toks := Tokenize(s, env);
    var p := new Parser(toks, env);
    var n := p.OrExpr();
    if n.None? || p.pos != |p.toks| {
      return Malformed;
    }
    return Filtered(n.value);
  }
}
