/** Filter chips in the web client: printing clauses as one expression, and reading them back. */
module Chips {
  import opened Options
  import opened Globs
  import opened Composing
  import Parsing

  datatype Op = EqOp | Neq | Contains | NContains | Gt | Gte | Lt | Lte | RangeOp | ExistsOp | NExists
    | RegexOp | NRegex

  /** One chip; `flags` belong to regular expressions only. */
  datatype Clause = Clause(field: string, op: Op, value: string, flags: string)

  predicate NeedsQuotes(c: char) {
    JsBlank(c) || c in ":()[]\"\\*"
  }

  /** Backslashes and quotes get a backslash. */
  function Escaped(v: string): string {
    if v == "" then "" else (if v[0] == '\\' || v[0] == '"' then ['\\', v[0]] else [v[0]]) + Escaped(v[1..])
  }

  predicate Special(v: string) {
    v == "" || exists i :: 0 <= i < |v| && NeedsQuotes(v[i])
  }

  function QuoteIfNeeded(v: string): string {
    if Special(v) then "\"" + Escaped(v) + "\"" else v
  }

  predicate LineEnd(c: char) {
    c == '\n' || c == '\r' || c as int == 0x2028 || c as int == 0x2029
  }

  /** A backslash goes, whatever character it protects stays. */
  function Unescaped(s: string): string {
    if s == "" then ""
    else if |s| > 1 && s[0] == '\\' && !LineEnd(s[1]) then [s[1]] + Unescaped(s[2..])
    else [s[0]] + Unescaped(s[1..])
  }

  function Unquote(v: string): string {
    if |v| >= 2 && v[0] == '"' && v[|v| - 1] == '"' then Unescaped(v[1..|v| - 1]) else v
  }

  function Has(s: string, c: char): bool {
    exists i :: 0 <= i < |s| && s[i] == c
  }

  function Solid(s: string): string {
    if s == "" then "" else (if JsBlank(s[0]) then "" else [s[0]]) + Solid(s[1..])
  }

  function SlashesEscaped(s: string): string {
    if s == "" then "" else (if s[0] == '/' then "\\/" else [s[0]]) + SlashesEscaped(s[1..])
  }

  const DASH := " \U{2013} "

  function Bounds(v: string): string {
    if Index(v, DASH) >= 0 then "[" + v + "]"
    else
      var at := Index(v, "..");
      if at < 0 then "[" + v + "..undefined]"
      else
        var hi := v[at + 2..];
        "[" + v[..at] + ".." + (if Index(hi, "..") < 0 then hi else hi[..Index(hi, "..")]) + "]"
  }

  function RenderValue(op: Op, v: string): string {
    match op
    case EqOp => QuoteIfNeeded(v)
    case Neq => QuoteIfNeeded(v)
    case Contains => "*" + Solid(v) + "*"
    case NContains => "*" + Solid(v) + "*"
    case Gt => ">" + v
    case Gte => ">=" + v
    case Lt => "<" + v
    case Lte => "<=" + v
    case RangeOp => Bounds(v)
    case ExistsOp => "*"
    case NExists => "*"
    case RegexOp => "/" + SlashesEscaped(v) + "/"
    case NRegex => "/" + SlashesEscaped(v) + "/"
  }

  function FieldRef(field: string): string {
    if Has(field, '.') then "@" + field else field
  }

  function ClauseToTerm(c: Clause): string {
    if c.field == "msg" && (c.op == Contains || c.op == NContains) then
      (if c.op == NContains then "-" else "") + "*" + Solid(c.value) + "*"
    else
      var rendered := RenderValue(c.op, c.value) + if c.op == RegexOp || c.op == NRegex then c.flags else "";
      (if c.op in {Neq, NContains, NExists, NRegex} then "-" else "") + (FieldRef(c.field) + (":" + rendered))
  }

  function ClausesToExpr(cs: seq<Clause>): string {
    if cs == [] then ""
    else if |cs| == 1 then ClauseToTerm(cs[0])
    else ClauseToTerm(cs[0]) + ([' '] + ClausesToExpr(cs[1..]))
  }

  /** How far a term reaches: to whitespace outside quotes and brackets. */
  function TermLen(s: string, inQuote: bool, bracket: nat): (n: nat)
    ensures n <= |s|
  {
    if s == "" then 0
    else if inQuote then
      if s[0] == '\\' && |s| > 1 then 2 + TermLen(s[2..], true, bracket)
      else 1 + TermLen(s[1..], s[0] != '"', bracket)
    else if s[0] == '"' then 1 + TermLen(s[1..], true, bracket)
    else
      var depth: nat := if s[0] == '[' then bracket + 1 else if s[0] == ']' && bracket > 0 then bracket - 1
          else bracket;
      if depth == 0 && JsBlank(s[0]) then 0 else 1 + TermLen(s[1..], false, depth)
  }

  /** The terms of an expression. */
  function Terms(s: string): seq<string>
    decreases |s|
  {
    if s == "" then []
    else if JsBlank(s[0]) then Terms(s[1..])
    else
      var n := TermLen(s, false, 0);
      if n == 0 then [] else [s[..n]] + Terms(s[n..])
  }

  method Tokenize(s: string) returns (out: seq<string>)
    ensures out == Terms(s)
  {
    hide TermLen;
    out := [];
    var i := 0;
    assert s[0..] == s;
    while i < |s|
      invariant 0 <= i <= |s| && Terms(s) == out + Terms(s[i..])
    {
      if JsBlank(s[i]) {
        assert s[i..][1..] == s[i + 1..];
        i := i + 1;
        continue;
      }
      var start := i;
      i := EndOfTerm(s, start);
      TermTaken(s, start, i);
      out := out + [s[start..i]];
    }
    assert s[i..] == "";
  }

  lemma TermTaken(s: string, start: nat, i: nat)
    requires start < |s| && !JsBlank(s[start]) && i == start + TermLen(s[start..], false, 0)
    ensures start < i <= |s| && Terms(s[start..]) == [s[start..i]] + Terms(s[i..])
  {
    var r := s[start..];
    assert r[0] == s[start] && r[..i - start] == s[start..i] && r[i - start..] == s[i..];
  }

  method EndOfTerm(s: string, start: nat) returns (i: nat)
    requires start < |s|
    ensures i <= |s| && i == start + TermLen(s[start..], false, 0)
  {
    i := start;
    var inQuote, bracket: nat := false, 0;
    while i < |s|
      invariant start <= i <= |s|
      invariant start + TermLen(s[start..], false, 0) == i + TermLen(s[i..], inQuote, bracket)
    {
      var c := s[i];
      var rest := s[i..];
      assert rest[1..] == s[i + 1..];
      if inQuote {
        if c == '\\' && i + 1 < |s| {
          assert rest[2..] == s[i + 2..];
          i := i + 2;
          continue;
        }
        if c == '"' {
          inQuote := false;
        }
        i := i + 1;
        continue;
      }
      if c == '"' {
        inQuote := true;
        i := i + 1;
        continue;
      }
      var depth := bracket;
      if c == '[' {
        depth := depth + 1;
      }
      if c == ']' && depth > 0 {
        depth := depth - 1;
      }
      if depth == 0 && JsBlank(c) {
        break;
      }
      bracket := depth;
      i := i + 1;
    }
  }

  function Without(s: string, c: char): string {
    if s == "" then "" else (if s[0] == c then "" else [s[0]]) + Without(s[1..], c)
  }

  /** The pattern and flags of a value that is a regular expression literal. */
  function RegexLiteral(value: string): Option<(string, string)> {
    if |value| < 2 || value[0] != '/' then None
    else
      var end := Parsing.FlagsStart(value, |value|);
      if end <= 1 || value[end - 1] != '/' || end == 2 then None
      else Some((Parsing.Unescaped(value[1..end - 1]), Without(value[end..], 'g')))
  }

  predicate NoLineEnd(s: string) {
    forall i :: 0 <= i < |s| ==> !LineEnd(s[i])
  }

  predicate AllStars(s: string) {
    s != "" && forall i :: 0 <= i < |s| ==> s[i] == '*'
  }

  /** One term as a chip, if it is one. */
  function ParseTerm(raw: string): Option<Clause> {
    var negate := |raw| > 1 && (raw[0] == '-' || raw[0] == '!');
    var s := if negate then raw[1..] else raw;
    var like := if negate then NContains else Contains;
    if s != "" && s[0] == '*' && s[|s| - 1] == '*' && !Has(s, ':') then
      Some(Clause("msg", like, if |s| == 1 then "" else s[1..|s| - 1], ""))
    else if Index(s, ":") < 0 then Some(Clause("msg", like, Unquote(s), ""))
    else
      var colon := Index(s, ":");
      var name, value := s[..colon], s[colon + 1..];
      var field := if name != "" && name[0] == '@' then name[1..] else name;
      if field == "" then None else ParseValue(field, value, negate)
  }

  function ParseValue(field: string, value: string, negate: bool): Option<Clause> {
    if RegexLiteral(value).Some? then
      Some(Clause(field, if negate then NRegex else RegexOp, RegexLiteral(value).value.0, RegexLiteral(value).value.1))
    else if value != "" && value[0] == '[' && value[|value| - 1] == ']' then
      var inner := value[1..|value| - 1];
      var at := Index(inner, "..");
      if negate then None
      else if Index(inner, DASH) >= 0 then Some(Clause(field, RangeOp, inner, ""))
      else if at < 0 then None
      else Some(Clause(field, RangeOp, JsTrim(inner[..at]) + ".." + JsTrim(inner[at + 2..]), ""))
    else if value != "" && (value[0] == '>' || value[0] == '<') && NoLineEnd(value[1..]) then
      if negate then None
      else if |value| > 1 && value[1] == '=' then
        Some(Clause(field, if value[0] == '>' then Gte else Lte, JsTrim(value[2..]), ""))
      else Some(Clause(field, if value[0] == '>' then Gt else Lt, JsTrim(value[1..]), ""))
    else if AllStars(value) then Some(Clause(field, if negate then NExists else ExistsOp, "", ""))
    else if value != "" && value[0] == '"' && Has(value, '*') then None
    else if Has(value, '*') then Some(Clause(field, if negate then NContains else Contains, Without(value, '*'), ""))
    else Some(Clause(field, if negate then Neq else EqOp, Unquote(value), ""))
  }

  predicate WordChar(c: char) {
    'a' <= c <= 'z' || 'A' <= c <= 'Z' || '0' <= c <= '9' || c == '_'
  }

  predicate WordAt(s: string, i: nat, w: string) {
    && i + |w| <= |s| && s[i..i + |w|] == w && (i == 0 || !WordChar(s[i - 1]))
    && (i + |w| == |s| || !WordChar(s[i + |w|]))
  }

  predicate AdvancedAt(s: string, i: nat)
    requires i < |s|
  {
    s[i] == '(' || s[i] == ')' || WordAt(s, i, "OR") || WordAt(s, i, "or") || WordAt(s, i, "AND") || WordAt(s, i, "and")
  }

  /** Parentheses and the words AND and OR are beyond chips. */
  predicate Advanced(s: string) {
    exists i: nat :: i < |s| && AdvancedAt(s, i)
  }

  datatype Parse = Parse(clauses: seq<Clause>, advanced: bool)

  const BEYOND := Parse([], true)

  function ParseTerms(ts: seq<string>): Parse {
    if ts == [] then Parse([], false)
    else
      var c, rest := ParseTerm(ts[0]), ParseTerms(ts[1..]);
      if c.None? || rest.advanced then BEYOND else Parse([c.value] + rest.clauses, false)
  }

  function ParseClauses(expr: string): Parse {
    var trimmed := JsTrim(expr);
    if trimmed == "" then Parse([], false)
    else if Advanced(trimmed) then BEYOND
    else ParseTerms(Terms(trimmed))
  }

  method ReadClauses(expr: string) returns (p: Parse)
    ensures p == ParseClauses(expr)
  {
    hide ParseTerm, ParseTerms, Advanced, Terms, JsTrim, After;
    var trimmed := JsTrim(expr);
    if trimmed == "" {
      return Parse([], false);
    }
    if Advanced(trimmed) {
      return BEYOND;
    }
    var tokens := Tokenize(trimmed);
    var clauses: seq<Clause> := [];
    var k := 0;
    NothingBefore(tokens);
    while k < |tokens|
      invariant 0 <= k <= |tokens|
      invariant ParseTerms(tokens) == After(clauses, ParseTerms(tokens[k..]))
    {
      var c := ParseTerm(tokens[k]);
      OneMoreBefore(clauses, tokens, k);
      if c.None? {
        return BEYOND;
      }
      clauses := clauses + [c.value];
      k := k + 1;
    }
    AllBefore(clauses, tokens);
    return Parse(clauses, false);
  }

  ghost function After(clauses: seq<Clause>, rest: Parse): Parse {
    if rest.advanced then BEYOND else Parse(clauses + rest.clauses, false)
  }

  lemma NothingBefore(tokens: seq<string>)
    ensures ParseTerms(tokens) == After([], ParseTerms(tokens[0..]))
  {
    assert tokens[0..] == tokens && [] + ParseTerms(tokens).clauses == ParseTerms(tokens).clauses;
    AdvancedIsBeyond(tokens);
  }

  lemma AdvancedIsBeyond(tokens: seq<string>)
    ensures ParseTerms(tokens).advanced ==> ParseTerms(tokens) == BEYOND
  {
  }

  lemma OneMoreBefore(clauses: seq<Clause>, tokens: seq<string>, k: nat)
    requires k < |tokens|
    ensures var c := ParseTerm(tokens[k]);
            After(clauses, ParseTerms(tokens[k..]))
            == if c.None? then BEYOND else After(clauses + [c.value], ParseTerms(tokens[k + 1..]))
  {
    hide ParseTerm;
    assert tokens[k..][1..] == tokens[k + 1..];
    var c, rest := ParseTerm(tokens[k]), ParseTerms(tokens[k + 1..]);
    if c.Some? {
      assert clauses + ([c.value] + rest.clauses) == clauses + [c.value] + rest.clauses;
    }
  }

  lemma AllBefore(clauses: seq<Clause>, tokens: seq<string>)
    ensures After(clauses, ParseTerms(tokens[|tokens|..])) == Parse(clauses, false)
  {
    assert tokens[|tokens|..] == [] && clauses + [] == clauses;
  }

  lemma {:induction false} UnescapesEscaped(v: string)
    ensures Unescaped(Escaped(v)) == v
    decreases |v|
  {
    if v != "" {
      var e := Escaped(v[1..]);
      UnescapesEscaped(v[1..]);
      UnescapesOne(v[0], e);
      assert v == [v[0]] + v[1..];
    }
  }

  lemma UnescapesOne(c: char, e: string)
    ensures Unescaped((if c == '\\' || c == '"' then ['\\', c] else [c]) + e) == [c] + Unescaped(e)
  {
    if c == '\\' || c == '"' {
      assert (['\\', c] + e)[2..] == e;
    } else {
      assert ([c] + e)[1..] == e;
    }
  }

  /** Quoting loses nothing, for any value. */
  lemma UnquoteUndoesQuote(v: string)
    ensures Unquote(QuoteIfNeeded(v)) == v
  {
    if Special(v) {
      var q := "\"" + Escaped(v) + "\"";
      assert q[1..|q| - 1] == Escaped(v);
      UnescapesEscaped(v);
    } else if |v| >= 2 {
      assert !NeedsQuotes(v[0]);
    }
  }

  predicate PlainChar(c: char) {
    !JsBlank(c) && !(c in "\"[]")
  }

  /** A field name without whitespace, quotes and brackets, which would keep terms from being told apart. */
  predicate SolidField(f: string) {
    forall i :: 0 <= i < |f| ==> PlainChar(f[i])
  }

  predicate Negating(op: Op) {
    op in {Neq, NContains, NExists, NRegex}
  }

  /** Exactly the field names that a chip can show: not empty, no colon; and, unless a dot brings the
      name an @ of its own, no @ in front and nothing that reads as a negation. */
  predicate Nameable(f: string, op: Op) {
    && f != "" && !Has(f, ':')
    && (Has(f, '.') || (f[0] != '@' && (Negating(op) || (f[0] != '-' && f[0] != '!'))))
  }

  /** Exactly the values that an equality chip can show: no star; and unless the value is quoted anyway,
      neither a regular expression literal nor the start of a comparison. */
  predicate Showable(v: string) {
    !Has(v, '*') && (Special(v) || (RegexLiteral(v).None? && v[0] != '<' && v[0] != '>'))
  }

  predicate NoBlank(v: string) {
    forall i :: 0 <= i < |v| ==> !JsBlank(v[i])
  }

  /** No whitespace at the ends. */
  predicate Trimmed(v: string) {
    v == "" || (!JsBlank(v[0]) && !JsBlank(v[|v| - 1]))
  }

  /** A range is shown in its readable form, or as two trimmed bounds with one pair of dots. */
  predicate RangeShown(v: string) {
    || Index(v, DASH) >= 0
    || (Index(v, "..") >= 0 && var at := Index(v, "..");
        Trimmed(v[..at]) && Trimmed(v[at + 2..]) && Index(v[at + 2..], "..") < 0)
  }

  /** Exactly the values and flags that a chip can show. */
  predicate Shown(op: Op, v: string, flags: string) {
    match op
    case EqOp => flags == "" && Showable(v)
    case Neq => flags == "" && Showable(v)
    case Contains => flags == "" && v != "" && NoBlank(v) && !Has(v, '*')
    case NContains => flags == "" && v != "" && NoBlank(v) && !Has(v, '*')
    case Gt => flags == "" && NoLineEnd(v) && Trimmed(v) && (v == "" || v[0] != '=')
    case Lt => flags == "" && NoLineEnd(v) && Trimmed(v) && (v == "" || v[0] != '=')
    case Gte => flags == "" && NoLineEnd(v) && Trimmed(v)
    case Lte => flags == "" && NoLineEnd(v) && Trimmed(v)
    case RangeOp => flags == "" && RangeShown(v)
    case ExistsOp => flags == "" && v == ""
    case NExists => flags == "" && v == ""
    case RegexOp => v != "" && forall i :: 0 <= i < |flags| ==> flags[i] == 'i'
    case NRegex => v != "" && forall i :: 0 <= i < |flags| ==> flags[i] == 'i'
  }

  predicate MsgSearch(c: Clause) {
    c.field == "msg" && (c.op == Contains || c.op == NContains)
  }

  /** Exactly the chips that survive printing and reading. */
  predicate Readable(c: Clause) {
    if MsgSearch(c) then c.flags == "" && NoBlank(c.value) && !Has(c.value, ':')
    else Nameable(c.field, c.op) && Shown(c.op, c.value, c.flags)
  }

  predicate Equality(c: Clause) {
    (c.op == EqOp || c.op == Neq) && c.flags == ""
  }

  lemma {:induction false} EscapedKeeps(v: string, c: char)
    requires c != '\\' && c != '"'
    ensures Has(Escaped(v), c) <==> Has(v, c)
    decreases |v|
  {
    if v != "" {
      EscapedKeeps(v[1..], c);
      HasFirst(v, c);
      var head := if v[0] == '\\' || v[0] == '"' then ['\\', v[0]] else [v[0]];
      HasIn(head, Escaped(v[1..]), c);
      assert Has(head, c) <==> v[0] == c by {
        assert head[|head| - 1] == v[0];
      }
    }
  }

  lemma HasFirst(s: string, c: char)
    requires s != ""
    ensures Has(s, c) <==> s[0] == c || Has(s[1..], c)
  {
    if Has(s[1..], c) {
      var i :| 0 <= i < |s[1..]| && s[1..][i] == c;
      assert s[i + 1] == c;
    }
    if Has(s, c) && s[0] != c {
      var i :| 0 <= i < |s| && s[i] == c;
      assert s[1..][i - 1] == c;
    }
  }

  lemma HasIn(a: string, b: string, c: char)
    ensures Has(a + b, c) <==> Has(a, c) || Has(b, c)
  {
    if Has(a, c) {
      var i :| 0 <= i < |a| && a[i] == c;
      assert (a + b)[i] == c;
    }
    if Has(b, c) {
      var i :| 0 <= i < |b| && b[i] == c;
      assert (a + b)[|a| + i] == c;
    }
  }

  /** One value: what is printed for it reads back as an equality exactly when it is showable. */
  lemma ValueReads(field: string, v: string, negate: bool)
    ensures ParseValue(field, QuoteIfNeeded(v), negate) == Some(Clause(field, if negate then Neq else EqOp, v, ""))
       <==> Showable(v)
  {
    var value := QuoteIfNeeded(v);
    UnquoteUndoesQuote(v);
    if Special(v) {
      EscapedKeeps(v, '*');
      HasIn("\"", Escaped(v), '*');
      HasIn("\"" + Escaped(v), "\"", '*');
      assert value[0] == '"';
      assert !AllStars(value);
    } else {
      forall i | 0 <= i < |v| ensures v[i] != '*' && v[i] != '[' && !LineEnd(v[i]) {
        assert !NeedsQuotes(v[i]);
      }
      assert !AllStars(v) by { assert v[0] != '*'; }
    }
  }

  lemma {:induction false} IndexAfter(a: string, b: string)
    requires !Has(a, ':')
    ensures Index(a + ":" + b, ":") == |a|
    decreases |a|
  {
    var s := a + ":" + b;
    if a == "" {
      assert s[..1] == ":";
    } else {
      assert s[1..] == a[1..] + ":" + b;
      HasFirst(a, ':');
      assert s[0] == a[0] && a[0] != ':';
      IndexAfter(a[1..], b);
    }
  }

  /** Where the name ends: at the first colon, which is the printed one unless the name has another. */
  lemma NameReads(name: string, value: string)
    ensures var s := name + (":" + value); var colon := Index(s, ":");
            && 0 <= colon <= |name| && !Has(s[..colon], ':') && (!Has(name, ':') ==>
                s[..colon] == name && s[colon + 1..] == value)
  {
    var s := name + (":" + value);
    assert s == name + ":" + value && s[|name|] == ':' && s[|name|..][..1] == ":";
    IndexLeast(s, ":", |name|);
    var colon := Index(s, ":");
    if Has(s[..colon], ':') {
      var i :| 0 <= i < colon && s[..colon][i] == ':';
      assert s[i..][..1] == ":";
      IndexLeast(s, ":", i);
    }
    if !Has(name, ':') {
      IndexAfter(name, value);
    }
  }

  /** The field of a printed term, as it is read. */
  function FieldOf(name: string): string {
    if name != "" && name[0] == '@' then name[1..] else name
  }

  lemma NamesRead(f: string, value: string)
    ensures var s := FieldRef(f) + (":" + value); var colon := Index(s, ":");
            && 0 <= colon <= |s| - 1
            && (FieldOf(s[..colon]) == f && f != "" <==> f != "" && !Has(f, ':') && (Has(f, '.') || f[0] != '@'))
            && (FieldOf(s[..colon]) == f && f != "" ==> s[colon + 1..] == value)
  {
    var name := FieldRef(f);
    NameReads(name, value);
    HasIn("@", f, ':');
    var colon := Index(name + (":" + value), ":");
    var read := (name + (":" + value))[..colon];
    if Has(f, ':') && FieldOf(read) == f {
      HasTail(read, ':');
    }
  }

  lemma HasTail(s: string, c: char)
    requires !Has(s, c)
    ensures !Has(FieldOf(s), c)
  {
    if s != "" {
      HasFirst(s, c);
    }
  }

  /** What is printed behind the colon. */
  function Rendered(c: Clause): string {
    RenderValue(c.op, c.value) + if c.op == RegexOp || c.op == NRegex then c.flags else ""
  }

  /** The sign of a printed term, as it is read. */
  lemma SignReads(c: Clause)
    requires !MsgSearch(c)
    ensures var s := FieldRef(c.field) + (":" + Rendered(c)); var t := ClauseToTerm(c);
            && t == (if Negating(c.op) then "-" else "") + s && |s| > 1
            && (Negating(c.op) ==> t[0] == '-' && t[1..] == s)
            && (!Negating(c.op) && c.field != "" ==>
                  (s[0] == '-' || s[0] == '!' <==> !Has(c.field, '.') && (c.field[0] == '-' || c.field[0] == '!')))
  {
    hide RenderValue;
    ValuePrinted(c.op, c.value);
  }

  lemma ValuePrinted(op: Op, v: string)
    ensures RenderValue(op, v) != ""
  {
    hide Escaped, SlashesEscaped, Solid;
  }

  /** What follows the sign is read as a field and a value. */
  lemma TermReads(s: string, negate: bool, raw: string)
    requires Index(s, ":") >= 0 && |s| > 1
    requires raw == (if negate then "-" + s else s) && (!negate ==> s[0] != '-' && s[0] != '!')
    ensures var colon := Index(s, ":"); var field := FieldOf(s[..colon]);
            ParseTerm(raw) == if field == "" then None else ParseValue(field, s[colon + 1..], negate)
  {
    hide ParseValue, Unquote, Index;
    if negate {
      assert raw[1..] == s;
    }
    IndexOccurs(s, ":");
    var colon := Index(s, ":");
    assert s[colon..][0] == s[colon] == ':';
    assert Has(s, ':');
  }

  lemma Negated(raw: string)
    requires |raw| > 1 && (raw[0] == '-' || raw[0] == '!')
    ensures ParseTerm(raw).Some? ==> Negating(ParseTerm(raw).value.op)
  {
    hide RegexLiteral, Unquote;
  }

  lemma ValueNames(field: string, value: string, negate: bool)
    ensures ParseValue(field, value, negate).Some? ==> ParseValue(field, value, negate).value.field == field
  {
    hide RegexLiteral, Unquote, JsTrim;
  }

  lemma {:induction false} SolidShort(v: string)
    ensures |Solid(v)| <= |v| && (|Solid(v)| == |v| <==> NoBlank(v)) && (NoBlank(v) ==> Solid(v) == v)
    decreases |v|
  {
    hide JsBlank;
    if v != "" {
      SolidShort(v[1..]);
      assert NoBlank(v) <==> !JsBlank(v[0]) && NoBlank(v[1..]) by {
        assert v == [v[0]] + v[1..];
      }
    }
  }

  lemma {:induction false} WithoutShort(s: string, c: char)
    ensures |Without(s, c)| <= |s| && (|Without(s, c)| == |s| <==> !Has(s, c)) && (!Has(s, c) ==> Without(s, c) == s)
    decreases |s|
  {
    hide Has;
    if s != "" {
      WithoutShort(s[1..], c);
      HasFirst(s, c);
    } else {
      NothingIn(c);
    }
  }

  lemma NothingIn(c: char)
    ensures !Has("", c)
  {
  }

  lemma {:induction false} WithoutLast(s: string, c: char)
    ensures Without(s + [c], c) == Without(s, c)
    decreases |s|
  {
    if s != "" {
      assert (s + [c])[1..] == s[1..] + [c];
      WithoutLast(s[1..], c);
    } else {
      assert ([c])[1..] == "" && s + [c] == [c];
    }
  }

  lemma TrimShort(s: string)
    ensures |JsTrim(s)| <= |s| && (|JsTrim(s)| == |s| <==> Trimmed(s)) && (Trimmed(s) ==> JsTrim(s) == s)
  {
    hide JsTrim, JsBlank;
    JsTrimMeaning(s);
    var i: nat, j: nat :| StripsAt(s, JsTrim(s), i, j);
    assert s[0..|s|] == s;
    if Trimmed(s) && s != "" {
      assert i == 0 && j == |s| by {
        assert JsBlank(s[0]) <==> false;
        assert JsBlank(s[|s| - 1]) <==> false;
      }
    }
  }

  lemma ContainsReads(field: string, v: string, negate: bool)
    ensures ParseValue(field, "*" + Solid(v) + "*", negate)
            == Some(Clause(field, if negate then NContains else Contains, v, ""))
       <==> v != "" && NoBlank(v) && !Has(v, '*')
  {
    hide Solid, Without, NoBlank, Has;
    var value := "*" + Solid(v) + "*";
    SolidShort(v);
    WithoutShort(Solid(v), '*');
    WithoutLast("*" + Solid(v), '*');
    assert Without("*" + Solid(v), '*') == Without(Solid(v), '*') by {
      StarGoes(Solid(v));
    }
    HasIn("*" + Solid(v), "*", '*');
    assert Has("*", '*') by { OneStar(); }
    if v != "" && NoBlank(v) && !Has(v, '*') {
      assert value[1] == v[0];
      FirstIsNot(v, '*');
    }
    if v == "" {
      assert value == "**";
    }
  }

  lemma StarGoes(s: string)
    ensures Without("*" + s, '*') == Without(s, '*')
  {
    assert ("*" + s)[1..] == s;
  }

  lemma OneStar()
    ensures Has("*", '*')
  {
    assert "*"[0] == '*';
  }

  lemma FirstIsNot(v: string, c: char)
    requires v != "" && !Has(v, c)
    ensures v[0] != c
  {
  }

  lemma CompareReads(field: string, v: string, op: Op)
    requires op in {Gt, Gte, Lt, Lte}
    ensures ParseValue(field, RenderValue(op, v), false) == Some(Clause(field, op, v, "")) <==> Shown(op, v, "")
  {
    hide JsTrim, Trimmed, Has, Without;
    var value := RenderValue(op, v);
    TrimShort(v);
    if op == Gt || op == Lt {
      assert value[1..] == v;
    } else {
      assert value[1..] == "=" + v && value[2..] == v;
      assert NoLineEnd("=" + v) <==> NoLineEnd(v) by {
        if NoLineEnd("=" + v) {
          assert forall i :: 0 <= i < |v| ==> v[i] == ("=" + v)[i + 1];
        }
      }
    }
  }

  lemma NoDashBefore(v: string, n: nat)
    requires n <= |v| && Index(v, DASH) < 0
    ensures Index(v[..n], DASH) < 0
  {
    var i := Index(v[..n], DASH);
    if i >= 0 {
      IndexOccurs(v[..n], DASH);
      PrefixOccurs(v, DASH, n, i);
      IndexLeast(v, DASH, i);
    }
  }

  const UNBOUNDED := "..undefined"

  lemma NoSpaceBehind(v: string, i: nat)
    requires |v| <= i < |v| + |UNBOUNDED|
    ensures (v + UNBOUNDED)[i] != ' '
  {
    assert UNBOUNDED == ".." + "undefined";
    assert (v + UNBOUNDED)[i] == UNBOUNDED[i - |v|];
  }

  lemma NoDashBehind(v: string)
    requires Index(v, DASH) < 0
    ensures Index(v + UNBOUNDED, DASH) < 0
  {
    hide Index, UNBOUNDED;
    var s := v + UNBOUNDED;
    var i := Index(s, DASH);
    if i >= 0 {
      IndexOccurs(s, DASH);
      assert s[i..][2] == s[i + 2];
      if i + 2 >= |v| {
        NoSpaceBehind(v, i + 2);
      } else {
        assert s[..|v|] == v;
        PrefixOccurs(s, DASH, |v|, i);
        IndexLeast(v, DASH, i);
      }
    }
  }

  lemma DotsStand(a: string, b: string)
    ensures 0 <= Index(a + ".." + b, "..") <= |a|
  {
    var s := a + ".." + b;
    assert s[|a|..][..2] == "..";
    IndexLeast(s, "..", |a|);
  }

  /** A range without dots is printed with two of them. */
  lemma NoDotsRead(v: string, inner: string)
    requires Index(v, DASH) < 0 && Index(v, "..") < 0 && Bounds(v) == "[" + inner + "]"
    ensures Index(inner, DASH) < 0 && Index(inner, "..") >= 0
  {
    hide Index;
    var b := Bounds(v);
    assert b == "[" + (v + UNBOUNDED) + "]";
    assert inner == b[1..|b| - 1] == v + UNBOUNDED;
    NoDashBehind(v);
    DotsStand(v, "undefined");
    assert v + ".." + "undefined" == v + UNBOUNDED;
  }

  /** The upper bound goes up to the next dots, if there are more. */
  function UpperOf(hi: string): string {
    if Index(hi, "..") < 0 then hi else hi[..Index(hi, "..")]
  }

  lemma DotsPrint(v: string, inner: string)
    requires Index(v, DASH) < 0 && Index(v, "..") >= 0 && Bounds(v) == "[" + inner + "]"
    ensures var at := Index(v, ".."); inner == v[..at] + ".." + UpperOf(v[at + 2..])
  {
    hide Index;
    var at := Index(v, "..");
    var x := v[..at] + ".." + UpperOf(v[at + 2..]);
    assert Bounds(v) == "[" + x + "]";
    assert ("[" + x + "]")[1..|x| + 1] == x;
    assert ("[" + inner + "]")[1..|inner| + 1] == inner;
  }

  lemma DotsRead(v: string, inner: string)
    requires Index(v, DASH) < 0 && Index(v, "..") >= 0 && Bounds(v) == "[" + inner + "]"
    ensures Index(inner, DASH) < 0 && Index(inner, "..") == Index(v, "..")
    ensures var at := Index(v, ".."); inner[..at] == v[..at] && inner[at + 2..] == UpperOf(v[at + 2..])
  {
    hide Index, Bounds, UpperOf;
    var at := Index(v, "..");
    var hi := UpperOf(v[at + 2..]);
    var n := at + 2 + |hi|;
    DotsPrint(v, inner);
    UpperIs(v[at + 2..]);
    IndexOccurs(v, "..");
    assert v[at..][..2] == "..";
    FrontOf(v, at, hi);
    NoDashBefore(v, n);
    IndexInPrefix(v, "..", n);
  }

  lemma FrontOf(v: string, at: nat, hi: string)
    requires at + 2 <= |v| && v[at..][..2] == ".." && hi <= v[at + 2..]
    ensures var x := v[..at] + ".." + hi; x == v[..at + 2 + |hi|] && x[..at] == v[..at] && x[at + 2..] == hi
  {
    assert v[at] == v[at..][0] && v[at + 1] == v[at..][1];
  }

  lemma RangeReads(field: string, v: string)
    ensures ParseValue(field, Bounds(v), false) == Some(Clause(field, RangeOp, v, "")) <==> RangeShown(v)
  {
    hide Index, JsTrim, Trimmed, Has, Without, Bounds, UpperOf;
    BoundsEnclosed(v);
    var b := Bounds(v);
    var inner := b[1..|b| - 1];
    var at := Index(v, "..");
    if Index(v, DASH) < 0 && at < 0 {
      NoDotsRead(v, inner);
      var at' := Index(inner, "..");
      DotsStand(JsTrim(inner[..at']), JsTrim(inner[at' + 2..]));
    } else if Index(v, DASH) < 0 {
      DotsRead(v, inner);
      IndexOccurs(v, "..");
      assert v[at..at + 2] == v[at..][..2] == "..";
      UpperIs(v[at + 2..]);
      BackIs(v, at, inner[at + 2..]);
    }
  }

  lemma BoundsEnclosed(v: string)
    ensures var b := Bounds(v); |b| >= 2 && b[0] == '[' && b[|b| - 1] == ']' && b == "[" + b[1..|b| - 1] + "]"
    ensures Index(v, DASH) >= 0 ==> Bounds(v)[1..|Bounds(v)| - 1] == v
  {
    hide Index;
  }

  lemma UpperIs(hi: string)
    ensures UpperOf(hi) <= hi && (UpperOf(hi) == hi <==> Index(hi, "..") < 0)
  {
    hide Index;
  }

  lemma BackIs(v: string, at: nat, hi: string)
    requires at + 2 <= |v| && v[at..at + 2] == ".." && hi <= v[at + 2..]
    ensures var lo := v[..at];
            JsTrim(lo) + ".." + JsTrim(hi) == v <==> Trimmed(lo) && Trimmed(hi) && hi == v[at + 2..]
  {
    hide JsTrim, Trimmed;
    TrimShort(v[..at]);
    TrimShort(hi);
    assert v == v[..at] + ".." + v[at + 2..];
  }

  /** Escaping slashes loses nothing, for any pattern. */
  lemma {:induction false} SlashesReturn(q: string)
    ensures Parsing.Unescaped(SlashesEscaped(q)) == q && (SlashesEscaped(q) != "" ==> SlashesEscaped(q)[0] != '/')
    ensures SlashesEscaped(q) == "" <==> q == ""
    decreases |q|
  {
    if q != "" {
      SlashesReturn(q[1..]);
      var rest := SlashesEscaped(q[1..]);
      assert q == [q[0]] + q[1..];
      if q[0] == '/' {
        assert SlashesEscaped(q)[2..] == rest;
      } else {
        assert SlashesEscaped(q)[1..] == rest;
      }
    }
  }

  lemma {:induction false} FlagsBack(s: string, k: nat, end: nat)
    requires 1 < k <= end <= |s| && s[k - 1] == '/' && forall i :: k <= i < end ==> s[i] == 'i' || s[i] == 'g'
    ensures Parsing.FlagsStart(s, end) == k
    decreases end
  {
    if end > k {
      FlagsBack(s, k, end - 1);
    }
  }

  lemma {:induction false} FlagsAreLast(s: string, end: nat)
    requires end <= |s|
    ensures forall i :: Parsing.FlagsStart(s, end) <= i < end ==> s[i] == 'i' || s[i] == 'g'
    decreases end
  {
    if end > 1 && (s[end - 1] == 'i' || s[end - 1] == 'g') {
      FlagsAreLast(s, end - 1);
    }
  }

  lemma RegexReads(field: string, v: string, flags: string, negate: bool)
    ensures ParseValue(field, "/" + SlashesEscaped(v) + "/" + flags, negate)
            == Some(Clause(field, if negate then NRegex else RegexOp, v, flags))
       <==> v != "" && forall i :: 0 <= i < |flags| ==> flags[i] == 'i'
  {
    hide Without, Has, Parsing.FlagsStart, Parsing.Unescaped, SlashesEscaped, JsTrim;
    var body := SlashesEscaped(v);
    var value := "/" + body + "/" + flags;
    var k := |body| + 2;
    SlashesReturn(v);
    WithoutShort(flags, 'g');
    assert value[k - 1] == '/' && value[1..k - 1] == body && value[k..] == flags;
    if forall i :: 0 <= i < |flags| ==> flags[i] == 'i' || flags[i] == 'g' {
      forall i | k <= i < |value| ensures value[i] == 'i' || value[i] == 'g' {
        assert value[i] == flags[i - k];
      }
      FlagsBack(value, k, |value|);
      FlagsIff(flags);
    } else {
      OtherFlags(value, k, flags);
    }
  }

  lemma FlagsIff(flags: string)
    requires forall i :: 0 <= i < |flags| ==> flags[i] == 'i' || flags[i] == 'g'
    ensures !Has(flags, 'g') <==> forall i :: 0 <= i < |flags| ==> flags[i] == 'i'
  {
  }

  lemma OtherFlags(value: string, k: nat, flags: string)
    requires k <= |value| && flags == value[k..] && exists i :: 0 <= i < |flags| && flags[i] != 'i' && flags[i] != 'g'
    ensures RegexLiteral(value).Some? ==> RegexLiteral(value).value.1 != flags
  {
    hide Parsing.Unescaped;
    var end := Parsing.FlagsStart(value, |value|);
    FlagsAreLast(value, |value|);
    var i :| 0 <= i < |flags| && flags[i] != 'i' && flags[i] != 'g';
    assert value[k + i] == flags[i];
    WithoutShort(value[end..], 'g');
  }

  /** One value: what is printed for it reads back exactly when it can be shown. */
  lemma Reads(c: Clause)
    requires !MsgSearch(c)
    ensures ParseValue(c.field, Rendered(c), Negating(c.op)) == Some(c) <==> Shown(c.op, c.value, c.flags)
  {
    hide ParseValue, QuoteIfNeeded, Showable, Solid, Bounds, SlashesEscaped, RangeShown, NoBlank, Has, Trimmed;
    hide NoLineEnd;
    var f, v, negate := c.field, c.value, Negating(c.op);
    assert RenderValue(c.op, v) + "" == RenderValue(c.op, v);
    FlagsRead(c);
    match c.op
    case EqOp => ValueReads(f, v, negate);
    case Neq => ValueReads(f, v, negate);
    case Contains => ContainsReads(f, v, negate);
    case NContains => ContainsReads(f, v, negate);
    case Gt => CompareReads(f, v, c.op);
    case Lt => CompareReads(f, v, c.op);
    case Gte => CompareReads(f, v, c.op);
    case Lte => CompareReads(f, v, c.op);
    case RangeOp => RangeReads(f, v);
    case ExistsOp => StarReads(f, negate);
    case NExists => StarReads(f, negate);
    case RegexOp => RegexReads(f, v, c.flags, negate);
    case NRegex => RegexReads(f, v, c.flags, negate);
  }

  lemma StarReads(field: string, negate: bool)
    ensures ParseValue(field, "*", negate) == Some(Clause(field, if negate then NExists else ExistsOp, "", ""))
  {
  }

  /** Only regular expressions are read with flags. */
  lemma FlagsRead(c: Clause)
    ensures var r := ParseValue(c.field, Rendered(c), Negating(c.op));
            r.Some? && r.value.op != RegexOp && r.value.op != NRegex ==> r.value.flags == ""
  {
    hide RegexLiteral, Rendered, JsTrim, Has, Without, Unquote;
  }

  /** One chip survives printing and reading if and only if its field can be named and its value be shown. */
  lemma TermRoundTrip(c: Clause)
    ensures ParseTerm(ClauseToTerm(c)) == Some(c) <==> Readable(c)
  {
    hide ParseTerm, ParseValue, Rendered, Index, FieldRef, ClauseToTerm, FieldOf, Shown, MsgSearch, NoBlank, Has;
    if MsgSearch(c) {
      SearchReads(c);
      return;
    }
    var s := FieldRef(c.field) + (":" + Rendered(c));
    SignReads(c);
    NamesRead(c.field, Rendered(c));
    var colon := Index(s, ":");
    var field := FieldOf(s[..colon]);
    assert "" + s == s;
    if !Negating(c.op) && (s[0] == '-' || s[0] == '!') {
      Negated(s);
      EmptyName(Rendered(c));
    } else {
      TermReads(s, Negating(c.op), ClauseToTerm(c));
      ValueNames(field, s[colon + 1..], Negating(c.op));
      Reads(c);
    }
  }

  /** The short form for the message: a colon makes it read as a field. */
  lemma SearchReads(c: Clause)
    requires MsgSearch(c)
    ensures ParseTerm(ClauseToTerm(c)) == Some(c) <==> c.flags == "" && NoBlank(c.value) && !Has(c.value, ':')
  {
    hide ParseValue, Solid, NoBlank, Has, Index, Unquote;
    var v := Solid(c.value);
    var s := "*" + v + "*";
    SolidShort(c.value);
    assert s[1..|s| - 1] == v && s[0] == '*' && s[|s| - 1] == '*';
    assert ClauseToTerm(c) == (if c.op == NContains then "-" + s else s) by {
      assert "-" + ("*" + v + "*") == "-" + "*" + v + "*";
    }
    var raw := ClauseToTerm(c);
    assert c.op == NContains ==> raw[0] == '-' && raw[1..] == s;
    ColonIn(v);
    if Has(s, ':') {
      StarName(s, c.op == NContains);
    }
  }

  lemma ColonIn(v: string)
    ensures Has("*" + v + "*", ':') <==> Has(v, ':')
  {
    HasIn("*" + v, "*", ':');
    HasIn("*", v, ':');
  }

  lemma StarName(s: string, negate: bool)
    requires |s| > 1 && s[0] == '*' && Has(s, ':')
    ensures var colon := Index(s, ":");
            && colon > 0 && s[..colon][0] == '*'
            && var value := ParseValue(s[..colon], s[colon + 1..], negate);
               (value.Some? ==> value.value.field != "msg")
  {
    hide ParseValue;
    var i :| 0 <= i < |s| && s[i] == ':';
    assert s[i..][..1] == ":";
    IndexLeast(s, ":", i);
    var colon := Index(s, ":");
    IndexOccurs(s, ":");
    assert s[colon..][0] == ':';
    ValueNames(s[..colon], s[colon + 1..], negate);
  }

  lemma EmptyName(value: string)
    ensures (FieldRef("") + (":" + value))[0] == ':'
  {
  }

  lemma {:induction false} PlainLen(p: string, rest: string)
    requires forall i :: 0 <= i < |p| ==> PlainChar(p[i])
    ensures TermLen(p + rest, false, 0) == |p| + TermLen(rest, false, 0)
    decreases |p|
  {
    if p == "" {
      assert p + rest == rest;
    } else {
      assert (p + rest)[1..] == p[1..] + rest && (p + rest)[0] == p[0] && PlainChar(p[0]);
      PlainLen(p[1..], rest);
    }
  }

  lemma {:induction false} QuotedLen(v: string, rest: string)
    ensures TermLen(Escaped(v) + ("\"" + rest), true, 0) == |Escaped(v)| + 1 + TermLen(rest, false, 0)
    decreases |v|
  {
    var s := Escaped(v) + ("\"" + rest);
    if v == "" {
      assert s == "\"" + rest && s[1..] == rest;
    } else {
      var later := Escaped(v[1..]) + ("\"" + rest);
      QuotedLen(v[1..], rest);
      if v[0] == '\\' || v[0] == '"' {
        assert s[2..] == later && s[0] == '\\' && |s| > 1;
      } else {
        assert s[1..] == later && s[0] == v[0];
      }
    }
  }

  lemma ValueLen(v: string, rest: string)
    requires rest == "" || JsBlank(rest[0])
    ensures TermLen(QuoteIfNeeded(v) + rest, false, 0) == |QuoteIfNeeded(v)|
  {
    hide Escaped, NeedsQuotes;
    if Special(v) {
      var s := QuoteIfNeeded(v) + rest;
      assert s[1..] == Escaped(v) + ("\"" + rest) && s[0] == '"';
      QuotedLen(v, rest);
    } else {
      PlainValue(v);
      PlainLen(v, rest);
    }
  }

  lemma PlainValue(v: string)
    requires !Special(v)
    ensures forall i :: 0 <= i < |v| ==> PlainChar(v[i])
  {
    forall i | 0 <= i < |v| ensures PlainChar(v[i]) {
      assert !NeedsQuotes(v[i]);
    }
  }

  /** The tokenizer takes exactly the printed term off the front. */
  lemma TermLenIs(c: Clause, rest: string)
    requires Equality(c) && SolidField(c.field) && (rest == "" || JsBlank(rest[0]))
    ensures TermLen(ClauseToTerm(c) + rest, false, 0) == |ClauseToTerm(c)|
    ensures ClauseToTerm(c) != "" && !JsBlank(ClauseToTerm(c)[0])
  {
    hide TermLen, QuoteIfNeeded, JsBlank;
    var sign := if c.op == Neq then "-" else "";
    var value := QuoteIfNeeded(c.value);
    var front := sign + (FieldRef(c.field) + ":");
    FrontIsPlain(c.field, sign);
    assert value + "" == value;
    assert ClauseToTerm(c) == front + value;
    assert front + value + rest == front + (value + rest);
    PlainLen(front, value + rest);
    ValueLen(c.value, rest);
  }

  lemma FrontIsPlain(field: string, sign: string)
    requires SolidField(field) && (sign == "" || sign == "-")
    ensures var front := sign + (FieldRef(field) + ":");
            front != "" && forall i :: 0 <= i < |front| ==> PlainChar(front[i]) && !JsBlank(front[i])
  {
  }

  /** A term that the tokenizer takes off the front of a list: no whitespace at its ends, and none inside but
      between quotes or brackets. */
  predicate Apart(t: string) {
    t != "" && !JsBlank(t[0]) && !JsBlank(t[|t| - 1]) && TermLen(t + " ", false, 0) == |t|
  }

  lemma {:induction false} TermLocal(t: string, rest: string, inQuote: bool, bracket: nat)
    requires TermLen(t + " ", inQuote, bracket) == |t| && (rest == "" || JsBlank(rest[0]))
    ensures TermLen(t + rest, inQuote, bracket) == |t|
    decreases |t|
  {
    var s, s' := t + " ", t + rest;
    if t == "" {
      assert s == " " && s' == rest;
    } else {
      Behind(t, " ", 1);
      Behind(t, rest, 1);
      if inQuote && t[0] == '\\' {
        if |t| > 1 {
          Behind(t, " ", 2);
          Behind(t, rest, 2);
          TermLocal(t[2..], rest, true, bracket);
        }
      } else if inQuote {
        TermLocal(t[1..], rest, t[0] != '"', bracket);
      } else if t[0] == '"' {
        TermLocal(t[1..], rest, true, bracket);
      } else {
        TermLocal(t[1..], rest, false, if t[0] == '[' then bracket + 1
                                       else if t[0] == ']' && bracket > 0 then bracket - 1 else bracket);
      }
    }
  }

  lemma Behind(t: string, rest: string, n: nat)
    requires 0 < n <= |t|
    ensures (t + rest)[0] == t[0] && (t + rest)[n..] == t[n..] + rest
  {
  }

  /** So the printed list splits into its terms. */
  lemma {:induction false} TermsSplit(cs: seq<Clause>)
    requires forall c :: c in cs ==> Apart(ClauseToTerm(c))
    ensures Terms(ClausesToExpr(cs)) == TermsOf(cs)
    decreases |cs|
  {
    hide ClauseToTerm, TermLen;
    if cs != [] {
      var t := ClauseToTerm(cs[0]);
      var rest := if |cs| == 1 then "" else [' '] + ClausesToExpr(cs[1..]);
      assert ClausesToExpr(cs) == t + rest by { assert t + "" == t; }
      assert Apart(ClauseToTerm(cs[0]));
      TermLocal(t, rest, false, 0);
      assert (t + rest)[..|t|] == t && (t + rest)[|t|..] == rest && (t + rest)[0] == t[0];
      TermsSplit(cs[1..]);
      if |cs| > 1 {
        assert rest[1..] == ClausesToExpr(cs[1..]);
        assert Terms(rest) == Terms(rest[1..]);
      } else {
        assert cs[1..] == [];
      }
    }
  }

  function TermsOf(cs: seq<Clause>): seq<string> {
    if cs == [] then [] else [ClauseToTerm(cs[0])] + TermsOf(cs[1..])
  }

  lemma {:induction false} TermsParse(cs: seq<Clause>)
    ensures ParseTerms(TermsOf(cs)) == Parse(cs, false) <==> forall c :: c in cs ==> Readable(c)
    decreases |cs|
  {
    hide ParseTerm, Readable;
    if cs != [] {
      TermRoundTrip(cs[0]);
      TermsParse(cs[1..]);
      var c, rest := ParseTerm(ClauseToTerm(cs[0])), ParseTerms(TermsOf(cs[1..]));
      assert TermsOf(cs)[1..] == TermsOf(cs[1..]);
      FirstAndRest(cs, c, rest);
      assert forall d :: d in cs <==> d == cs[0] || d in cs[1..];
    }
  }

  lemma FirstAndRest(cs: seq<Clause>, c: Option<Clause>, rest: Parse)
    requires cs != []
    ensures (if c.None? || rest.advanced then BEYOND else Parse([c.value] + rest.clauses, false)) == Parse(cs, false)
       <==> c == Some(cs[0]) && rest == Parse(cs[1..], false)
  {
    if c.Some? {
      assert ([c.value] + rest.clauses)[1..] == rest.clauses;
    }
    assert cs == [cs[0]] + cs[1..];
  }

  predicate Connective(w: string) {
    w in {"OR", "or", "AND", "and"}
  }

  /** Words of the first part of a text that a blank splits. */
  lemma WordInFirst(a: string, b: string, i: nat, w: string)
    requires i < |a| && Connective(w)
    ensures WordAt(a + ([' '] + b), i, w) <==> WordAt(a, i, w)
  {
    var s := a + ([' '] + b);
    if WordAt(s, i, w) {
      NoBlankInside(s, i, w, |a|);
    }
    if i + |w| <= |a| {
      assert a[i..i + |w|] == s[i..i + |w|];
    }
  }

  lemma WordInSecond(a: string, b: string, j: nat, w: string)
    requires j < |b| && Connective(w)
    ensures WordAt(a + ([' '] + b), |a| + 1 + j, w) <==> WordAt(b, j, w)
  {
    var s, i := a + ([' '] + b), |a| + 1 + j;
    if j + |w| <= |b| {
      assert b[j..j + |w|] == s[i..i + |w|];
    }
    assert j > 0 ==> s[i - 1] == b[j - 1];
    assert s[|a|] == ' ';
  }

  lemma FirstSame(a: string, b: string, i: nat)
    requires i < |a|
    ensures AdvancedAt(a + ([' '] + b), i) <==> AdvancedAt(a, i)
  {
    hide WordAt;
    WordInFirst(a, b, i, "OR");
    WordInFirst(a, b, i, "or");
    WordInFirst(a, b, i, "AND");
    WordInFirst(a, b, i, "and");
  }

  lemma SecondSame(a: string, b: string, j: nat)
    requires j < |b|
    ensures AdvancedAt(a + ([' '] + b), |a| + 1 + j) <==> AdvancedAt(b, j)
  {
    hide WordAt;
    WordInSecond(a, b, j, "OR");
    WordInSecond(a, b, j, "or");
    WordInSecond(a, b, j, "AND");
    WordInSecond(a, b, j, "and");
  }

  lemma BlankIsPlain(a: string, b: string)
    ensures !AdvancedAt(a + ([' '] + b), |a|)
  {
    var s := a + ([' '] + b);
    assert s[|a|] == ' ';
    forall w: string | Connective(w) ensures !WordAt(s, |a|, w) {
      if |a| + |w| <= |s| {
        assert s[|a|..|a| + |w|][0] == ' ';
      }
    }
    assert Connective("OR") && Connective("or") && Connective("AND") && Connective("and");
  }

  /** A blank keeps words apart. */
  lemma AdvancedSplit(a: string, b: string)
    ensures Advanced(a + ([' '] + b)) <==> Advanced(a) || Advanced(b)
  {
    hide AdvancedAt;
    var s := a + ([' '] + b);
    if Advanced(s) {
      var i: nat :| i < |s| && AdvancedAt(s, i);
      BlankIsPlain(a, b);
      if i < |a| {
        FirstSame(a, b, i);
      } else {
        var j := i - |a| - 1;
        SecondSame(a, b, j);
        assert AdvancedAt(b, j);
      }
    }
    if Advanced(a) {
      var i: nat :| i < |a| && AdvancedAt(a, i);
      FirstSame(a, b, i);
      assert AdvancedAt(s, i);
    }
    if Advanced(b) {
      var j: nat :| j < |b| && AdvancedAt(b, j);
      SecondSame(a, b, j);
      assert AdvancedAt(s, |a| + 1 + j);
    }
  }

  lemma NoBlankInside(s: string, i: nat, w: string, k: nat)
    requires i < k < |s| && s[k] == ' ' && WordAt(s, i, w) && Connective(w)
    ensures i + |w| <= k
  {
    assert forall j :: 0 <= j < |w| ==> w[j] == s[i..i + |w|][j] == s[i + j];
  }

  lemma {:induction false} ExprPlain(cs: seq<Clause>)
    ensures Advanced(ClausesToExpr(cs)) <==> exists c :: c in cs && Advanced(ClauseToTerm(c))
    decreases |cs|
  {
    hide Advanced, ClauseToTerm;
    if cs == [] {
      NothingAdvanced();
    } else {
      assert forall d :: d in cs <==> d == cs[0] || d in cs[1..];
      if |cs| > 1 {
        ExprPlain(cs[1..]);
        AdvancedSplit(ClauseToTerm(cs[0]), ClausesToExpr(cs[1..]));
      }
    }
  }

  lemma NothingAdvanced()
    ensures !Advanced("")
  {
  }

  /** Equality chips of such fields stand apart, whatever their values. */
  lemma EqualityApart(c: Clause)
    requires Equality(c) && SolidField(c.field)
    ensures Apart(ClauseToTerm(c))
  {
    TermLenIs(c, " ");
    var value := QuoteIfNeeded(c.value);
    if !Special(c.value) {
      assert !NeedsQuotes(c.value[|c.value| - 1]);
    }
    assert value != "" && !JsBlank(value[|value| - 1]);
    assert value + "" == value;
  }

  lemma {:induction false} ExprEnds(cs: seq<Clause>)
    requires cs != [] && forall c :: c in cs ==> Apart(ClauseToTerm(c))
    ensures var s := ClausesToExpr(cs); s != "" && !JsBlank(s[0]) && !JsBlank(s[|s| - 1])
    decreases |cs|
  {
    hide ClauseToTerm, JsBlank, TermLen;
    assert Apart(ClauseToTerm(cs[0]));
    if |cs| > 1 {
      ExprEnds(cs[1..]);
    }
  }

  /** Chips survive the trip through the expression: printing a list of chips that stand apart and reading it
      back gives the same list if and only if every chip survives alone and no term has parentheses or the
      words AND and OR. */
  lemma ChipsRoundTrip(cs: seq<Clause>)
    requires forall c :: c in cs ==> Apart(ClauseToTerm(c))
    ensures ParseClauses(ClausesToExpr(cs)) == Parse(cs, false)
       <==> forall c :: c in cs ==> Readable(c) && !Advanced(ClauseToTerm(c))
  {
    hide Apart, Readable, Advanced, Terms, ParseTerms, ClauseToTerm;
    if cs == [] {
      assert JsTrim("") == "";
    } else {
      ExprEnds(cs);
      assert JsTrim(ClausesToExpr(cs)) == ClausesToExpr(cs);
      ExprPlain(cs);
      TermsSplit(cs);
      TermsParse(cs);
    }
  }
}
