/** What the server makes of a printed filter chip. */
module ChipFilters {
  import opened Options
  import opened Ast
  import opened Lexing
  import opened Parsing
  import opened Grammar
  import opened Terms
  import opened Composing
  import Chips

  /** A bare value that the server reads as one token standing for itself. */
  predicate OneToken(v: string, env: Env) {
    && v != "" && !Blank(v[|v| - 1])
    && var (t, n) := Next(v, true, env);
       n == |v| && t.kind in {TIdent, TStar, TNumber} && (t.kind == TStar ==> SplitRegex(v).None?)
  }

  /** Exactly the values that an equality chip carries to the server. */
  predicate Carried(v: string, env: Env) {
    if Chips.Special(v) then !Chips.Has(v, '*') else OneToken(v, env)
  }

  /** A quoted value reads back as its text; a star in it makes it a pattern. */
  lemma {:induction false} QuotedReads(p: string, v: string, q: Quoting)
    ensures var s := p + (Chips.Escaped(v) + "\""); var (t, n) := StringFrom(s, |p|, q);
            n == |s| && t.kind == TString && t.text == q.text + v && (t.parts.Some? <==> q.wild || Chips.Has(v, '*'))
    decreases |v|
  {
    hide Chips.Has;
    var s := p + (Chips.Escaped(v) + "\"");
    if v == "" {
      NoStar();
      assert s[|p|] == '"' && q.text + v == q.text;
    } else {
      var rest := Chips.Escaped(v[1..]) + "\"";
      var c := v[0];
      var front := if c == '\\' || c == '"' then ['\\', c] else [c];
      assert s == (p + front) + rest;
      assert s[|p|] == front[0];
      if c == '\\' || c == '"' {
        assert s[|p| + 1] == c;
      }
      var q' := if c == '*' then q.Star() else q.Char(c);
      QuotedReads(p + front, v[1..], q');
      Chips.HasFirst(v, '*');
      assert q'.text == q.text + [c] && q.text + v == q'.text + v[1..];
    }
  }

  lemma NoStar()
    ensures !Chips.Has("", '*')
  {
  }

  lemma BareChars(v: string)
    requires !Chips.Special(v)
    ensures v != "" && forall i :: 0 <= i < |v| ==> v[i] != '"' && v[i] != '*' && !IsSpace(v[i])
  {
    forall i | 0 <= i < |v| ensures v[i] != '"' && v[i] != '*' && !IsSpace(v[i]) {
      assert !Chips.NeedsQuotes(v[i]);
    }
  }

  lemma FieldRaw(f: string, value: string, env: Env)
    requires PlainWord(f, env)
    ensures RawTokens(f + (":" + value), false, env) == [Tok(TIdent, f)] + ([COLON] + RawTokens(value, true, env))
  {
    hide RawTokens, IsIdent;
    assert ":" + value == [':'] + value;
    RawWord(f, ":" + value, false, env);
    RawChar(':', value, false, env);
  }

  /** The tokens of a field with a value. */
  lemma FieldTokens(f: string, value: string, env: Env) returns (more: seq<Token>)
    requires PlainWord(f, env) && value != "" && !IsSpace(value[0])
    ensures var (t, n) := Next(value, true, env);
            && RawTokens(f + (":" + value), false, env) == [Tok(TIdent, f), COLON, t] + more
            && t != SPACE && (n == |value| ==> more == [])
  {
    hide RawTokens, Next, IsIdent, Expects;
    var (t, n) := Next(value, true, env);
    FieldRaw(f, value, env);
    RawOne(value, true, env);
    more := RawTokens(value[n..], Expects(t, true), env);
    if n == |value| {
      RawEnd(value[n..], Expects(t, true), env);
    }
    NotSpace(value, env);
    ThreeFirst(Tok(TIdent, f), COLON, t, more);
  }

  lemma ThreeFirst(a: Token, b: Token, c: Token, more: seq<Token>)
    ensures [a] + ([b] + ([c] + more)) == [a, b, c] + more
  {
  }

  lemma NotSpace(value: string, env: Env)
    requires value != "" && !IsSpace(value[0])
    ensures Next(value, true, env).0 != SPACE
  {
    hide RunEnd, RegexEnd, SignedEnd, NumberEnd, WordEnd;
    StringKind(value, 1, NO_QUOTE);
    if Next(value, true, env).0 == SPACE {
      assert Next(value, true, env).0.kind == TAnd;
      assert Word(value[..WordEnd(value, 0, true)], env).text == value[..WordEnd(value, 0, true)];
      assert false;
    }
  }

  lemma JoinedThree(a: Token, b: Token, c: Token, more: seq<Token>)
    requires a != SPACE && b != SPACE && c != SPACE
    ensures Joined(None, [a, b, c] + more) == [a, b, c] + Joined(Some(c), more)
  {
    hide Joined;
    JoinedKeeps(None, a, [b, c] + more);
    JoinedKeeps(Some(a), b, [c] + more);
    JoinedKeeps(Some(b), c, more);
    assert [a, b, c] + more == [a] + ([b] + ([c] + more));
    assert [b, c] + more == [b] + ([c] + more);
  }

  lemma FieldTerm(f: string, t: Token, more: seq<Token>, env: Env)
    ensures ParseTerm([Tok(TIdent, f), COLON, t] + more, env) == FieldValue([f], [t] + more, env)
  {
    hide FieldValue;
    var ts := [Tok(TIdent, f), COLON, t] + more;
    assert ts[1..] == [COLON] + ([t] + more) && ts[1..][1..] == [t] + more;
    assert Segments([f], ts[1..]) == ([f], ts[1..]);
  }

  /** An equality comes from exactly one value token with its text. */
  lemma EqualityFrom(f: string, v: string, t: Token, more: seq<Token>, env: Env)
    ensures FieldValue([f], [t] + more, env).Ok? && FieldValue([f], [t] + more, env).node == Eq([f], v) ==>
              t.text == v && PlainValue([f], t, env) == Some(Eq([f], v)) && t.kind in {TString, TIdent, TStar, TNumber}
    ensures t.kind in {TString, TIdent, TStar, TNumber} && PlainValue([f], t, env) == Some(Eq([f], v)) ==>
              FieldValue([f], [t] + more, env) == Ok(Eq([f], v), more)
  {
    hide SplitRegex, TrimStars;
    assert ([t] + more)[1..] == more;
  }

  /** The whole text of a field with a value is that equality exactly if its value token is. */
  lemma FieldMeans(f: string, value: string, v: string, env: Env)
    requires PlainWord(f, env) && value != "" && !IsSpace(value[0]) && TrimSpace(f + (":" + value)) == f + (":" + value)
    ensures var (t, n) := Next(value, true, env);
            && (n == |value| && t.kind in {TString, TIdent, TStar, TNumber} &&
                PlainValue([f], t, env) == Some(Eq([f], v)) ==>
                  Parse(f + (":" + value), env) == Filtered(Eq([f], v)))
            && (Parse(f + (":" + value), env) == Filtered(Eq([f], v)) ==>
                  t.text == v && t.kind in {TString, TIdent, TStar, TNumber} &&
                      PlainValue([f], t, env) == Some(Eq([f], v)))
  {
    hide RawTokens, Next, IsIdent, TrimSpace, ParseOr, ParseTerm, FieldValue, PlainValue, Joined, Scanned;
    var (t, n) := Next(value, true, env);
    var more := FieldTokens(f, value, env);
    JoinedThree(Tok(TIdent, f), COLON, t, more);
    var rest := Joined(Some(t), more);
    var ts := [Tok(TIdent, f), COLON, t] + rest;
    JoinedNothing(Some(t));
    FieldTerm(f, t, rest, env);
    EqualityFrom(f, v, t, rest, env);
    if ParseOr(ts, env) == Ok(Eq([f], v), []) {
      CompleteScans(ts, Eq([f], v), env);
      FirstTerm(ts, Eq([f], v), env);
    }
    if ParseTerm(ts, env) == Ok(Eq([f], v), []) {
      TermAlone(ts, Eq([f], v), env);
    }
  }

  lemma FirstTerm(ts: seq<Token>, n: Node, env: Env)
    requires ts != [] && ts[0].kind == TIdent && n.Eq? && Scanned(ts, env) == Some(Leaves(n))
    ensures ParseTerm(ts, env).Ok? && ParseTerm(ts, env).node == n
  {
    hide ParseTerm;
    assert Leaves(n)[0] == n;
  }

  lemma TermAlone(ts: seq<Token>, n: Node, env: Env)
    requires ts != [] && ts[0].kind == TIdent && ParseTerm(ts, env) == Ok(n, [])
    ensures ParseOr(ts, env) == Ok(n, [])
  {
    hide ParseTerm;
    assert ParseNot(ts, env) == Ok(n, []);
    AloneParses(ts, n, env);
  }

  lemma ChipText(f: string, v: string, env: Env)
    requires PlainWord(f, env)
    ensures Chips.ClauseToTerm(Chips.Clause(f, Chips.EqOp, v, "")) == f + (":" + Chips.QuoteIfNeeded(v))
  {
    hide Chips.QuoteIfNeeded;
    var value := Chips.QuoteIfNeeded(v);
    assert value + "" == value && "" + (f + (":" + value)) == f + (":" + value);
    forall i | 0 <= i < |f| ensures f[i] != '.' {
      assert IsIdentChar(f[i], i == 0, env);
    }
  }

  lemma WordText(s: string, inVal: bool, env: Env)
    requires s != "" && s[0] != '"' && !IsSpace(s[0])
    ensures Next(s, inVal, env).0.text == s[..Next(s, inVal, env).1] && Next(s, inVal, env).0.kind != TString
  {
    hide RunEnd, RegexEnd, SignedEnd, NumberEnd, WordEnd;
    assert s[..1] == [s[0]];
    if |s| > 1 {
      assert s[..2] == [s[0], s[1]];
    }
  }

  lemma TermTrims(f: string, value: string, env: Env)
    requires PlainWord(f, env) && Sane(env) && value != "" && !Blank(value[|value| - 1])
    ensures TrimSpace(f + (":" + value)) == f + (":" + value)
  {
    IdentEnds(f, env);
    Untrimmed(f + (":" + value));
  }

  lemma QuotedChip(f: string, v: string, env: Env)
    requires PlainWord(f, env) && Sane(env) && Chips.Special(v)
    ensures Parse(f + (":" + Chips.QuoteIfNeeded(v)), env) == Filtered(Eq([f], v)) <==> !Chips.Has(v, '*')
  {
    hide Parse, StringFrom, Chips.Has, Chips.Special, IsIdent, TrimSpace;
    var value := Chips.QuoteIfNeeded(v);
    QuotedReads("\"", v, NO_QUOTE);
    assert value == "\"" + (Chips.Escaped(v) + "\"");
    assert value[0] == '"' && value[|value| - 1] == '"';
    assert NO_QUOTE.text + v == v;
    TermTrims(f, value, env);
    FieldMeans(f, value, v, env);
    QuotedValue(f, Next(value, true, env).0, env);
  }

  lemma QuotedValue(f: string, t: Token, env: Env)
    requires t.kind == TString
    ensures PlainValue([f], t, env) == Some(Eq([f], t.text)) <==> t.parts.None?
  {
  }

  lemma BareValue(f: string, v: string, t: Token, env: Env)
    requires t.kind != TString && t.text == v && !('*' in v)
    ensures PlainValue([f], t, env) == Some(Eq([f], v)) <==> (t.kind == TStar ==> SplitRegex(v).None?)
  {
    hide SplitRegex;
  }

  lemma {:induction false} TrimsToShorter(s: string, n: nat)
    requires n < |s| && !Blank(s[n])
    ensures n < |TrimEnd(s)| <= |s| && TrimEnd(s) == s[..|TrimEnd(s)|] && !Blank(TrimEnd(s)[|TrimEnd(s)| - 1])
    ensures Blank(s[|s| - 1]) ==> |TrimEnd(s)| < |s|
    decreases |s|
  {
    hide Blank;
    if Blank(s[|s| - 1]) {
      TrimsToShorter(s[..|s| - 1], n);
    }
  }

  /** A bare value with a blank of the server's at its end comes out shorter. */
  lemma BlankEndLost(f: string, v: string, env: Env)
    requires PlainWord(f, env) && Sane(env) && !Chips.Special(v) && v != "" && Blank(v[|v| - 1])
    ensures Parse(f + (":" + v), env) != Filtered(Eq([f], v))
  {
    hide RawTokens, Next, Blank, Chips.Special;
    BareChars(v);
    var s := f + (":" + v);
    IdentEnds(f, env);
    ColonStays();
    assert s[|f|] == ':' && s[0] == f[0];
    TrimsToShorter(s, |f|);
    var m := |TrimEnd(s)|;
    var v' := v[..m - |f| - 1];
    assert TrimEnd(s) == f + (":" + v');
    assert TrimStart(s) == s;
    if v' == "" {
      assert ":" + v' == ":";
      EmptyValue(s, f, env);
    } else {
      assert v'[0] == v[0];
      SameParse(s, f + (":" + v'), env);
      assert (f + (":" + v'))[m - 1] == v'[|v'| - 1];
      TermTrims(f, v', env);
      FieldMeans(f, v', v, env);
      WordText(v', true, env);
    }
  }

  lemma EmptyValue(s: string, f: string, env: Env)
    requires PlainWord(f, env) && TrimSpace(s) == f + ":"
    ensures Parse(s, env) == Malformed
  {
    hide RawTokens, IsIdent, TrimSpace, Joined, ParseOr;
    var ts := [Tok(TIdent, f), COLON];
    assert ":" + "" == ":";
    FieldRaw(f, "", env);
    RawEnd("", true, env);
    JoinedPlain(None, ts, []);
    JoinedNothing(Some(COLON));
    assert [Tok(TIdent, f)] + ([COLON] + []) == ts && ts + [] == ts;
    NoValueParses(f, env);
  }

  lemma NoValueParses(f: string, env: Env)
    ensures ParseOr([Tok(TIdent, f), COLON], env) == Err
  {
    var ts := [Tok(TIdent, f), COLON];
    assert ts[1..] == [COLON] && [COLON][1..] == [];
    assert Segments([f], [COLON]) == ([f], [COLON]);
    assert ParseTerm(ts, env) == Err;
    assert ParseNot(ts, env) == Err;
  }

  lemma ColonStays()
    ensures !Blank(':')
  {
  }

  lemma SameParse(s: string, s': string, env: Env)
    requires TrimSpace(s) == s' && TrimSpace(s') == s'
    ensures Parse(s, env) == Parse(s', env)
  {
    hide TrimSpace, ParseOr;
  }

  lemma BareChip(f: string, v: string, env: Env)
    requires PlainWord(f, env) && Sane(env) && !Chips.Special(v)
    ensures Parse(f + (":" + v), env) == Filtered(Eq([f], v)) <==> OneToken(v, env)
  {
    hide Parse, Next, Chips.Special, IsIdent, TrimSpace, Blank;
    BareChars(v);
    if Blank(v[|v| - 1]) {
      BlankEndLost(f, v, env);
    } else {
      TermTrims(f, v, env);
      WordText(v, true, env);
      FieldMeans(f, v, v, env);
      var (t, n) := Next(v, true, env);
      if t.text == v {
        BareValue(f, v, t, env);
        assert |v[..n]| == n;
      }
    }
  }

  /** What an equality chip on a plain field means to the server: the equality that it shows, if and only if
      its value is carried: a quoted value without a star, or a bare one that is a single token. */
  lemma ChipMeans(f: string, v: string, env: Env)
    requires PlainWord(f, env) && Sane(env)
    ensures Parse(Chips.ClauseToTerm(Chips.Clause(f, Chips.EqOp, v, "")), env) == Filtered(Eq([f], v)) <==>
        Carried(v, env)
  {
    hide Parse, Chips.Special, IsIdent, OneToken, Chips.ClauseToTerm;
    ChipText(f, v, env);
    if Chips.Special(v) {
      QuotedChip(f, v, env);
    } else {
      BareText(v);
      BareChip(f, v, env);
    }
  }

  lemma BareText(v: string)
    requires !Chips.Special(v)
    ensures Chips.QuoteIfNeeded(v) == v
  {
  }

  /** A word breaks off here in value position. */
  predicate BreaksAt(v: string, i: nat)
    requires i < |v|
  {
    v[i] in "@<>" || (v[i] == '.' && (i + 1 == |v| || v[i + 1] == '.'))
  }

  lemma {:induction false} WordWhole(v: string, j: nat)
    requires !Chips.Special(v) && j <= |v|
    ensures WordEnd(v, j, true) == |v| <==> forall i :: j <= i < |v| ==> !BreaksAt(v, i)
    decreases |v| - j
  {
    hide BreaksAt;
    if j < |v| {
      WordWhole(v, j + 1);
      BreakHere(v, j);
      assert (forall i :: j <= i < |v| ==> !BreaksAt(v, i)) <==> !BreaksAt(v, j) && forall i :: j + 1 <= i < |v| ==>
          !BreaksAt(v, i);
    }
  }

  lemma BreakHere(v: string, j: nat)
    requires !Chips.Special(v) && j < |v|
    ensures WordEnd(v, j, true) == if BreaksAt(v, j) then j else WordEnd(v, j + 1, true)
  {
    assert !Chips.NeedsQuotes(v[j]);
    assert !IsSpace(v[j]) && (IsDelim(v[j]) <==> v[j] in "@.<>");
    if j + 1 < |v| {
      assert !Chips.NeedsQuotes(v[j + 1]);
      assert !IsSpace(v[j + 1]);
    }
  }

  /** For a bare value that starts like a word: it is carried if and only if nothing in it breaks off a word,
      it is no keyword, and it does not end in a blank of the server's. */
  lemma WordCarried(v: string, env: Env)
    requires !Chips.Special(v) && v != "" && StartsWord(v[0])
    ensures Carried(v, env) <==>
              !Keyword(v) && !Blank(v[|v| - 1]) && forall i :: 0 <= i < |v| ==> !BreaksAt(v, i)
  {
    hide Chips.Special, Blank, WordEnd, SplitRegex, IsIdent;
    WordWhole(v, 0);
    var n := WordEnd(v, 0, true);
    assert Next(v, true, env) == (Word(v[..n], env), n);
    if n == |v| {
      assert v[..n] == v;
      NoLiteral(v);
    }
  }

  lemma NoLiteral(v: string)
    requires v != "" && v[0] != '/'
    ensures SplitRegex(v) == None
  {
  }

  /** An address stays bare, and the server breaks it at the @. */
  lemma AddressSplits(f: string, env: Env)
    requires PlainWord(f, env) && Sane(env)
    ensures Chips.QuoteIfNeeded("a@b.com") == "a@b.com"
    ensures Parse(Chips.ClauseToTerm(Chips.Clause(f, Chips.EqOp, "a@b.com", "")), env) != Filtered(Eq([f], "a@b.com"))
  {
    hide Parse, Chips.ClauseToTerm, IsIdent;
    var v := "a@b.com";
    assert !Chips.Special(v);
    assert StartsWord(v[0]) && BreaksAt(v, 1);
    WordCarried(v, env);
    ChipMeans(f, v, env);
  }
}
