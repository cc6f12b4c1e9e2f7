/** The tokenizer of the filter language. */
module Lexing {
  import opened Options
  import opened Globs

  datatype TokenKind =
    | TIdent | TString | TNumber | TColon | TDot | TAt | TLParen | TRParen | TLBracket | TRBracket
    | TDotDot | TCmp | TStar | TDash | TAnd | TOr | TNot

  /** `parts` is there only for quoted strings with an unescaped star. */
  datatype Token = Token(kind: TokenKind, text: string, num: real, parts: Option<seq<GlobPart>>)

  /** What the parser takes from its platform: letters and digits beyond ASCII, the value of a numeral,
      and which regular expressions compile. */
  datatype Env = Env(letter: char -> bool, digit: char -> bool, numeral: string -> real, compiles: string -> bool)

  function Tok(kind: TokenKind, text: string): Token {
    Token(kind, text, 0.0, None)
  }

  /** The token for a run of whitespace. */
  const SPACE := Tok(TAnd, " ")

  predicate IsSpace(c: char) {
    c == ' ' || c == '\t'
  }

  predicate IsDigit(c: char) {
    '0' <= c <= '9'
  }

  predicate IsIdentStart(c: char) {
    c == '_' || 'a' <= c <= 'z' || 'A' <= c <= 'Z'
  }

  predicate IsDelim(c: char) {
    c in "():@[]\".><"
  }

  predicate IsOpening(c: char) {
    IsIdentStart(c) || c == '(' || c == '@' || c == '"'
  }

  predicate IsIdentChar(c: char, first: bool, env: Env) {
    IsIdentStart(c) || (c as int >= 128 && env.letter(c)) ||
        (!first && (IsDigit(c) || (c as int >= 128 && env.digit(c))))
  }

  predicate IsIdent(s: string, env: Env) {
    s != "" && forall i :: 0 <= i < |s| ==> IsIdentChar(s[i], i == 0, env)
  }

  predicate StopsRun(c: char) {
    IsSpace(c) || c == '(' || c == ')' || c == '"'
  }

  /** Where a glob run ends that has reached j. */
  function RunEnd(s: string, j: nat): (r: nat)
    requires j <= |s|
    ensures j <= r <= |s|
    decreases |s| - j
  {
    if j < |s| && !StopsRun(s[j]) then RunEnd(s, j + 1) else j
  }

  method ConsumeGlobRun(s: string, i: nat) returns (j: nat)
    requires i < |s|
    ensures j == RunEnd(s, i + 1)
  {
    j := i + 1;
    while j < |s|
      invariant i < j <= |s| && RunEnd(s, j) == RunEnd(s, i + 1)
    {
      if StopsRun(s[j]) {
        break;
      }
      j := j + 1;
    }
  }

  function FlagsEnd(s: string, j: nat): (r: nat)
    requires j <= |s|
    ensures j <= r <= |s|
    decreases |s| - j
  {
    if j < |s| && (s[j] == 'i' || s[j] == 'g') then FlagsEnd(s, j + 1) else j
  }

  /** Where a regular expression literal ends whose body has reached j, if it is closed at all. */
  function RegexEnd(s: string, j: nat): (r: Option<nat>)
    requires j <= |s|
    ensures r.Some? ==> j < r.value <= |s|
    decreases |s| - j
  {
    if j >= |s| || IsSpace(s[j]) then None
    else if s[j] == '\\' && j + 1 < |s| then RegexEnd(s, j + 2)
    else if s[j] == '/' then Some(FlagsEnd(s, j + 1))
    else RegexEnd(s, j + 1)
  }

  method ScanRegexLiteral(s: string, i: nat) returns (end: Option<nat>)
    requires i < |s| && s[i] == '/'
    ensures end == RegexEnd(s, i + 1)
  {
    var j := i + 1;
    while j < |s|
      invariant i < j <= |s| && RegexEnd(s, j) == RegexEnd(s, i + 1)
    {
      if IsSpace(s[j]) {
        return None;
      }
      if s[j] == '\\' && j + 1 < |s| {
        j := j + 2;
        continue;
      }
      if s[j] == '/' {
        var k := j + 1;
        while k < |s| && (s[k] == 'i' || s[k] == 'g')
          invariant j < k <= |s| && FlagsEnd(s, k) == FlagsEnd(s, j + 1)
        {
          k := k + 1;
        }
        return Some(k);
      }
      j := j + 1;
    }
    return None;
  }

  /** Digits and dots after a minus sign. */
  function SignedEnd(s: string, j: nat): (r: nat)
    requires j <= |s|
    ensures j <= r <= |s|
    decreases |s| - j
  {
    if j < |s| && (IsDigit(s[j]) || s[j] == '.') then SignedEnd(s, j + 1) else j
  }

  /** Digits, and single dots between digits. */
  function NumberEnd(s: string, j: nat): (r: nat)
    requires j <= |s|
    ensures j <= r <= |s|
    decreases |s| - j
  {
    if j < |s| && (IsDigit(s[j]) || (s[j] == '.' && j + 1 < |s| && IsDigit(s[j + 1]))) then NumberEnd(s, j + 1) else j
  }

  method ScanNumber(s: string, i: nat, signed: bool) returns (j: nat)
    requires i < |s| && (!signed ==> IsDigit(s[i]))
    ensures j == if signed then SignedEnd(s, i + 1) else NumberEnd(s, i)
  {
    j := if signed then i + 1 else i;
    if signed {
      while j < |s| && (IsDigit(s[j]) || s[j] == '.')
        invariant i < j <= |s| && SignedEnd(s, j) == SignedEnd(s, i + 1)
      {
        j := j + 1;
      }
    } else {
      while j < |s|
        invariant i <= j <= |s| && NumberEnd(s, j) == NumberEnd(s, i)
      {
        if IsDigit(s[j]) || (s[j] == '.' && j + 1 < |s| && s[j + 1] != '.' && IsDigit(s[j + 1])) {
          j := j + 1;
          continue;
        }
        break;
      }
    }
  }

  /** The end of a word; in value position it may contain single dots. */
  function WordEnd(s: string, j: nat, inVal: bool): (r: nat)
    requires j <= |s|
    ensures j <= r <= |s|
    decreases |s| - j
  {
    if j >= |s| || IsSpace(s[j]) then j
    else if inVal && s[j] == '.' && j + 1 < |s| && s[j + 1] != '.' && !IsSpace(s[j + 1]) then WordEnd(s, j + 1, inVal)
    else if IsDelim(s[j]) then j
    else WordEnd(s, j + 1, inVal)
  }

  method ScanWord(s: string, i: nat, inVal: bool) returns (j: nat)
    requires i < |s|
    ensures j == WordEnd(s, i, inVal)
  {
    j := i;
    while j < |s| && !IsSpace(s[j])
      invariant i <= j <= |s| && WordEnd(s, j, inVal) == WordEnd(s, i, inVal)
    {
      if inVal && s[j] == '.' && j + 1 < |s| && s[j + 1] != '.' && !IsSpace(s[j + 1]) {
        j := j + 1;
        continue;
      }
      if IsDelim(s[j]) {
        break;
      }
      j := j + 1;
    }
  }

  /** A quoted string that has been read up to j: its text, the literal being collected, the parts so
      far, and whether a wild was seen. */
  datatype Quoting = Quoting(text: string, lit: string, parts: seq<GlobPart>, wild: bool) {
    function Char(c: char): Quoting {
      this.(text := text + [c], lit := lit + [c])
    }

    function Flushed(): Quoting {
      if lit == "" then this else this.(lit := "", parts := parts + [Lit(lit)])
    }

    function Star(): Quoting {
      var q := Flushed();
      q.(text := q.text + "*", parts := q.parts + [WILD], wild := true)
    }

    function Done(): Token {
      Token(TString, text, 0.0, if wild then Some(Flushed().parts) else None)
    }
  }

  /** The token of a quoted string and the index after it; a missing closing quote is tolerated. */
  function StringFrom(s: string, j: nat, q: Quoting): (r: (Token, nat))
    requires j <= |s|
    ensures j <= r.1 <= |s|
    decreases |s| - j
  {
    if j >= |s| then (q.Done(), j)
    else if s[j] == '"' then (q.Done(), j + 1)
    else if s[j] == '\\' && j + 1 < |s| then StringFrom(s, j + 2, q.Char(s[j + 1]))
    else if s[j] == '*' then StringFrom(s, j + 1, q.Star())
    else StringFrom(s, j + 1, q.Char(s[j]))
  }

  const NO_QUOTE := Quoting("", "", [], false)

  method ScanString(s: string, i: nat) returns (tok: Token, end: nat)
    requires i < |s| && s[i] == '"'
    ensures (tok, end) == StringFrom(s, i + 1, NO_QUOTE)
  {
    var j := i + 1;
    var text, lit, parts, sawWild := "", "", [], false;
    while j < |s| && s[j] != '"'
      invariant i < j <= |s|
      invariant StringFrom(s, j, Quoting(text, lit, parts, sawWild)) == StringFrom(s, i + 1, NO_QUOTE)
    {
      if s[j] == '\\' && j + 1 < |s| {
        text, lit := text + [s[j + 1]], lit + [s[j + 1]];
        j := j + 2;
        continue;
      }
      if s[j] == '*' {
        text := text + "*";
        sawWild := true;
        if |lit| > 0 {
          parts := parts + [Lit(lit)];
          lit := "";
        }
        parts := parts + [WILD];
        j := j + 1;
        continue;
      }
      text, lit := text + [s[j]], lit + [s[j]];
      j := j + 1;
    }
    end := if j < |s| then j + 1 else j;
    if sawWild && |lit| > 0 {
      parts := parts + [Lit(lit)];
    }
    tok := Token(TString, text, 0.0, if sawWild then Some(parts) else None);
  }

  function Word(word: string, env: Env): Token {
    if word == "AND" || word == "and" then Tok(TAnd, word)
    else if word == "OR" || word == "or" then Tok(TOr, word)
    else if word == "NOT" || word == "not" then Tok(TNot, word)
    else if IsIdent(word, env) then Tok(TIdent, word)
    else Tok(TStar, word)
  }

  function SpacesEnd(s: string, j: nat): (r: nat)
    requires j <= |s|
    ensures j <= r <= |s|
    decreases |s| - j
  {
    if j < |s| && IsSpace(s[j]) then SpacesEnd(s, j + 1) else j
  }

  function Run(s: string): (Token, nat)
    requires s != ""
  {
    var j := RunEnd(s, 1);
    (Tok(TStar, s[..j]), j)
  }

  /** The first token of s and how many characters it takes; `inVal` tells whether a value is expected. */
  function Next(s: string, inVal: bool, env: Env): (r: (Token, nat))
    requires s != ""
    ensures 0 < r.1 <= |s|
  {
    var c := s[0];
    if IsSpace(c) then (SPACE, SpacesEnd(s, 1))
    else if c == '(' then (Tok(TLParen, "("), 1)
    else if c == ')' then (Tok(TRParen, ")"), 1)
    else if c == ':' then (Tok(TColon, ":"), 1)
    else if c == '@' then (Tok(TAt, "@"), 1)
    else if c == '[' then
      if |s| > 1 && (IsDigit(s[1]) || s[1] == '-') then (Tok(TLBracket, "["), 1) else Run(s)
    else if c == ']' then (Tok(TRBracket, "]"), 1)
    else if c == '.' then
      if |s| > 1 && s[1] == '.' then (Tok(TDotDot, ".."), 2) else (Tok(TDot, "."), 1)
    else if c == '/' then
      var end := RegexEnd(s, 1);
      if inVal && end.Some? then (Tok(TStar, s[..end.value]), end.value) else Run(s)
    else if c == '>' || c == '<' then
      if inVal && |s| > 1 && (s[1] == '=' || IsDigit(s[1]) || IsIdentStart(s[1])) then
        if s[1] == '=' then (Tok(TCmp, [c, '=']), 2) else (Tok(TCmp, [c]), 1)
      else Run(s)
    else if c == '!' then
      if |s| == 1 || IsOpening(s[1]) then (Tok(TDash, "!"), 1) else Run(s)
    else if c == '-' then
      if |s| > 1 && IsDigit(s[1]) && inVal then
        var j := SignedEnd(s, 1);
        (Token(TNumber, s[..j], env.numeral(s[..j]), None), j)
      else if |s| == 1 || IsOpening(s[1]) then (Tok(TDash, "-"), 1)
      else Run(s)
    else if c == '"' then StringFrom(s, 1, NO_QUOTE)
    else if IsDigit(c) then
      var j := NumberEnd(s, 0);
      (Token(TNumber, s[..j], env.numeral(s[..j]), None), j)
    else
      var j := WordEnd(s, 0, inVal);
      (Word(s[..j], env), j)
  }

  /** The pieces of the text that the tokens come from. */
  function Pieces(s: string, inVal: bool, env: Env): seq<string>
    decreases |s|
  {
    if s == "" then []
    else
      var (tok, n) := Next(s, inVal, env);
      [s[..n]] + Pieces(s[n..], Expects(tok, inVal), env)
  }

  function Flat(pieces: seq<string>): string {
    if pieces == [] then "" else pieces[0] + Flat(pieces[1..])
  }

  /** The piece that a token was read from. */
  ghost predicate ReadFrom(tok: Token, piece: string) {
    && piece != ""
    && if tok == SPACE then forall i :: 0 <= i < |piece| ==> IsSpace(piece[i])
       else if tok.kind == TString then piece[0] == '"'
       else piece == tok.text
  }

  lemma {:induction false} SpacesOnly(s: string, j: nat)
    requires j <= |s|
    ensures forall i :: j <= i < SpacesEnd(s, j) ==> IsSpace(s[i])
    decreases |s| - j
  {
    if j < |s| && IsSpace(s[j]) {
      SpacesOnly(s, j + 1);
    }
  }

  lemma {:induction false} StringKind(s: string, j: nat, q: Quoting)
    requires j <= |s|
    ensures StringFrom(s, j, q).0.kind == TString
    decreases |s| - j
  {
    if j < |s| && s[j] != '"' {
      if s[j] == '\\' && j + 1 < |s| {
        StringKind(s, j + 2, q.Char(s[j + 1]));
      } else if s[j] == '*' {
        StringKind(s, j + 1, q.Star());
      } else {
        StringKind(s, j + 1, q.Char(s[j]));
      }
    }
  }

  lemma NextReads(s: string, inVal: bool, env: Env)
    requires s != ""
    ensures ReadFrom(Next(s, inVal, env).0, s[..Next(s, inVal, env).1])
  {
    SpacesOnly(s, 1);
    StringKind(s, 1, NO_QUOTE);
    assert s[..1] == [s[0]];
    if |s| > 1 {
      assert s[..2] == [s[0], s[1]];
    }
  }

  /** The raw tokens tile the text from left to right, without a gap or an overlap. */
  lemma {:induction false} PiecesTile(s: string, inVal: bool, env: Env)
    ensures Flat(Pieces(s, inVal, env)) == s
    ensures |Pieces(s, inVal, env)| == |RawTokens(s, inVal, env)|
    ensures forall k :: 0 <= k < |RawTokens(s, inVal, env)| ==>
        ReadFrom(RawTokens(s, inVal, env)[k], Pieces(s, inVal, env)[k])
    decreases |s|
  {
    hide Next, ReadFrom;
    if s != "" {
      NextReads(s, inVal, env);
      var (tok, n) := Next(s, inVal, env);
      PiecesTile(s[n..], Expects(tok, inVal), env);
      assert s == s[..n] + s[n..];
    }
  }

  /** Whether the last token that is not whitespace asks for a value. */
  predicate Expecting(toks: seq<Token>)
    decreases |toks|
  {
    if toks == [] then false
    else if toks[|toks| - 1] == SPACE then Expecting(toks[..|toks| - 1])
    else toks[|toks| - 1].kind in {TColon, TLBracket, TDotDot, TCmp}
  }

  /** The tokens of the text, whitespace included, after what was read before. */
  function RawTokens(s: string, inVal: bool, env: Env): seq<Token>
    decreases |s|
  {
    if s == "" then []
    else
      var (tok, n) := Next(s, inVal, env);
      [tok] + RawTokens(s[n..], Expects(tok, inVal), env)
  }

  /** What the next token may expect. */
  predicate Expects(tok: Token, inVal: bool) {
    if tok == SPACE then inVal else tok.kind in {TColon, TLBracket, TDotDot, TCmp}
  }

  predicate IsCloser(k: TokenKind) {
    k in {TIdent, TString, TNumber, TStar, TRParen, TRBracket}
  }

  predicate IsOpener(k: TokenKind) {
    k in {TIdent, TString, TNumber, TStar, TLParen, TAt, TDash, TNot}
  }

  /** The whitespace token before toks[0] joins two operands. */
  predicate Joins(last: Option<Token>, toks: seq<Token>) {
    last.Some? && toks != [] && IsCloser(last.value.kind) && IsOpener(toks[0].kind)
  }

  /** Whitespace stays only where it joins two operands. */
  function Joined(last: Option<Token>, toks: seq<Token>): seq<Token>
    decreases |toks|
  {
    if toks == [] then []
    else if toks[0] == SPACE && !Joins(last, toks[1..]) then Joined(last, toks[1..])
    else [toks[0]] + Joined(Some(toks[0]), toks[1..])
  }

  /** The tokens that the parser sees. */
  function Tokens(s: string, env: Env): seq<Token> {
    Joined(None, RawTokens(s, false, env))
  }

  lemma {:induction false} ShiftRun(s: string, i: nat, j: nat)
    requires i <= j <= |s|
    ensures RunEnd(s, j) == i + RunEnd(s[i..], j - i)
    decreases |s| - j
  {
    if j < |s| {
      ShiftRun(s, i, j + 1);
    }
  }

  lemma {:induction false} ShiftFlags(s: string, i: nat, j: nat)
    requires i <= j <= |s|
    ensures FlagsEnd(s, j) == i + FlagsEnd(s[i..], j - i)
    decreases |s| - j
  {
    if j < |s| {
      ShiftFlags(s, i, j + 1);
    }
  }

  lemma {:induction false} ShiftRegex(s: string, i: nat, j: nat)
    requires i <= j <= |s|
    ensures RegexEnd(s, j) == if RegexEnd(s[i..], j - i).None? then None else Some(i + RegexEnd(s[i..], j - i).value)
    decreases |s| - j
  {
    if j < |s| {
      ShiftFlags(s, i, j + 1);
      ShiftRegex(s, i, j + 1);
      if j + 1 < |s| {
        ShiftRegex(s, i, j + 2);
      }
    }
  }

  lemma {:induction false} ShiftSigned(s: string, i: nat, j: nat)
    requires i <= j <= |s|
    ensures SignedEnd(s, j) == i + SignedEnd(s[i..], j - i)
    decreases |s| - j
  {
    if j < |s| {
      ShiftSigned(s, i, j + 1);
    }
  }

  lemma {:induction false} ShiftNumber(s: string, i: nat, j: nat)
    requires i <= j <= |s|
    ensures NumberEnd(s, j) == i + NumberEnd(s[i..], j - i)
    decreases |s| - j
  {
    if j < |s| {
      ShiftNumber(s, i, j + 1);
    }
  }

  lemma {:induction false} ShiftWord(s: string, i: nat, j: nat, inVal: bool)
    requires i <= j <= |s|
    ensures WordEnd(s, j, inVal) == i + WordEnd(s[i..], j - i, inVal)
    decreases |s| - j
  {
    if j < |s| {
      ShiftWord(s, i, j + 1, inVal);
    }
  }

  lemma {:induction false} ShiftSpaces(s: string, i: nat, j: nat)
    requires i <= j <= |s|
    ensures SpacesEnd(s, j) == i + SpacesEnd(s[i..], j - i)
    decreases |s| - j
  {
    if j < |s| {
      ShiftSpaces(s, i, j + 1);
    }
  }

  lemma {:induction false} ShiftString(s: string, i: nat, j: nat, q: Quoting)
    requires i <= j <= |s|
    ensures StringFrom(s, j, q).0 == StringFrom(s[i..], j - i, q).0
    ensures StringFrom(s, j, q).1 == i + StringFrom(s[i..], j - i, q).1
    decreases |s| - j
  {
    if j < |s| && s[j] != '"' {
      if s[j] == '\\' && j + 1 < |s| {
        ShiftString(s, i, j + 2, q.Char(s[j + 1]));
      } else if s[j] == '*' {
        ShiftString(s, i, j + 1, q.Star());
      } else {
        ShiftString(s, i, j + 1, q.Char(s[j]));
      }
    }
  }

  lemma ExpectingAfter(toks: seq<Token>, tok: Token)
    ensures Expecting(toks + [tok]) == Expects(tok, Expecting(toks))
  {
    assert (toks + [tok])[..|toks|] == toks;
  }

  method ExpectingValue(toks: seq<Token>) returns (yes: bool)
    ensures yes == Expecting(toks)
  {
    var i := |toks|;
    assert toks[..i] == toks;
    while i > 0
      invariant i <= |toks| && Expecting(toks[..i]) == Expecting(toks)
    {
      i := i - 1;
      var t := toks[i];
      assert toks[..i + 1][..i] == toks[..i];
      if t == SPACE {
        continue;
      }
      return t.kind in {TColon, TLBracket, TDotDot, TCmp};
    }
    return false;
  }

  /** A run of characters as one glob token. */
  method GlobToken(s: string, i: nat) returns (tok: Token, j: nat)
    requires i < |s|
    ensures i < j <= |s| && (tok, j - i) == Run(s[i..])
  {
    j := ConsumeGlobRun(s, i);
    ShiftRun(s, i, i + 1);
    tok := Tok(TStar, s[i..j]);
    assert s[i..][..j - i] == s[i..j];
  }

  /** The token at s[i] and the index after it. */
  method NextToken(s: string, i: nat, inVal: bool, env: Env) returns (tok: Token, j: nat)
    requires i < |s|
    ensures i < j <= |s| && (tok, j - i) == Next(s[i..], inVal, env)
  {
    hide RunEnd, RegexEnd, SignedEnd, NumberEnd, WordEnd, SpacesEnd, StringFrom, Word;
    var c := s[i];
    j := i + 1;
    if IsSpace(c) {
      j := SkipSpaces(s, i);
      tok := SPACE;
    } else if c == '(' {
      tok := Tok(TLParen, "(");
    } else if c == ')' {
      tok := Tok(TRParen, ")");
    } else if c == ':' {
      tok := Tok(TColon, ":");
    } else if c == '@' {
      tok := Tok(TAt, "@");
    } else if c == '[' {
      if i + 1 < |s| && (IsDigit(s[i + 1]) || s[i + 1] == '-') {
        tok := Tok(TLBracket, "[");
      } else {
        tok, j := GlobToken(s, i);
      }
    } else if c == ']' {
      tok := Tok(TRBracket, "]");
    } else if c == '.' {
      if i + 1 < |s| && s[i + 1] == '.' {
        tok, j := Tok(TDotDot, ".."), i + 2;
      } else {
        tok := Tok(TDot, ".");
      }
    } else if c == '/' {
      tok, j := SlashToken(s, i, inVal);
    } else if c == '>' || c == '<' {
      if inVal && i + 1 < |s| && (s[i + 1] == '=' || IsDigit(s[i + 1]) || IsIdentStart(s[i + 1])) {
        tok := Tok(TCmp, [c]);
        if s[i + 1] == '=' {
          tok, j := Tok(TCmp, [c, '=']), i + 2;
        }
      } else {
        tok, j := GlobToken(s, i);
      }
    } else if c == '!' {
      if i + 1 < |s| && !IsOpening(s[i + 1]) {
        tok, j := GlobToken(s, i);
      } else {
        tok := Tok(TDash, "!");
      }
    } else if c == '-' {
      if i + 1 < |s| && IsDigit(s[i + 1]) && inVal {
        tok, j := NumberToken(s, i, true, env);
      } else if i + 1 < |s| && !IsOpening(s[i + 1]) {
        tok, j := GlobToken(s, i);
      } else {
        tok := Tok(TDash, "-");
      }
    } else if c == '"' {
      tok, j := ScanString(s, i);
      ShiftString(s, i, i + 1, NO_QUOTE);
    } else if IsDigit(c) {
      tok, j := NumberToken(s, i, false, env);
    } else {
      j := ScanWord(s, i, inVal);
      ShiftWord(s, i, i, inVal);
      tok := Word(s[i..j], env);
      assert s[i..][..j - i] == s[i..j];
      assert Next(s[i..], inVal, env).1 == j - i;
    }
  }

  method SkipSpaces(s: string, i: nat) returns (j: nat)
    requires i < |s|
    ensures i < j <= |s| && j - i == SpacesEnd(s[i..], 1)
  {
    j := i + 1;
    while j < |s| && IsSpace(s[j])
      invariant i < j <= |s| && SpacesEnd(s, j) == SpacesEnd(s, i + 1)
    {
      j := j + 1;
    }
    ShiftSpaces(s, i, i + 1);
  }

  method SlashToken(s: string, i: nat, inVal: bool) returns (tok: Token, j: nat)
    requires i < |s| && s[i] == '/'
    ensures i < j <= |s|
    ensures (tok, j - i) == var end := RegexEnd(s[i..], 1);
                            if inVal && end.Some? then (Tok(TStar, s[i..][..end.value]), end.value) else Run(s[i..])
  {
    if inVal {
      var end := ScanRegexLiteral(s, i);
      ShiftRegex(s, i, i + 1);
      if end.Some? {
        assert s[i..][..end.value - i] == s[i..end.value];
        return Tok(TStar, s[i..end.value]), end.value;
      }
    }
    tok, j := GlobToken(s, i);
  }

  method NumberToken(s: string, i: nat, signed: bool, env: Env) returns (tok: Token, j: nat)
    requires i < |s| && (if signed then s[i] == '-' else IsDigit(s[i]))
    ensures i < j <= |s| && j - i == if signed then SignedEnd(s[i..], 1) else NumberEnd(s[i..], 0)
    ensures tok == Token(TNumber, s[i..][..j - i], env.numeral(s[i..][..j - i]), None)
  {
    j := ScanNumber(s, i, signed);
    ShiftSigned(s, i, i + 1);
    ShiftNumber(s, i, i);
    assert s[i..][..j - i] == s[i..j];
    tok := Token(TNumber, s[i..j], env.numeral(s[i..j]), None);
  }

  /** The tokenizer: every step takes at least one character, and what it has collected is what the
      text so far stands for. */
  method Tokenize(s: string, env: Env) returns (toks: seq<Token>)
    ensures toks == Tokens(s, env)
  {
    hide Next, RawTokens, Expecting, Expects, Joined;
    toks := [];
    var i := 0;
    assert s[0..] == s;
    RawEnd("", false, env);
    while i < |s|
      invariant i <= |s|
      invariant RawTokens(s, false, env) == toks + RawTokens(s[i..], Expecting(toks), env)
    {
      var inVal := ExpectingValue(toks);
      var tok, j := NextToken(s, i, inVal, env);
      RawStep(s, i, j, inVal, env);
      ExpectingAfter(toks, tok);
      toks := toks + [tok];
      i := j;
    }
    RawEnd(s[i..], Expecting(toks), env);
    assert toks == RawTokens(s, false, env);
    toks := DropSpaces(toks);
  }

  lemma RawStep(s: string, i: nat, j: nat, inVal: bool, env: Env)
    requires i < |s| && i < j <= |s| && j - i == Next(s[i..], inVal, env).1
    ensures RawTokens(s[i..], inVal, env)
         == [Next(s[i..], inVal, env).0] + RawTokens(s[j..], Expects(Next(s[i..], inVal, env).0, inVal), env)
  {
    hide Next;
    assert s[i..][j - i..] == s[j..];
  }

  lemma RawEnd(s: string, inVal: bool, env: Env)
    requires s == ""
    ensures RawTokens(s, inVal, env) == [] && !Expecting([])
  {
  }

  /** Removes whitespace tokens that do not join two operands. */
  method DropSpaces(toks: seq<Token>) returns (out: seq<Token>)
    ensures out == Joined(None, toks)
  {
    hide Joined;
    out := [];
    var i := 0;
    assert toks[0..] == toks;
    while i < |toks|
      invariant 0 <= i <= |toks|
      invariant Joined(None, toks) == out + Joined(LastOf(out), toks[i..])
    {
      JoinedAt(toks, i, LastOf(out));
      var t := toks[i];
      i := i + 1;
      if t == SPACE {
        if |out| == 0 || i >= |toks| {
          continue;
        }
        var prev, next := out[|out| - 1], toks[i];
        if !(IsCloser(prev.kind) && IsOpener(next.kind)) {
          continue;
        }
      }
      out := out + [t];
    }
    JoinedAt(toks, i, LastOf(out));
  }

  ghost function LastOf(out: seq<Token>): Option<Token> {
    if out == [] then None else Some(out[|out| - 1])
  }

  lemma JoinedAt(toks: seq<Token>, i: nat, last: Option<Token>)
    requires i <= |toks|
    ensures i == |toks| ==> Joined(last, toks[i..]) == []
    ensures i < |toks| ==>
              (Joins(last, toks[i + 1..])
               <==> last.Some? && i + 1 < |toks| && IsCloser(last.value.kind) && IsOpener(toks[i + 1].kind))
    ensures i < |toks| ==>
              Joined(last, toks[i..])
              == if toks[i] == SPACE && !Joins(last, toks[i + 1..]) then Joined(last, toks[i + 1..])
                 else [toks[i]] + Joined(Some(toks[i]), toks[i + 1..])
  {
    if i < |toks| {
      assert toks[i..][1..] == toks[i + 1..];
    }
  }
}
