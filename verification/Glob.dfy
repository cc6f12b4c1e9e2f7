/** Glob patterns in quoted filter values: the matcher, and what it does and does not find. */
module Globs {

  /** One segment: a literal, or a wild that stands for any text. */
  datatype GlobPart = GlobPart(lit: string, wild: bool)

  function Lit(text: string): GlobPart {
    GlobPart(text, false)
  }

  const WILD := GlobPart("", true)

  /** The meaning of a pattern: the text splits into pieces, one for each part. */
  ghost predicate Fits(s: string, parts: seq<GlobPart>)
    decreases |parts|
  {
    if parts == [] then s == ""
    else if parts[0].wild then exists k :: 0 <= k <= |s| && Fits(s[k..], parts[1..])
    else parts[0].lit <= s && Fits(s[|parts[0].lit|..], parts[1..])
  }

  /** Where t first occurs in s, or -1. */
  function Index(s: string, t: string): (r: int)
    ensures -1 <= r && r + |t| <= |s| + (if r < 0 then |t| else 0)
  {
    if t <= s then 0
    else if s == "" then -1
    else
      var r := Index(s[1..], t);
      if r < 0 then -1 else r + 1
  }

  lemma {:induction false} IndexOccurs(s: string, t: string)
    requires Index(s, t) >= 0
    ensures t <= s[Index(s, t)..]
    decreases |s|
  {
    if !(t <= s) {
      IndexOccurs(s[1..], t);
      assert s[Index(s, t)..] == s[1..][Index(s[1..], t)..];
    }
  }

  lemma {:induction false} IndexLeast(s: string, t: string, k: nat)
    requires k <= |s| && t <= s[k..]
    ensures 0 <= Index(s, t) <= k
    decreases |s|
  {
    if !(t <= s) {
      assert k > 0 by { assert s[0..] == s; }
      assert s[k..] == s[1..][k - 1..];
      IndexLeast(s[1..], t, k - 1);
    }
  }

  predicate StandsAt(s: string, t: string, i: nat) {
    i + |t| <= |s| && s[i..i + |t|] == t
  }

  /** The text stands somewhere in s. */
  ghost predicate Occurs(s: string, t: string) {
    exists i: nat :: StandsAt(s, t, i)
  }

  /** A text is found exactly if it stands somewhere. */
  lemma IndexIff(s: string, t: string)
    ensures Index(s, t) >= 0 <==> Occurs(s, t)
  {
    if Index(s, t) >= 0 {
      IndexOccurs(s, t);
      var i: nat := Index(s, t);
      assert s[i..][..|t|] == t;
      assert StandsAt(s, t, i);
    }
    if Occurs(s, t) {
      var i: nat :| StandsAt(s, t, i);
      assert s[i..][..|t|] == t;
      IndexLeast(s, t, i);
    }
  }

  /** The rest of a match: `rest` is the text not yet consumed, `parts` the parts not yet seen, and
      `open` whether the whole pattern ends in a wild. */
  function Scan(rest: string, parts: seq<GlobPart>, open: bool): bool
    decreases |parts|
  {
    if parts == [] then open || rest == ""
    else if !parts[0].wild then parts[0].lit <= rest && Scan(rest[|parts[0].lit|..], parts[1..], open)
    else if |parts| == 1 then true
    else if parts[1].wild then Scan(rest, parts[2..], open)
    else
      var at := Index(rest, parts[1].lit);
      at >= 0 && Scan(rest[at + |parts[1].lit|..], parts[2..], open)
  }

  function Matches(s: string, parts: seq<GlobPart>): bool {
    if parts == [] then s == "" else Scan(s, parts, parts[|parts| - 1].wild)
  }

  /** One step of a match from index i of the text and index idx of the parts. */
  lemma ScanAt(s: string, i: nat, parts: seq<GlobPart>, idx: nat, open: bool)
    requires i <= |s| && idx < |parts|
    ensures !parts[idx].wild ==>
              Scan(s[i..], parts[idx..], open)
              == (parts[idx].lit <= s[i..] && Scan(s[i..][|parts[idx].lit|..], parts[idx + 1..], open))
    ensures parts[idx].wild && idx + 1 == |parts| ==> Scan(s[i..], parts[idx..], open)
    ensures parts[idx].wild && idx + 1 < |parts| && parts[idx + 1].wild ==>
              Scan(s[i..], parts[idx..], open) == Scan(s[i..], parts[idx + 2..], open)
    ensures parts[idx].wild && idx + 1 < |parts| && !parts[idx + 1].wild ==>
              var at := Index(s[i..], parts[idx + 1].lit);
              Scan(s[i..], parts[idx..], open)
              == (at >= 0 && Scan(s[i..][at + |parts[idx + 1].lit|..], parts[idx + 2..], open))
  {
    var ps := parts[idx..];
    assert ps[1..] == parts[idx + 1..];
    if idx + 1 < |parts| {
      assert ps[2..] == parts[idx + 2..];
    }
  }

  lemma ScanEnd(s: string, i: nat, parts: seq<GlobPart>, open: bool)
    requires i <= |s|
    ensures Scan(s[i..], parts[|parts|..], open) == (open || i == |s|)
    ensures s[0..] == s && parts[0..] == parts
  {
  }

  lemma DropDrop(s: string, i: nat, n: nat)
    requires i + n <= |s|
    ensures s[i..][n..] == s[i + n..]
  {
  }

  method MatchGlob(s: string, parts: seq<GlobPart>) returns (ok: bool)
    ensures ok == Matches(s, parts)
  {
    hide Scan;
    if |parts| == 0 {
      return s == "";
    }
    ghost var open := parts[|parts| - 1].wild;
    var idx, i := 0, 0;
    ScanEnd(s, 0, parts, open);
    if !parts[0].wild {
      ScanAt(s, 0, parts, 0, open);
      if !(parts[0].lit <= s) {
        return false;
      }
      i := |parts[0].lit|;
      idx := 1;
    }
    while idx < |parts|
      invariant 0 <= idx <= |parts| && 0 <= i <= |s|
      invariant Matches(s, parts) == Scan(s[i..], parts[idx..], open)
    {
      ScanAt(s, i, parts, idx, open);
      var p := parts[idx];
      idx := idx + 1;
      if p.wild {
        if idx >= |parts| {
          return true;
        }
        var next := parts[idx];
        idx := idx + 1;
        if next.wild {
          continue;
        }
        var pos := Index(s[i..], next.lit);
        if pos < 0 {
          return false;
        }
        DropDrop(s, i, pos + |next.lit|);
        i := i + pos + |next.lit|;
        continue;
      }
      if !(p.lit <= s[i..]) {
        return false;
      }
      DropDrop(s, i, |p.lit|);
      i := i + |p.lit|;
    }
    ScanEnd(s, i, parts, open);
    if !parts[|parts| - 1].wild {
      return i == |s|;
    }
    return true;
  }

  /** Soundness, for every list of parts: what the matcher accepts fits the pattern. */
  lemma MatchFits(s: string, parts: seq<GlobPart>)
    requires Matches(s, parts)
    ensures Fits(s, parts)
  {
    if parts != [] {
      ScanFits(s, parts, parts[|parts| - 1].wild);
    }
  }

  ghost predicate Opens(parts: seq<GlobPart>, open: bool) {
    if parts == [] then !open else open == parts[|parts| - 1].wild
  }

  lemma {:induction false} ScanFits(s: string, parts: seq<GlobPart>, open: bool)
    requires Scan(s, parts, open) && Opens(parts, open)
    ensures Fits(s, parts)
    decreases |parts|
  {
    if parts == [] {
    } else if !parts[0].wild {
      ScanFits(s[|parts[0].lit|..], parts[1..], open);
    } else if |parts| == 1 {
      assert Fits(s[|s|..], parts[1..]);
    } else if parts[1].wild {
      TwoWilds(s, parts, open);
    } else {
      var at := Index(s, parts[1].lit);
      IndexOccurs(s, parts[1].lit);
      ScanFits(s[at + |parts[1].lit|..], parts[2..], open);
      LiteralThen(s, at, parts);
    }
  }

  lemma TwoWilds(s: string, parts: seq<GlobPart>, open: bool)
    requires |parts| >= 2 && parts[0].wild && parts[1].wild
    requires Scan(s, parts[2..], open) && Opens(parts, open)
    ensures Fits(s, parts)
    decreases |parts|, 0
  {
    assert parts[1..][1..] == parts[2..];
    var k := if |parts| == 2 then |s| else 0;
    assert s[k..][0..] == s[k..];
    if |parts| > 2 {
      assert s[0..] == s;
      ScanFits(s, parts[2..], open);
    }
    assert Fits(s[k..], parts[2..]);
    assert Fits(s[k..], parts[1..]);
  }

  /** Literals and wilds take turns. */
  ghost predicate Alternating(parts: seq<GlobPart>) {
    forall i :: 0 <= i < |parts| - 1 ==> parts[i].wild != parts[i + 1].wild
  }

  lemma FitsLater(s: string, k: nat, parts: seq<GlobPart>)
    requires parts != [] && parts[0].wild && k <= |s| && Fits(s[k..], parts)
    ensures Fits(s, parts)
  {
    var j :| 0 <= j <= |s[k..]| && Fits(s[k..][j..], parts[1..]);
    assert s[k..][j..] == s[k + j..];
  }

  lemma LiteralThen(s: string, k: nat, parts: seq<GlobPart>)
    requires |parts| >= 2 && !parts[1].wild && k <= |s|
    ensures Fits(s[k..], parts[1..])
       <==> parts[1].lit <= s[k..] && k + |parts[1].lit| <= |s| && Fits(s[k + |parts[1].lit|..], parts[2..])
  {
    assert parts[1..][1..] == parts[2..];
    if parts[1].lit <= s[k..] {
      assert s[k..][|parts[1].lit|..] == s[k + |parts[1].lit|..];
    }
  }

  /** The exchange argument: before another wild, the first occurrence of a literal is as good as any. */
  lemma FirstIsEnough(s: string, parts: seq<GlobPart>)
    requires |parts| > 2 && parts[0].wild && !parts[1].wild && parts[2].wild
    ensures var at := Index(s, parts[1].lit);
            Fits(s, parts) <==> at >= 0 && Fits(s[at + |parts[1].lit|..], parts[2..])
  {
    var lit := parts[1].lit;
    var at := Index(s, lit);
    if Fits(s, parts) {
      var k :| 0 <= k <= |s| && Fits(s[k..], parts[1..]);
      FirstInstead(s, parts, k);
    }
    if at >= 0 && Fits(s[at + |lit|..], parts[2..]) {
      IndexOccurs(s, lit);
      LiteralThen(s, at, parts);
      assert Fits(s[at..], parts[1..]);
    }
  }

  lemma FirstInstead(s: string, parts: seq<GlobPart>, k: nat)
    requires |parts| > 2 && parts[0].wild && !parts[1].wild && parts[2].wild
    requires k <= |s| && Fits(s[k..], parts[1..])
    ensures var at := Index(s, parts[1].lit); at >= 0 && Fits(s[at + |parts[1].lit|..], parts[2..])
  {
    hide Fits;
    var lit := parts[1].lit;
    var at := Index(s, lit);
    LiteralThen(s, k, parts);
    IndexLeast(s, lit, k);
    assert s[k + |lit|..] == s[at + |lit|..][k - at..];
    FitsLater(s[at + |lit|..], k - at, parts[2..]);
  }

  /** Completeness for patterns that end in a wild. */
  lemma {:induction false} OpenComplete(s: string, parts: seq<GlobPart>)
    requires parts != [] && Alternating(parts) && parts[|parts| - 1].wild
    ensures Matches(s, parts) <==> Fits(s, parts)
    decreases |parts|
  {
    if Matches(s, parts) {
      MatchFits(s, parts);
    }
    if Fits(s, parts) && |parts| > 1 {
      if !parts[0].wild {
        OpenComplete(s[|parts[0].lit|..], parts[1..]);
      } else {
        assert parts[0].wild != parts[1].wild;
        assert |parts| > 2 && parts[1].wild != parts[2].wild;
        FirstIsEnough(s, parts);
        OpenComplete(s[Index(s, parts[1].lit) + |parts[1].lit|..], parts[2..]);
      }
    }
  }

  /** No shorter text that s starts with fits. */
  ghost predicate Shortest(s: string, parts: seq<GlobPart>) {
    forall n :: 0 <= n < |s| ==> !Fits(s[..n], parts)
  }

  /** Exactly what a pattern that ends in a literal finds: the texts that fit and do not merely extend
      a shorter text that fits. The last literal is tried at its first occurrence only. */
  lemma {:induction false} ClosedExact(s: string, parts: seq<GlobPart>)
    requires parts != [] && Alternating(parts) && !parts[|parts| - 1].wild
    ensures Matches(s, parts) <==> Fits(s, parts) && Shortest(s, parts)
    decreases |parts|
  {
    hide Fits, Matches, Scan, Shortest;
    if |parts| == 1 {
      OneLiteral(s, parts);
    } else if !parts[0].wild {
      var lit := parts[0].lit;
      LeadingMatches(s, parts);
      if lit <= s {
        ClosedExact(s[|lit|..], parts[1..]);
        LeadingLiteral(s, parts);
      }
    } else {
      assert parts[0].wild != parts[1].wild;
      if |parts| == 2 {
        LastLiteral(s, parts);
      } else {
        assert parts[1].wild != parts[2].wild;
        FirstIsEnough(s, parts);
        InnerMatches(s, parts);
        var at := Index(s, parts[1].lit);
        if at >= 0 {
          ClosedExact(s[at + |parts[1].lit|..], parts[2..]);
          InnerLiteral(s, parts);
        }
      }
    }
  }

  lemma LeadingMatches(s: string, parts: seq<GlobPart>)
    requires |parts| > 1 && !parts[0].wild
    ensures Matches(s, parts) <==> parts[0].lit <= s && Matches(s[|parts[0].lit|..], parts[1..])
    ensures Fits(s, parts) <==> parts[0].lit <= s && Fits(s[|parts[0].lit|..], parts[1..])
  {
    assert parts[1..][|parts| - 2] == parts[|parts| - 1];
  }

  lemma InnerMatches(s: string, parts: seq<GlobPart>)
    requires |parts| > 2 && parts[0].wild && !parts[1].wild
    ensures var at := Index(s, parts[1].lit);
            Matches(s, parts) <==> at >= 0 && Matches(s[at + |parts[1].lit|..], parts[2..])
  {
    assert parts[2..][|parts| - 3] == parts[|parts| - 1];
  }

  lemma EndOfParts(s: string)
    ensures Fits(s, []) <==> s == ""
    ensures Scan(s, [], false) <==> s == ""
  {
  }

  lemma OneLiteral(s: string, parts: seq<GlobPart>)
    requires |parts| == 1 && !parts[0].wild
    ensures Fits(s, parts) <==> s == parts[0].lit
    ensures Matches(s, parts) <==> s == parts[0].lit
    ensures s == parts[0].lit ==> Shortest(s, parts)
  {
    assert parts[1..] == [];
    EndOfParts(s);
    if parts[0].lit <= s {
      EndOfParts(s[|parts[0].lit|..]);
      assert s == parts[0].lit + s[|parts[0].lit|..];
    }
  }

  lemma LeadingLiteral(s: string, parts: seq<GlobPart>)
    requires |parts| > 1 && !parts[0].wild && parts[0].lit <= s
    ensures Shortest(s, parts) <==> Shortest(s[|parts[0].lit|..], parts[1..])
  {
    var lit := parts[0].lit;
    forall n | 0 <= n < |s|
      ensures Fits(s[..n], parts) <==> n >= |lit| && Fits(s[|lit|..][..n - |lit|], parts[1..])
    {
      if n >= |lit| {
        assert s[..n][|lit|..] == s[|lit|..][..n - |lit|];
      }
    }
    ShortestAfter(s, |lit|, parts, parts[1..]);
  }

  lemma InnerLiteral(s: string, parts: seq<GlobPart>)
    requires |parts| > 2 && parts[0].wild && !parts[1].wild && parts[2].wild && Index(s, parts[1].lit) >= 0
    ensures Shortest(s, parts) <==> Shortest(s[Index(s, parts[1].lit) + |parts[1].lit|..], parts[2..])
  {
    hide Fits, Shortest;
    var lit := parts[1].lit;
    var cut := Index(s, lit) + |lit|;
    forall n | 0 <= n < |s| ensures Fits(s[..n], parts) <==> n >= cut && Fits(s[cut..][..n - cut], parts[2..]) {
      FirstIsEnough(s[..n], parts);
      IndexInPrefix(s, lit, n);
      if n >= cut {
        assert s[..n][cut..] == s[cut..][..n - cut];
      }
    }
    ShortestAfter(s, cut, parts, parts[2..]);
  }

  lemma ShortestAfter(s: string, cut: nat, parts: seq<GlobPart>, later: seq<GlobPart>)
    requires cut <= |s|
    requires forall n :: 0 <= n < |s| ==> (Fits(s[..n], parts) <==> n >= cut && Fits(s[cut..][..n - cut], later))
    ensures Shortest(s, parts) <==> Shortest(s[cut..], later)
  {
    if Shortest(s, parts) {
      forall n | 0 <= n < |s[cut..]| ensures !Fits(s[cut..][..n], later) {
        assert !Fits(s[..n + cut], parts);
      }
    }
  }

  lemma IndexInPrefix(s: string, lit: string, n: nat)
    requires n <= |s| && Index(s, lit) >= 0
    ensures n >= Index(s, lit) + |lit| ==> Index(s[..n], lit) == Index(s, lit)
    ensures n < Index(s, lit) + |lit| ==> Index(s[..n], lit) < 0
  {
    var at, at' := Index(s, lit), Index(s[..n], lit);
    IndexOccurs(s, lit);
    if at' >= 0 {
      IndexOccurs(s[..n], lit);
      PrefixOccurs(s, lit, n, at');
      IndexLeast(s, lit, at');
    }
    if n >= at + |lit| {
      PrefixOccurs(s, lit, n, at);
      IndexLeast(s[..n], lit, at);
    }
  }

  lemma PrefixOccurs(s: string, lit: string, n: nat, k: nat)
    requires k <= n <= |s|
    ensures lit <= s[..n][k..] <==> lit <= s[k..] && k + |lit| <= n
  {
    if k + |lit| <= n {
      assert s[..n][k..][..|lit|] == s[k..][..|lit|];
    }
  }

  lemma MatchesAtFirst(s: string, parts: seq<GlobPart>)
    requires |parts| == 2 && parts[0].wild && !parts[1].wild
    ensures Matches(s, parts) <==> Index(s, parts[1].lit) >= 0 && Index(s, parts[1].lit) + |parts[1].lit| == |s|
  {
    hide Index, Scan, Fits;
    var n := Index(s, parts[1].lit) + |parts[1].lit|;
    ScanAt(s, 0, parts, 0, false);
    assert s[0..] == s && parts[0..] == parts && parts[2..] == [];
    if Index(s, parts[1].lit) >= 0 {
      EndOfParts(s[n..]);
    }
  }

  lemma LastLiteral(s: string, parts: seq<GlobPart>)
    requires |parts| == 2 && parts[0].wild && !parts[1].wild
    ensures Matches(s, parts) <==> Fits(s, parts) && Shortest(s, parts)
  {
    hide Fits, Matches, Scan;
    var lit := parts[1].lit;
    var at := Index(s, lit);
    MatchesAtFirst(s, parts);
    if at >= 0 {
      IndexOccurs(s, lit);
      var n := at + |lit|;
      assert s[..n][at..] == lit;
      EndsIn(s[..n], parts, at);
      if n == |s| {
        assert s[..n] == s;
      }
      forall m | 0 <= m <= |s| && Fits(s[..m], parts) ensures n <= m {
        var k := WhereLast(s[..m], parts);
        PrefixOccurs(s, lit, m, k);
        IndexLeast(s, lit, k);
      }
    } else if Fits(s, parts) {
      var k := WhereLast(s, parts);
      IndexLeast(s, lit, k);
    }
  }

  lemma EndsIn(t: string, parts: seq<GlobPart>, k: nat)
    requires |parts| == 2 && parts[0].wild && !parts[1].wild && k <= |t| && t[k..] == parts[1].lit
    ensures Fits(t, parts)
  {
    assert Fits(t[k..], parts[1..]);
  }

  lemma WhereLast(t: string, parts: seq<GlobPart>) returns (k: nat)
    requires |parts| == 2 && parts[0].wild && !parts[1].wild && Fits(t, parts)
    ensures k <= |t| && t[k..] == parts[1].lit
  {
    k :| 0 <= k <= |t| && Fits(t[k..], parts[1..]);
    LiteralThen(t, k, parts);
    assert parts[2..] == [];
    EndOfParts(t[k + |parts[1].lit|..]);
    assert t[k..] == parts[1].lit + t[k..][|parts[1].lit|..];
  }

  /** What is left of a pattern when, from the left, every wild that a wild follows is dropped together with
      the one that follows. */
  function Halved(parts: seq<GlobPart>): seq<GlobPart>
    decreases |parts|
  {
    if |parts| < 2 then parts
    else if !parts[0].wild then [parts[0]] + Halved(parts[1..])
    else if parts[1].wild then Halved(parts[2..])
    else parts[..2] + Halved(parts[2..])
  }

  /** The pattern that is searched for: the halved one, ending in a wild if the original did. */
  function Effective(parts: seq<GlobPart>): seq<GlobPart> {
    var h := Halved(parts);
    if parts != [] && parts[|parts| - 1].wild && (h == [] || !h[|h| - 1].wild) then h + [WILD] else h
  }

  lemma {:induction false} ScanHalved(s: string, parts: seq<GlobPart>, open: bool)
    ensures Scan(s, parts, open) == Scan(s, Halved(parts), open)
    decreases |parts|
  {
    if |parts| >= 2 {
      if !parts[0].wild {
        assert ([parts[0]] + Halved(parts[1..]))[1..] == Halved(parts[1..]);
        if parts[0].lit <= s {
          ScanHalved(s[|parts[0].lit|..], parts[1..], open);
        }
      } else if parts[1].wild {
        ScanHalved(s, parts[2..], open);
      } else {
        assert (parts[..2] + Halved(parts[2..]))[2..] == Halved(parts[2..]);
        var at := Index(s, parts[1].lit);
        if at >= 0 {
          ScanHalved(s[at + |parts[1].lit|..], parts[2..], open);
        }
      }
    }
  }

  /** In an open pattern a wild at the end goes without saying. */
  lemma {:induction false} ScanOpened(s: string, parts: seq<GlobPart>)
    requires parts == [] || !parts[|parts| - 1].wild
    ensures Scan(s, parts, true) == Scan(s, parts + [WILD], true)
    decreases |parts|
  {
    var more := parts + [WILD];
    if parts != [] {
      assert more[1..] == parts[1..] + [WILD];
      if !parts[0].wild {
        if parts[0].lit <= s {
          ScanOpened(s[|parts[0].lit|..], parts[1..]);
        }
      } else {
        assert more[2..] == parts[2..] + [WILD];
        var at := Index(s, parts[1].lit);
        if parts[1].wild {
          ScanOpened(s, parts[2..]);
        } else if at >= 0 {
          ScanOpened(s[at + |parts[1].lit|..], parts[2..]);
        }
      }
    }
  }

  /** A literal at the end stays at the end. */
  lemma {:induction false} HalvedEnds(parts: seq<GlobPart>)
    requires parts != [] && !parts[|parts| - 1].wild
    ensures Halved(parts) != [] && Halved(parts)[|Halved(parts)| - 1] == parts[|parts| - 1]
    decreases |parts|
  {
    if |parts| >= 2 {
      if !parts[0].wild {
        HalvedEnds(parts[1..]);
      } else if |parts| > 2 {
        HalvedEnds(parts[2..]);
      }
    }
  }

  /** Every list of parts finds what its effective pattern finds. */
  lemma MatchesEffective(s: string, parts: seq<GlobPart>)
    ensures Matches(s, parts) == Matches(s, Effective(parts))
    ensures parts != [] ==>
              Effective(parts) != [] && Effective(parts)[|Effective(parts)| - 1].wild == parts[|parts| - 1].wild
  {
    hide Scan, Halved;
    if parts == [] {
      HalvedNothing();
    } else {
      ScanHalved(s, parts, parts[|parts| - 1].wild);
      if parts[|parts| - 1].wild {
        var h := Halved(parts);
        if h == [] || !h[|h| - 1].wild {
          ScanOpened(s, h);
        }
      } else {
        HalvedEnds(parts);
      }
    }
  }

  lemma HalvedNothing()
    ensures Halved([]) == []
  {
  }

  /** Exactly what is found, for every list whose effective pattern alternates, two wilds in a row or not:
      the texts that fit the effective pattern and, if it ends in a literal, do not merely extend a shorter
      text that fits it. */
  lemma EffectiveExact(s: string, parts: seq<GlobPart>)
    requires Alternating(Effective(parts))
    ensures Matches(s, parts) <==>
              && Fits(s, Effective(parts))
              && (parts != [] && !parts[|parts| - 1].wild ==> Shortest(s, Effective(parts)))
  {
    hide Fits, Matches, Shortest, Effective, Alternating;
    MatchesEffective(s, parts);
    if parts == [] {
      NothingMatches(s);
    } else if parts[|parts| - 1].wild {
      OpenComplete(s, Effective(parts));
    } else {
      ClosedExact(s, Effective(parts));
    }
  }

  lemma NothingMatches(s: string)
    ensures Effective([]) == [] && (Matches(s, []) <==> Fits(s, []))
  {
  }

  lemma {:induction false} AlternatingIsHalved(parts: seq<GlobPart>)
    requires Alternating(parts)
    ensures Halved(parts) == parts
    decreases |parts|
  {
    if |parts| >= 2 {
      assert parts[0].wild != parts[1].wild;
      if !parts[0].wild {
        AlternatingIsHalved(parts[1..]);
        assert [parts[0]] + parts[1..] == parts;
      } else {
        AlternatingIsHalved(parts[2..]);
        assert parts[..2] + parts[2..] == parts;
      }
    }
  }

  /** An alternating pattern is its own effective pattern. */
  lemma AlternatingIsEffective(parts: seq<GlobPart>)
    requires Alternating(parts)
    ensures Effective(parts) == parts
  {
    hide Halved;
    AlternatingIsHalved(parts);
    HalvedNothing();
  }

  /** The pattern *ab misses abab, and two wilds in a row match nothing between them. */
  lemma Missed()
    ensures Fits("abab", [WILD, Lit("ab")]) && !Matches("abab", [WILD, Lit("ab")])
    ensures Fits("ba", [WILD, WILD, Lit("a")]) && !Matches("ba", [WILD, WILD, Lit("a")])
  {
    var p, q := [WILD, Lit("ab")], [WILD, Lit("a")];
    assert "abab"[2..] == "ab" && "abab"[..2] == "ab" && "ab"[0..] == "ab";
    EndsIn("abab", p, 2);
    EndsIn("abab"[..2], p, 0);
    ClosedExact("abab", p);
    assert "ba"[1..] == "a" && "ba"[0..] == "ba";
    EndsIn("ba", q, 1);
    assert ([WILD] + q)[1..] == q && ([WILD] + q)[2..] == [Lit("a")];
    assert Fits("ba"[0..], ([WILD] + q)[1..]);
    assert [WILD] + q == [WILD, WILD, Lit("a")];
    assert !Scan("ba", [Lit("a")], false);
  }
}
