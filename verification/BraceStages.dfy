/** The compile-time pass and the cook-time pass do not interfere: on which variable values the
    two in sequence are one simultaneous replacement, and that no other values will do. */
module BraceStages {
  import opened Wrappers
  import opened Braces

  // ---- the simultaneous replacement --------------------------------------

  function ReplaceOnce(t: Token, compileVars: Vars, cookVars: Vars): string {
    if t.Single? then Braces.Resolve(t, compileVars) else Instantiate(t, cookVars)
  }

  function ReplaceEach(ts: seq<Token>, compileVars: Vars, cookVars: Vars): string {
    if ts == [] then ""
    else ReplaceOnce(ts[0], compileVars, cookVars) + ReplaceEach(ts[1..], compileVars, cookVars)
  }

  /** Both grammars applied at once to the text as authored. */
  function AtOnce(alnum: char -> bool, s: string, compileVars: Vars, cookVars: Vars): string {
    ReplaceEach(Tokens(alnum, s), compileVars, cookVars)
  }

  lemma ReplaceCons(t: Token, ts: seq<Token>, compileVars: Vars, cookVars: Vars)
    ensures ReplaceEach([t] + ts, compileVars, cookVars) ==
            ReplaceOnce(t, compileVars, cookVars) + ReplaceEach(ts, compileVars, cookVars)
  {
    assert ([t] + ts)[1..] == ts;
  }

  // ---- values that cannot disturb the cook stage -------------------------

  /** Every double-brace opening is closed again, and the text does not end in a lone `{`. */
  predicate Closed(v: string)
    decreases |v|
  {
    if v == "" then true
    else if OpensDouble(v) then
      match Find(v[2..], "}}")
      case None => false
      case Some(e) => Closed(v[e + 4..])
    else v != "{" && Closed(v[1..])
  }

  /** Some closed double-brace token carries a legal variable name. */
  predicate HasLiveToken(v: string)
    decreases |v|
  {
    if v == "" then false
    else if OpensDouble(v) then
      match Find(v[2..], "}}")
      case None => false
      case Some(e) => Legal(v[2..2 + e]) || HasLiveToken(v[e + 4..])
    else HasLiveToken(v[1..])
  }

  predicate Inert(v: string) {
    Closed(v) && !HasLiveToken(v)
  }

  ghost predicate AllInert(alnum: char -> bool, vars: Vars) {
    forall k :: k in vars && IsWord(alnum, k) ==> Inert(vars[k])
  }

  /** In particular any value without an opening brace. */
  lemma {:induction false} BraceFreeIsInert(v: string)
    requires '{' !in v
    ensures Inert(v) && (forall t :: t in CookTokens(v) ==> t.Lit?)
    decreases |v|
  {
    if v != "" {
      BraceFreeIsInert(v[1..]);
      assert v[0] in v;
    }
  }

  lemma SliceInFront(v: string, rest: string, i: nat, j: nat)
    requires i <= j <= |v|
    ensures (v + rest)[i..j] == v[i..j] && (v + rest)[j..] == v[j..] + rest
  {
  }

  lemma AppendKeepsDouble(v: string, rest: string, e: nat)
    requires OpensDouble(v) && Find(v[2..], "}}") == Some(e)
    ensures e + 4 <= |v|
    ensures CookTokens(v) == [Double(v[2..2 + e])] + CookTokens(v[e + 4..])
    ensures CookTokens(v + rest) == [Double(v[2..2 + e])] + CookTokens(v[e + 4..] + rest)
  {
    var s := v + rest;
    assert s[2..] == v[2..] + rest;
    FindInPrefix(v[2..], rest, "}}");
    SliceInFront(v, rest, 2, 2 + e);
    SliceInFront(v, rest, 2, e + 4);
  }

  lemma AppendKeepsLit(v: string, rest: string)
    requires v != "" && v != "{" && !OpensDouble(v)
    ensures CookTokens(v) == [Lit(v[0])] + CookTokens(v[1..])
    ensures CookTokens(v + rest) == [Lit(v[0])] + CookTokens(v[1..] + rest)
  {
    var s := v + rest;
    assert s[1..] == v[1..] + rest && s[0] == v[0];
    assert |v| >= 2 ==> s[1] == v[1];
  }

  lemma Prepend(t: Token, a: seq<Token>, b: seq<Token>)
    ensures [t] + (a + b) == ([t] + a) + b
  {
  }

  /** What follows a closed text is read as if it stood alone. */
  lemma {:induction false} ClosedAppend(v: string, rest: string)
    requires Closed(v)
    ensures CookTokens(v + rest) == CookTokens(v) + CookTokens(rest)
    decreases |v|
  {
    if v == "" {
      assert v + rest == rest;
    } else if OpensDouble(v) {
      var e := Find(v[2..], "}}").value;
      AppendKeepsDouble(v, rest, e);
      var tail := v[e + 4..];
      ClosedAppend(tail, rest);
      Prepend(Double(v[2..2 + e]), CookTokens(tail), CookTokens(rest));
    } else {
      AppendKeepsLit(v, rest);
      var tail := v[1..];
      ClosedAppend(tail, rest);
      Prepend(Lit(v[0]), CookTokens(tail), CookTokens(rest));
    }
  }

  lemma {:induction false} InstantiateAppend(a: seq<Token>, b: seq<Token>, vars: Vars)
    ensures InstantiateAll(a + b, vars) == InstantiateAll(a, vars) + InstantiateAll(b, vars)
  {
    if a == [] {
      assert a + b == b;
    } else {
      assert (a + b)[1..] == a[1..] + b;
      InstantiateAppend(a[1..], b, vars);
    }
  }

  lemma CookAppend(v: string, rest: string, vars: Vars)
    requires Closed(v)
    ensures AtCook(v + rest, vars) == AtCook(v, vars) + AtCook(rest, vars)
  {
    ClosedAppend(v, rest);
    InstantiateAppend(CookTokens(v), CookTokens(rest), vars);
  }

  lemma DeadDoubleVerbatim(v: string, e: nat, vars: Vars)
    requires OpensDouble(v) && Find(v[2..], "}}") == Some(e) && !Legal(v[2..2 + e])
    requires AtCook(v[e + 4..], vars) == v[e + 4..]
    ensures AtCook(v, vars) == v
  {
    CookReadsDouble(v, e, vars);
    DoubleSource(v, e);
    assert v[..e + 4] + v[e + 4..] == v;
  }

  /** A text without a live token is cooked to itself. */
  lemma {:induction false} CookVerbatim(v: string, vars: Vars)
    requires !HasLiveToken(v)
    ensures AtCook(v, vars) == v
    decreases |v|
  {
    if v == "" {
    } else if OpensDouble(v) {
      match Find(v[2..], "}}")
      case None => CookReadsTail(v, vars);
      case Some(e) =>
        CookVerbatim(v[e + 4..], vars);
        DeadDoubleVerbatim(v, e, vars);
    } else {
      CookReadsChar(v, vars);
      CookVerbatim(v[1..], vars);
    }
  }

  // ---- the pieces a compiled text is made of -----------------------------

  /** The first occurrence is still found when the text behind it is left out. */
  lemma FindBeforeRest(cut: string, rest: string, pat: string, k: nat)
    requires Find(cut + rest, pat) == Some(k) && |cut| == k + |pat|
    ensures Find(cut, pat) == Some(k)
  {
    FindIsFirst(cut + rest, pat, k);
    forall j | 0 <= j <= k
      ensures OccursAt(cut + rest, pat, j) <==> OccursAt(cut, pat, j)
    {
      OccursInPrefix(cut, rest, pat, j);
    }
    FindIsFirst(cut, pat, k);
  }

  lemma SplitAt(s: string, n: nat)
    requires n <= |s|
    ensures s == s[..n] + s[n..]
  {
  }

  lemma FindInFirst(s: string, pat: string, k: nat)
    requires Find(s, pat) == Some(k)
    ensures k + |pat| <= |s| && Find(s[..k + |pat|], pat) == Some(k)
  {
    SplitAt(s, k + |pat|);
    FindBeforeRest(s[..k + |pat|], s[k + |pat|..], pat, k);
  }

  /** A double-brace token as it stands in the text is closed, and is one token. */
  lemma DoubleIsClosed(s: string, e: nat)
    requires OpensDouble(s) && Find(s[2..], "}}") == Some(e)
    ensures e + 4 <= |s| && Closed(s[..e + 4]) && CookTokens(s[..e + 4]) == [Double(s[2..2 + e])]
  {
    var v := s[..e + 4];
    FindInFirst(s[2..], "}}", e);
    assert v[2..] == s[2..][..e + 2];
    assert v[e + 4..] == "" && v[2..2 + e] == s[2..2 + e];
  }

  lemma WordHasNoBrace(alnum: char -> bool, n: string)
    requires BracesAreNoLetters(alnum) && IsWord(alnum, n)
    ensures '{' !in n && '}' !in n
  {
  }

  /** A single-brace token left as it is. */
  lemma VerbatimSingle(alnum: char -> bool, n: string)
    requires BracesAreNoLetters(alnum) && IsWord(alnum, n)
    ensures Inert(Source(Single(n))) && forall t :: t in CookTokens(Source(Single(n))) ==> t.Lit?
  {
    WordHasNoBrace(alnum, n);
    var v := Source(Single(n));
    assert v[1..] == n + "}" && v[1] == n[0];
    assert n[0] in n;
    BraceFreeIsInert(n + "}");
  }

  /** Only the text before an unread lone brace decides whether it opens a double: it does not. */
  lemma LoneBraceStaysLone(alnum: char -> bool, s: string, vars: Vars)
    requires s != "" && s[0] == '{' && !OpensDouble(s) && |s| >= 2
    ensures !OpensDouble([s[0]] + AtCompile(alnum, s[1..], vars))
  {
    ReadLit(alnum, s[1..], vars);
  }

  lemma CookOneChar(c: char, rest: string, vars: Vars)
    requires !OpensDouble([c] + rest)
    ensures AtCook([c] + rest, vars) == [c] + AtCook(rest, vars)
    ensures CookTokens([c] + rest) == [Lit(c)] + CookTokens(rest)
  {
    CookReadsChar([c] + rest, vars);
    assert ([c] + rest)[1..] == rest;
  }

  lemma AbsentMeansNotFound(s: string)
    requires '}' !in s
    ensures Find(s, "}}") == None
  {
    forall j | 0 <= j <= |s|
      ensures !OccursAt(s, "}}", j)
    {
      if j + 2 <= |s| {
        assert s[j..j + 2][0] == s[j] && s[j] in s;
      }
    }
    FindNone(s, "}}");
  }

  lemma {:induction false} NoClosingIsDead(s: string)
    requires '}' !in s
    ensures !HasLiveToken(s)
    decreases |s|
  {
    if s == "" {
    } else if OpensDouble(s) {
      AbsentMeansNotFound(s[2..]);
    } else {
      NoClosingIsDead(s[1..]);
    }
  }

  lemma NotFoundMeansAbsent(s: string)
    requires Find(s, "}") == None
    ensures '}' !in s
  {
    FindNone(s, "}");
    forall i | 0 <= i < |s|
      ensures s[i] != '}'
    {
      assert !OccursAt(s, "}", i);
      assert s[i..i + 1] == [s[i]];
    }
  }

  lemma TailIsVerbatim(s: string, vars: Vars)
    requires s != "" && s[0] == '{'
    requires if OpensDouble(s) then Find(s[2..], "}}") == None else Find(s[1..], "}") == None
    ensures AtCook(s, vars) == s
  {
    if !OpensDouble(s) {
      NotFoundMeansAbsent(s[1..]);
      assert forall i :: 1 <= i < |s| ==> s[i] == s[1..][i - 1];
      NoClosingIsDead(s);
    }
    CookVerbatim(s, vars);
  }

  // ---- the two stages are one replacement --------------------------------

  ghost predicate Agree(alnum: char -> bool, s: string, compileVars: Vars, cookVars: Vars) {
    AtCook(AtCompile(alnum, s, compileVars), cookVars) == AtOnce(alnum, s, compileVars, cookVars)
  }

  /** Inert values: cooking the compiled text is replacing both kinds of token at once. */
  lemma {:induction false} StagesAreSimultaneous(alnum: char -> bool, s: string, compileVars: Vars, cookVars: Vars)
    requires BracesAreNoLetters(alnum) && AllInert(alnum, compileVars)
    ensures Agree(alnum, s, compileVars, cookVars)
    decreases |s|
  {
    if s == "" {
    } else if s[0] != '{' {
      StagesAreSimultaneous(alnum, s[1..], compileVars, cookVars);
      AgreeAtLit(alnum, s, compileVars, cookVars);
    } else if OpensDouble(s) {
      match Find(s[2..], "}}")
      case None => AgreeAtTail(alnum, s, compileVars, cookVars);
      case Some(e) =>
        StagesAreSimultaneous(alnum, s[e + 4..], compileVars, cookVars);
        AgreeAtDouble(alnum, s, e, compileVars, cookVars);
    } else {
      match Find(s[1..], "}")
      case None => AgreeAtTail(alnum, s, compileVars, cookVars);
      case Some(e) =>
        if IsWord(alnum, s[1..1 + e]) {
          StagesAreSimultaneous(alnum, s[e + 2..], compileVars, cookVars);
          AgreeAtSingle(alnum, s, e, compileVars, cookVars);
        } else {
          StagesAreSimultaneous(alnum, s[1..], compileVars, cookVars);
          AgreeAtLit(alnum, s, compileVars, cookVars);
        }
    }
  }

  lemma AgreeAtDouble(alnum: char -> bool, s: string, e: nat, compileVars: Vars, cookVars: Vars)
    requires OpensDouble(s) && Find(s[2..], "}}") == Some(e)
    requires Agree(alnum, s[e + 4..], compileVars, cookVars)
    ensures Agree(alnum, s, compileVars, cookVars)
  {
    var t, rest := Double(s[2..2 + e]), s[e + 4..];
    ReadDouble(alnum, s, compileVars, e);
    DoubleIsClosed(s, e);
    CookAppend(s[..e + 4], AtCompile(alnum, rest, compileVars), cookVars);
    assert AtCook(s[..e + 4], cookVars) == Instantiate(t, cookVars) by {
      assert CookTokens(s[..e + 4]) == [t] + [];
      InstantiateCons(t, [], cookVars);
      assert Instantiate(t, cookVars) + InstantiateAll([], cookVars) == Instantiate(t, cookVars);
    }
    ReplaceCons(t, Tokens(alnum, rest), compileVars, cookVars);
  }

  lemma AgreeAtSingle(alnum: char -> bool, s: string, e: nat, compileVars: Vars, cookVars: Vars)
    requires BracesAreNoLetters(alnum) && AllInert(alnum, compileVars)
    requires s != "" && s[0] == '{' && !OpensDouble(s)
    requires Find(s[1..], "}") == Some(e) && IsWord(alnum, s[1..1 + e])
    requires Agree(alnum, s[e + 2..], compileVars, cookVars)
    ensures Agree(alnum, s, compileVars, cookVars)
  {
    var t, rest := Single(s[1..1 + e]), s[e + 2..];
    ReadSingle(alnum, s, compileVars, e);
    VerbatimSingle(alnum, t.name);
    var v := Braces.Resolve(t, compileVars);
    CookAppend(v, AtCompile(alnum, rest, compileVars), cookVars);
    CookVerbatim(v, cookVars);
    ReplaceCons(t, Tokens(alnum, rest), compileVars, cookVars);
  }

  lemma AgreeAtTail(alnum: char -> bool, s: string, compileVars: Vars, cookVars: Vars)
    requires s != "" && s[0] == '{'
    requires if OpensDouble(s) then Find(s[2..], "}}") == None else Find(s[1..], "}") == None
    ensures Agree(alnum, s, compileVars, cookVars)
  {
    ReadTail(alnum, s, compileVars);
    TailIsVerbatim(s, cookVars);
    ReplaceCons(Tail(s), [], compileVars, cookVars);
    assert Tokens(alnum, s) == [Tail(s)] + [];
    assert s + ReplaceEach([], compileVars, cookVars) == s;
  }

  lemma AgreeAtLit(alnum: char -> bool, s: string, compileVars: Vars, cookVars: Vars)
    requires s != "" && (s[0] != '{' || (!OpensDouble(s) && Find(s[1..], "}").Some? &&
                                         !IsWord(alnum, s[1..1 + Find(s[1..], "}").value])))
    requires Agree(alnum, s[1..], compileVars, cookVars)
    ensures Agree(alnum, s, compileVars, cookVars)
  {
    ReadLit(alnum, s, compileVars);
    if s[0] == '{' {
      LoneBraceStaysLone(alnum, s, compileVars);
    }
    CookOneChar(s[0], AtCompile(alnum, s[1..], compileVars), cookVars);
    ReplaceCons(Lit(s[0]), Tokens(alnum, s[1..]), compileVars, cookVars);
  }

  // ---- and no other values will do ---------------------------------------

  /** A live token of the text. */
  function LiveName(v: string): string
    requires HasLiveToken(v)
    decreases |v|
  {
    if OpensDouble(v) then
      var e := Find(v[2..], "}}").value;
      if Legal(v[2..2 + e]) then v[2..2 + e] else LiveName(v[e + 4..])
    else LiveName(v[1..])
  }

  /** Cooking with a name bound to nothing never lengthens a text, and shortens it when the name
      is one of its live tokens. */
  lemma {:induction false} CookErases(v: string, y: string)
    ensures |AtCook(v, map[y := ""])| <= |v|
    ensures HasLiveToken(v) && y == LiveName(v) ==> |AtCook(v, map[y := ""])| < |v|
    decreases |v|
  {
    if v == "" {
    } else if OpensDouble(v) {
      match Find(v[2..], "}}")
      case None => CookReadsTail(v, map[y := ""]);
      case Some(e) =>
        CookErases(v[e + 4..], y);
        CookReadsDouble(v, e, map[y := ""]);
        DoubleSource(v, e);
    } else {
      CookErases(v[1..], y);
      CookReadsChar(v, map[y := ""]);
    }
  }

  /** `{ {{y}}`: an unfinished opening swallows it, for want of a legal name, up to its last brace. */
  predicate IsProbe(p: string) {
    |p| == 7 && p[0] == '{' && p[1] == ' ' && IsEnd(p[2..])
  }

  predicate IsEnd(d: string) {
    |d| == 5 && d[0] == '{' && d[1] == '{' && d[2] == 'y' && d[3] == '}' && d[4] == '}'
  }

  const ERASE_Y: Vars := map["y" := ""]

  lemma ClosesAt(s: string, j: nat)
    ensures OccursAt(s, "}}", j) <==> j + 2 <= |s| && s[j] == '}' && s[j + 1] == '}'
  {
    if j + 2 <= |s| {
      assert s[j..j + 2] == [s[j], s[j + 1]];
    }
  }

  /** The first place where two closing braces stand side by side. */
  lemma FirstClose(s: string, k: nat)
    requires k + 2 <= |s| && s[k] == '}' && s[k + 1] == '}'
    requires forall j :: 0 <= j < k ==> s[j] != '}'
    ensures Find(s, "}}") == Some(k)
  {
    ClosesAt(s, k);
    forall j | 0 <= j < k
      ensures !OccursAt(s, "}}", j)
    {
      ClosesAt(s, j);
    }
    FindIsFirst(s, "}}", k);
  }

  lemma NoCloseAt(b: string, rest: string, j: nat)
    requires rest != "" && rest[0] != '}'
    requires !OccursAt(b, "}}", j) && (j >= |b| ==> !OccursAt(rest, "}}", j - |b|))
    ensures !OccursAt(b + rest, "}}", j)
  {
    ClosesAt(b + rest, j);
    ClosesAt(b, j);
    if j >= |b| {
      ClosesAt(rest, j - |b|);
    }
  }

  lemma NoCloseBefore(b: string, rest: string, k: nat)
    requires Find(b, "}}") == None && rest != "" && rest[0] != '}' && Find(rest, "}}") == Some(k)
    ensures forall j :: 0 <= j < |b| + k ==> !OccursAt(b + rest, "}}", j)
  {
    FindNone(b, "}}");
    FindIsFirst(rest, "}}", k);
    forall j | 0 <= j < |b| + k
      ensures !OccursAt(b + rest, "}}", j)
    {
      NoCloseAt(b, rest, j);
    }
  }

  /** Behind text without closing braces, the next pair is found where it stands. */
  lemma CloseBehind(b: string, rest: string, k: nat)
    requires Find(b, "}}") == None && rest != "" && rest[0] != '}' && Find(rest, "}}") == Some(k)
    ensures Find(b + rest, "}}") == Some(|b| + k)
  {
    var s := b + rest;
    ClosesAt(rest, k);
    assert s[|b| + k] == rest[k] && s[|b| + k + 1] == rest[k + 1];
    ClosesAt(s, |b| + k);
    NoCloseBefore(b, rest, k);
    FindIsFirst(s, "}}", |b| + k);
  }

  lemma ProbeCloses(p: string)
    requires IsProbe(p)
    ensures Find(p, "}}") == Some(5) && Find(p[1..], "}}") == Some(4)
  {
    assert p[3] == p[2..][1] && p[4] == p[2..][2] && p[5] == p[2..][3] && p[6] == p[2..][4];
    FirstClose(p, 5);
    FirstClose(p[1..], 4);
  }

  lemma SwallowedByDouble(v: string, p: string)
    requires OpensDouble(v) && Find(v[2..], "}}") == None && IsProbe(p)
    ensures AtCook(v + p, ERASE_Y) == v + p
  {
    var s, b := v + p, v[2..];
    assert s[2..] == b + p;
    ProbeCloses(p);
    CloseBehind(b, p, 5);
    assert s[2..][|b|] == p[0];
    WholeDoubleStays(s, |b| + 5, |b|);
  }

  /** A text that is one opening pair, closed at its very end, with a brace between. */
  lemma WholeDoubleStays(s: string, e: nat, k: nat)
    requires OpensDouble(s) && Find(s[2..], "}}") == Some(e) && |s| == e + 4
    requires k < e && s[2..][k] == '{'
    ensures AtCook(s, ERASE_Y) == s
  {
    var end := s[e + 4..];
    CookReadsDouble(s, e, ERASE_Y);
    assert s[2..2 + e][k] == '{';
    DoubleSource(s, e);
    assert end == "" && s[..e + 4] == s;
    assert AtCook(end, ERASE_Y) == end;
    assert s + end == s;
  }

  lemma SwallowedByLone(p: string)
    requires IsProbe(p)
    ensures AtCook("{" + p, ERASE_Y) == "{" + p
  {
    var s := "{" + p;
    assert s[2..] == p[1..];
    ProbeCloses(p);
    CookReadsDouble(s, 4, ERASE_Y);
    assert s[2..2 + 4][0] == p[1];
    DoubleSource(s, 4);
    assert s[8..] == "" && s[..8] + AtCook("", ERASE_Y) == s;
  }

  /** Behind a text left open, the probe's own token is lost. */
  lemma {:induction false} OpenSwallowsProbe(v: string, p: string)
    requires !Closed(v) && !HasLiveToken(v) && IsProbe(p)
    ensures AtCook(v + p, ERASE_Y) == v + p
    decreases |v|
  {
    if OpensDouble(v) {
      match Find(v[2..], "}}")
      case None => SwallowedByDouble(v, p);
      case Some(e) =>
        OpenSwallowsProbe(v[e + 4..], p);
        DeadDoubleBefore(v, p, e);
    } else if v == "{" {
      SwallowedByLone(p);
    } else {
      OpenSwallowsProbe(v[1..], p);
      CharBefore(v, p);
    }
  }

  lemma TailOfAppend(v: string, p: string)
    requires v != ""
    ensures (v + p)[1..] == v[1..] + p && [v[0]] + (v[1..] + p) == v + p
  {
  }

  lemma CharBefore(v: string, p: string)
    requires v != "" && v != "{" && !OpensDouble(v) && AtCook(v[1..] + p, ERASE_Y) == v[1..] + p
    ensures AtCook(v + p, ERASE_Y) == v + p
  {
    TailOfAppend(v, p);
    assert |v| == 1 ==> v == [v[0]];
    assert !OpensDouble(v + p);
    CookReadsChar(v + p, ERASE_Y);
  }

  lemma DeadDoubleBefore(v: string, p: string, e: nat)
    requires OpensDouble(v) && Find(v[2..], "}}") == Some(e) && !Legal(v[2..2 + e])
    requires AtCook(v[e + 4..] + p, ERASE_Y) == v[e + 4..] + p
    ensures AtCook(v + p, ERASE_Y) == v + p
  {
    var s := v + p;
    BehindDouble(v, p, e);
    DeadDoubleVerbatim(s, e, ERASE_Y);
  }

  lemma SliceOfAppend(v: string, p: string, i: nat, j: nat)
    requires i <= j <= |v|
    ensures (v + p)[i..j] == v[i..j] && (v + p)[j..] == v[j..] + p
  {
  }

  lemma BehindDouble(v: string, p: string, e: nat)
    requires OpensDouble(v) && Find(v[2..], "}}") == Some(e)
    ensures OpensDouble(v + p) && Find((v + p)[2..], "}}") == Some(e)
    ensures (v + p)[2..2 + e] == v[2..2 + e] && (v + p)[e + 4..] == v[e + 4..] + p
  {
    SliceOfAppend(v, p, 2, 2);
    SliceOfAppend(v, p, 2, 2 + e);
    SliceOfAppend(v, p, e + 4, e + 4);
    FindInPrefix(v[2..], p, "}}");
  }

  /** A text that is one compile-time variable and then `rest`. */
  lemma ReadVariable(alnum: char -> bool, k: string, rest: string, compileVars: Vars, cookVars: Vars)
    requires BracesAreNoLetters(alnum) && IsWord(alnum, k) && k in compileVars
    ensures AtCompile(alnum, Source(Single(k)) + rest, compileVars) ==
        compileVars[k] + AtCompile(alnum, rest, compileVars)
    ensures AtOnce(alnum, Source(Single(k)) + rest, compileVars, cookVars) ==
            compileVars[k] + AtOnce(alnum, rest, compileVars, cookVars)
  {
    var s := Source(Single(k)) + rest;
    assert s[1..] == (k + "}") + rest && s[1] == k[0];
    WordHasNoBrace(alnum, k);
    assert k[0] in k;
    FindAfterWord(k);
    FindInPrefix(k + "}", rest, "}");
    assert s[1..1 + |k|] == k && s[|k| + 2..] == rest;
    ReadSingle(alnum, s, compileVars, |k|);
    ReplaceCons(Single(k), Tokens(alnum, rest), compileVars, cookVars);
  }

  lemma BraceAt(s: string, j: nat)
    ensures OccursAt(s, "}", j) <==> j < |s| && s[j] == '}'
  {
    if j < |s| {
      assert s[j..j + 1] == [s[j]];
    }
  }

  lemma FindAfterWord(k: string)
    requires '}' !in k
    ensures Find(k + "}", "}") == Some(|k|)
  {
    var s := k + "}";
    BraceAt(s, |k|);
    forall j | 0 <= j < |k|
      ensures !OccursAt(s, "}", j)
    {
      BraceAt(s, j);
      assert s[j] == k[j] && k[j] in k;
    }
    FindIsFirst(s, "}", |k|);
  }

  lemma OnceReadsLit(alnum: char -> bool, s: string, compileVars: Vars, cookVars: Vars)
    requires s != "" && (s[0] != '{' || (!OpensDouble(s) && Find(s[1..], "}").Some? &&
                                         !IsWord(alnum, s[1..1 + Find(s[1..], "}").value])))
    ensures AtOnce(alnum, s, compileVars, cookVars) == [s[0]] + AtOnce(alnum, s[1..], compileVars, cookVars)
  {
    ReplaceCons(Lit(s[0]), Tokens(alnum, s[1..]), compileVars, cookVars);
  }

  /** A lone brace and the character behind it, when what follows opens no variable. */
  lemma LoneBraceReads(alnum: char -> bool, s: string, compileVars: Vars, cookVars: Vars, k: nat)
    requires BracesAreNoLetters(alnum) && |s| >= 3 && s[0] == s[2] == '{' && s[1] != '{'
    requires Find(s[1..], "}") == Some(k) && k >= 2
    ensures AtCompile(alnum, s, compileVars) == [s[0]] + ([s[1]] + AtCompile(alnum, s[2..], compileVars))
    ensures AtOnce(alnum, s, compileVars, cookVars) == [s[0]] + ([s[1]] + AtOnce(alnum, s[2..], compileVars, cookVars))
  {
    assert s[1..1 + k][1] == s[2];
    ReadLit(alnum, s, compileVars);
    OnceReadsLit(alnum, s, compileVars, cookVars);
    var t := s[1..];
    assert t[0] == s[1] && t[1..] == s[2..];
    ReadLit(alnum, t, compileVars);
    OnceReadsLit(alnum, t, compileVars, cookVars);
  }

  lemma ProbeOpens(p: string)
    requires IsProbe(p)
    ensures p[2] == '{' && Find(p[1..], "}") == Some(4)
  {
    var d, t := p[2..], p[1..];
    assert t[1] == d[0] && t[2] == d[1] && t[3] == d[2] && t[4] == d[3];
    var w := t[..4];
    assert '}' !in w;
    FindAfterWord(w);
    FindInPrefix(w + "}", t[5..], "}");
    assert t == (w + "}") + t[5..];
  }

  lemma ProbeParts(p: string)
    requires |p| >= 2
    ensures [p[0]] + ([p[1]] + p[2..]) == p && [p[0]] + ([p[1]] + "") == [p[0]] + [p[1]]
  {
  }

  lemma ProbeReads(alnum: char -> bool, p: string, compileVars: Vars)
    requires BracesAreNoLetters(alnum) && IsProbe(p)
    ensures AtCompile(alnum, p, compileVars) == p
    ensures AtOnce(alnum, p, compileVars, ERASE_Y) == [p[0]] + [p[1]]
  {
    var d := p[2..];
    ProbeOpens(p);
    LoneBraceReads(alnum, p, compileVars, ERASE_Y, 4);
    EndReads(alnum, d, compileVars);
    ProbeParts(p);
  }

  lemma EndReads(alnum: char -> bool, d: string, compileVars: Vars)
    requires IsEnd(d)
    ensures AtCompile(alnum, d, compileVars) == d
    ensures AtOnce(alnum, d, compileVars, ERASE_Y) == ""
  {
    FirstClose(d[2..], 1);
    ReadDouble(alnum, d, compileVars, 1);
    assert d[5..] == "" && d[..5] + AtCompile(alnum, "", compileVars) == d;
    assert d[2..3] == "y";
    assert Tokens(alnum, d) == [Double("y")] + [];
    ReplaceCons(Double("y"), [], compileVars, ERASE_Y);
  }

  /** A value that is not inert interferes: on some text the two stages are not one replacement. */
  lemma ValueInterferes(alnum: char -> bool, compileVars: Vars, k: string) returns (s: string, cookVars: Vars)
    requires BracesAreNoLetters(alnum) && k in compileVars && IsWord(alnum, k) && !Inert(compileVars[k])
    ensures !Agree(alnum, s, compileVars, cookVars)
  {
    var v := compileVars[k];
    if HasLiveToken(v) {
      s, cookVars := Source(Single(k)), map[LiveName(v) := ""];
      ReadVariable(alnum, k, "", compileVars, cookVars);
      assert s + "" == s && v + "" == v;
      CookErases(v, LiveName(v));
    } else {
      var p := ['{', ' ', '{', '{', 'y', '}', '}'];
      assert p[2..] == ['{', '{', 'y', '}', '}'];
      s, cookVars := Source(Single(k)) + p, ERASE_Y;
      ReadVariable(alnum, k, p, compileVars, cookVars);
      ProbeReads(alnum, p, compileVars);
      OpenSwallowsProbe(v, p);
      assert |v + p| != |v + [p[0], p[1]]|;
    }
  }

  /** The exact condition: compiling and then cooking is one simultaneous replacement on every text
      and under every cook-time binding if and only if every compile-time value is inert. */
  lemma StagesIndependentExactly(alnum: char -> bool, compileVars: Vars)
    requires BracesAreNoLetters(alnum)
    ensures (forall s, cookVars :: Agree(alnum, s, compileVars, cookVars)) <==> AllInert(alnum, compileVars)
  {
    if AllInert(alnum, compileVars) {
      forall s, cookVars
        ensures Agree(alnum, s, compileVars, cookVars)
      {
        StagesAreSimultaneous(alnum, s, compileVars, cookVars);
      }
    } else {
      var k :| k in compileVars && IsWord(alnum, k) && !Inert(compileVars[k]);
      var s, cookVars := ValueInterferes(alnum, compileVars, k);
    }
  }

  // ---- the double-brace tokens survive the compile stage ------------------

  /** The names between double braces, in order: what the cook stage will look up. */
  function Doubles(ts: seq<Token>): seq<string> {
    if ts == [] then []
    else (if ts[0].Double? then [ts[0].name] else []) + Doubles(ts[1..])
  }

  lemma {:induction false} DoublesAppend(a: seq<Token>, b: seq<Token>)
    ensures Doubles(a + b) == Doubles(a) + Doubles(b)
  {
    if a == [] {
      assert a + b == b;
    } else {
      assert (a + b)[1..] == a[1..] + b && (a + b)[0] == a[0];
      DoublesAppend(a[1..], b);
    }
  }

  lemma {:induction false} NoDoubles(ts: seq<Token>)
    requires forall i :: 0 <= i < |ts| ==> ts[i].Lit?
    ensures Doubles(ts) == []
  {
    if ts != [] {
      NoDoubles(ts[1..]);
    }
  }

  ghost predicate BraceFree(alnum: char -> bool, vars: Vars) {
    forall k :: k in vars && IsWord(alnum, k) ==> '{' !in vars[k]
  }

  ghost predicate SameDoubles(alnum: char -> bool, s: string, vars: Vars) {
    Doubles(CookTokens(AtCompile(alnum, s, vars))) == Doubles(CookTokens(s))
  }

  /** With values free of opening braces, compiling changes nothing about the double-brace tokens:
      the same ones, legal or not, in the same order. */
  lemma {:induction false} CompileKeepsDoubles(alnum: char -> bool, s: string, vars: Vars)
    requires BracesAreNoLetters(alnum) && BraceFree(alnum, vars)
    ensures SameDoubles(alnum, s, vars)
    decreases |s|
  {
    if s == "" {
    } else if s[0] != '{' {
      CompileKeepsDoubles(alnum, s[1..], vars);
      SameAtLit(alnum, s, vars);
    } else if OpensDouble(s) {
      match Find(s[2..], "}}")
      case None => ReadTail(alnum, s, vars);
      case Some(e) =>
        CompileKeepsDoubles(alnum, s[e + 4..], vars);
        SameAtDouble(alnum, s, e, vars);
    } else {
      match Find(s[1..], "}")
      case None => ReadTail(alnum, s, vars);
      case Some(e) =>
        if IsWord(alnum, s[1..1 + e]) {
          CompileKeepsDoubles(alnum, s[e + 2..], vars);
          SameAtSingle(alnum, s, e, vars);
        } else {
          CompileKeepsDoubles(alnum, s[1..], vars);
          SameAtLit(alnum, s, vars);
        }
    }
  }

  lemma SameAtLit(alnum: char -> bool, s: string, vars: Vars)
    requires s != "" && (s[0] != '{' || (!OpensDouble(s) && Find(s[1..], "}").Some? &&
                                         !IsWord(alnum, s[1..1 + Find(s[1..], "}").value])))
    requires SameDoubles(alnum, s[1..], vars)
    ensures SameDoubles(alnum, s, vars)
  {
    ReadLit(alnum, s, vars);
    if s[0] == '{' {
      LoneBraceStaysLone(alnum, s, vars);
    }
    CookOneChar(s[0], AtCompile(alnum, s[1..], vars), map[]);
    DoublesAppend([Lit(s[0])], CookTokens(AtCompile(alnum, s[1..], vars)));
    DoublesAppend([Lit(s[0])], CookTokens(s[1..]));
  }

  lemma SameAtDouble(alnum: char -> bool, s: string, e: nat, vars: Vars)
    requires OpensDouble(s) && Find(s[2..], "}}") == Some(e)
    requires SameDoubles(alnum, s[e + 4..], vars)
    ensures SameDoubles(alnum, s, vars)
  {
    ReadDouble(alnum, s, vars, e);
    DoubleIsClosed(s, e);
    ClosedAppend(s[..e + 4], AtCompile(alnum, s[e + 4..], vars));
    DoublesAppend([Double(s[2..2 + e])], CookTokens(AtCompile(alnum, s[e + 4..], vars)));
    DoublesAppend([Double(s[2..2 + e])], CookTokens(s[e + 4..]));
  }

  lemma SameAtSingle(alnum: char -> bool, s: string, e: nat, vars: Vars)
    requires BracesAreNoLetters(alnum) && BraceFree(alnum, vars)
    requires s != "" && s[0] == '{' && !OpensDouble(s)
    requires Find(s[1..], "}") == Some(e) && IsWord(alnum, s[1..1 + e])
    requires SameDoubles(alnum, s[e + 2..], vars)
    ensures SameDoubles(alnum, s, vars)
  {
    var t, rest := Single(s[1..1 + e]), s[e + 2..];
    ReadSingle(alnum, s, vars, e);
    VerbatimSingle(alnum, t.name);
    var v := Braces.Resolve(t, vars);
    if t.name in vars {
      BraceFreeIsInert(v);
    }
    PlainTextAddsNone(v, AtCompile(alnum, rest, vars));
    PlainTextAddsNone(Source(t), rest);
    SingleSource(s, e);
  }

  lemma SingleSource(s: string, e: nat)
    requires s != "" && s[0] == '{' && Find(s[1..], "}") == Some(e)
    ensures e + 2 <= |s| && Source(Single(s[1..1 + e])) + s[e + 2..] == s
  {
    var front, name, close, rest := s[..1], s[1..1 + e], s[1..][e..e + 1], s[e + 2..];
    assert front == "{" && close == "}" && close == s[e + 1..e + 2];
    assert s == front + name + close + rest;
  }

  lemma PlainTextAddsNone(v: string, rest: string)
    requires Closed(v) && forall t :: t in CookTokens(v) ==> t.Lit?
    ensures Doubles(CookTokens(v + rest)) == Doubles(CookTokens(rest))
  {
    ClosedAppend(v, rest);
    DoublesAppend(CookTokens(v), CookTokens(rest));
    NoDoubles(CookTokens(v));
  }
}
