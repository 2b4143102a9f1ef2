/** What substituting a template step fills in: texts written in pieces, then whole steps of such texts,
    field by field and child by child, and the needs between them. */
module ExpandPieces {
  import opened Wrappers
  import opened NeedsGraph
  import opened Formula
  import opened Braces
  import opened Extends
  import opened Expand
  import opened ExpandText
  import opened ExpandNeeds

  // ---- texts in pieces ---------------------------------------------------

  /** A stretch of template text: something written out, a placeholder for the target, a variable, or a
      double-brace token that is left for cooking. */
  datatype Piece = Text(s: string) | TargetId | TargetTitle | TargetDescription | Target | Var(name: string) |
    Late(name: string)

  function Key(p: Piece): string {
    match p
    case Text(s) => s
    case TargetId => "target.id"
    case TargetTitle => "target.title"
    case TargetDescription => "target.description"
    case Target => "target"
    case Var(name) => name
    case Late(name) => name
  }

  function Braced(name: string): string {
    "{" + name + "}"
  }

  function Spelling(p: Piece): string {
    match p
    case Text(s) => s
    case TargetId => "{target.id}"
    case TargetTitle => "{target.title}"
    case TargetDescription => "{target.description}"
    case Target => "{target}"
    case Var(name) => Braced(name)
    case Late(name) => Braced(Braced(name))
  }

  function Written(pieces: seq<Piece>): string {
    if pieces == [] then "" else Spelling(pieces[0]) + Written(pieces[1..])
  }

  /** Which placeholders are filled in: the target's, the variables, or both. */
  datatype Reach = TargetsOnly | VariablesOnly | Everything

  function OfVariable(b: Binding, reach: Reach, name: string): string {
    if reach != TargetsOnly && name in b.vars then b.vars[name] else Braced(name)
  }

  function Filling(b: Binding, reach: Reach, p: Piece): string {
    match p
    case Text(s) => s
    case TargetId => if reach == VariablesOnly then "{target.id}" else b.id
    case TargetTitle => if reach == VariablesOnly then "{target.title}" else b.title
    case TargetDescription => if reach == VariablesOnly then "{target.description}" else b.description
    case Target => if reach == VariablesOnly then OfVariable(b, reach, "target") else b.id
    case Var(name) => OfVariable(b, reach, name)
    case Late(name) => Braced(Braced(name))
  }

  function FilledIn(b: Binding, reach: Reach, pieces: seq<Piece>): string {
    if pieces == [] then "" else Filling(b, reach, pieces[0]) + FilledIn(b, reach, pieces[1..])
  }

  /** Letters make words, braces and dots do not. */
  ghost predicate OrdinaryLetters(alnum: char -> bool) {
    && !alnum('{') && !alnum('}') && !alnum('.')
    && forall c :: 'a' <= c <= 'z' ==> alnum(c)
  }

  predicate IsTargetKey(name: string) {
    name == "target" || name == "target.id" || name == "target.title" || name == "target.description"
  }

  /** Texts open no brace, variables are words, and no name is the target's. */
  predicate Proper(alnum: char -> bool, p: Piece) {
    match p
    case Text(s) => '{' !in s
    case Var(name) => IsWord(alnum, name) && !IsTargetKey(name)
    case Late(name) => '{' !in name && '}' !in name && !IsTargetKey(name)
    case _ => true
  }

  ghost predicate ProperAll(alnum: char -> bool, pieces: seq<Piece>) {
    forall i :: 0 <= i < |pieces| ==> Proper(alnum, pieces[i])
  }

  /** Nothing filled in for the target opens a brace; what is filled in for a variable may. */
  ghost predicate PlainTarget(b: Binding) {
    '{' !in b.id && '{' !in b.title && '{' !in b.description
  }

  // ---- the passes over the target's placeholders -------------------------

  predicate OfTarget(p: Piece) {
    p == TargetId || p == TargetTitle || p == TargetDescription || p == Target
  }

  /** The pieces with one kind of placeholder written out. */
  function Settled(b: Binding, kind: Piece, p: Piece): Piece {
    if p == kind then Text(Filling(b, TargetsOnly, p)) else p
  }

  function SettledAll(b: Binding, kind: Piece, pieces: seq<Piece>): seq<Piece> {
    seq(|pieces|, i requires 0 <= i < |pieces| => Settled(b, kind, pieces[i]))
  }

  lemma StartDiffers(s: string, pat: string, j: nat)
    requires j < |pat| && j < |s| && s[j] != pat[j]
    ensures !OccursAt(s, pat, 0)
  {
    if |pat| <= |s| {
      assert s[0..|pat|][j] == s[j];
    }
  }

  lemma {:induction false} PlainFront(s: string, rest: string, pat: string, text: string)
    requires pat != "" && pat[0] == '{' && '{' !in s
    ensures Replaced(s + rest, pat, text) == s + Replaced(rest, pat, text)
    decreases |s|
  {
    if s == "" {
      assert s + rest == rest && s + Replaced(rest, pat, text) == Replaced(rest, pat, text);
    } else {
      var all := s + rest;
      assert all[0] == s[0] && s[0] in s && all[1..] == s[1..] + rest;
      StartDiffers(all, pat, 0);
      PlainFront(s[1..], rest, pat, text);
      assert [s[0]] + (s[1..] + Replaced(rest, pat, text)) == s + Replaced(rest, pat, text);
    }
  }

  /** Two braced names differ before either ends. */
  lemma BracedDiffer(n: string, k: string) returns (j: nat)
    requires n != k && '}' !in n && '}' !in k
    ensures 0 < j < |n| + 2 && j < |k| + 2 && Braced(n)[j] != Braced(k)[j]
  {
    var m := if |n| < |k| then |n| else |k|;
    if i: nat :| i < m && n[i] != k[i] {
      j := i + 1;
    } else {
      j := m + 1;
      assert |n| != |k| by {
        assert |n| == |k| ==> n == k;
      }
      assert m < |n| ==> n[m] in n;
      assert m < |k| ==> k[m] in k;
    }
  }

  lemma OtherPatternPasses(w: string, pat: string, rest: string, text: string, j: nat)
    requires w != "" && '{' !in w[1..] && pat != "" && pat[0] == '{'
    requires j < |w| && j < |pat| && w[j] != pat[j]
    ensures Replaced(w + rest, pat, text) == w + Replaced(rest, pat, text)
  {
    var all := w + rest;
    assert all[j] == w[j];
    StartDiffers(all, pat, j);
    assert all[0] == w[0] && all[1..] == w[1..] + rest;
    PlainFront(w[1..], rest, pat, text);
    assert [w[0]] + (w[1..] + Replaced(rest, pat, text)) == w + Replaced(rest, pat, text);
  }

  lemma KeySpelled(kind: Piece)
    requires OfTarget(kind)
    ensures Spelling(kind) == Braced(Key(kind))
  {
  }

  lemma KeyIsPlain(key: string)
    requires IsTargetKey(key)
    ensures key != "" && key[0] == 't' && '{' !in key && '}' !in key
  {
  }

  lemma TargetKey(kind: Piece)
    requires OfTarget(kind)
    ensures Spelling(kind) == Braced(Key(kind)) && |Key(kind)| > 0 && Key(kind)[0] == 't'
    ensures '{' !in Key(kind) && '}' !in Key(kind) && IsTargetKey(Key(kind))
  {
    KeySpelled(kind);
    KeyIsPlain(Key(kind));
  }

  lemma WordHasNoBrace(alnum: char -> bool, name: string)
    requires OrdinaryLetters(alnum) && IsWord(alnum, name)
    ensures '{' !in name && '}' !in name && '.' !in name
  {
  }

  /** A placeholder of another name, followed by anything, is passed over. */
  lemma BracedPasses(n: string, k: string, rest: string, text: string)
    requires n != k && '{' !in n && '}' !in n && '}' !in k
    ensures Replaced(Braced(n) + rest, Braced(k), text) == Braced(n) + Replaced(rest, Braced(k), text)
  {
    var j := BracedDiffer(n, k);
    assert Braced(n)[1..] == n + "}";
    OtherPatternPasses(Braced(n), Braced(k), rest, text, j);
  }

  lemma LatePasses(n: string, k: string, rest: string, text: string)
    requires n != k && '{' !in n && '}' !in n && '}' !in k && k != "" && k[0] != '{'
    ensures Replaced(Braced(Braced(n)) + rest, Braced(k), text) ==
            Braced(Braced(n)) + Replaced(rest, Braced(k), text)
  {
    var j := BracedDiffer(n, k);
    var w := Braced(n) + "}";
    assert w[1..] == n + "}" + "}" && w[j] == Braced(n)[j];
    OtherPatternPasses(w, Braced(k), rest, text, j);
    OpeningPasses(w, Braced(k), rest, text);
    assert Braced(Braced(n)) == ['{'] + w;
  }

  lemma OpeningPasses(w: string, pat: string, rest: string, text: string)
    requires w != "" && w[0] == '{' && |pat| > 1 && pat[1] != '{'
    requires Replaced(w + rest, pat, text) == w + Replaced(rest, pat, text)
    ensures Replaced((['{'] + w) + rest, pat, text) == (['{'] + w) + Replaced(rest, pat, text)
  {
    var all := (['{'] + w) + rest;
    assert all[1] == '{' && all[0] == '{' && all[1..] == w + rest;
    StartDiffers(all, pat, 1);
    assert ['{'] + (w + Replaced(rest, pat, text)) == (['{'] + w) + Replaced(rest, pat, text);
  }

  lemma SpellingReplaced(w: string, rest: string, text: string)
    requires w != ""
    ensures Replaced(w + rest, w, text) == text + Replaced(rest, w, text)
  {
    assert (w + rest)[..|w|] == w && (w + rest)[|w|..] == rest;
    assert OccursAt(w + rest, w, 0);
  }

  lemma OnePiecePasses(b: Binding, kind: Piece, p: Piece, rest: string, text: string)
    requires OfTarget(kind) && p != kind && Proper(b.alnum, p) && OrdinaryLetters(b.alnum)
    ensures Replaced(Spelling(p) + rest, Spelling(kind), text) == Spelling(p) + Replaced(rest, Spelling(kind), text)
  {
    TargetKey(kind);
    match p {
      case Text(s) => PlainFront(s, rest, Spelling(kind), text);
      case Late(name) => LatePasses(name, Key(kind), rest, text);
      case Var(name) =>
        WordHasNoBrace(b.alnum, name);
        BracedPasses(name, Key(kind), rest, text);
      case _ =>
        TargetKey(p);
        BracedPasses(Key(p), Key(kind), rest, text);
    }
  }

  /** One pass of replacement writes out one kind of placeholder. */
  lemma {:induction false} PassSettles(b: Binding, kind: Piece, pieces: seq<Piece>)
    requires OfTarget(kind) && ProperAll(b.alnum, pieces) && OrdinaryLetters(b.alnum)
    ensures Replaced(Written(pieces), Spelling(kind), Filling(b, TargetsOnly, kind)) ==
            Written(SettledAll(b, kind, pieces))
    decreases |pieces|
  {
    if pieces != [] {
      var p, rest := pieces[0], pieces[1..];
      assert SettledAll(b, kind, pieces)[1..] == SettledAll(b, kind, rest);
      PassSettles(b, kind, rest);
      if p == kind {
        SpellingReplaced(Spelling(kind), Written(rest), Filling(b, TargetsOnly, kind));
      } else {
        OnePiecePasses(b, kind, p, Written(rest), Filling(b, TargetsOnly, kind));
      }
    }
  }

  lemma {:induction false} SettlingKeepsFilling(b: Binding, reach: Reach, kind: Piece, pieces: seq<Piece>)
    requires reach != VariablesOnly && OfTarget(kind)
    ensures FilledIn(b, reach, SettledAll(b, kind, pieces)) == FilledIn(b, reach, pieces)
    decreases |pieces|
  {
    if pieces != [] {
      assert SettledAll(b, kind, pieces)[1..] == SettledAll(b, kind, pieces[1..]);
      SettlingKeepsFilling(b, reach, kind, pieces[1..]);
    }
  }

  function OnePass(b: Binding, kind: Piece, text: string): string
    requires OfTarget(kind)
  {
    Replaced(text, Spelling(kind), Filling(b, TargetsOnly, kind))
  }

  lemma FamilyIsPasses(b: Binding, text: string)
    ensures TargetFamily(b, text) ==
            OnePass(b, Target, OnePass(b, TargetDescription, OnePass(b, TargetTitle, OnePass(b, TargetId, text))))
  {
  }

  ghost predicate Fit(b: Binding, pieces: seq<Piece>) {
    ProperAll(b.alnum, pieces) && OrdinaryLetters(b.alnum) && PlainTarget(b)
  }

  lemma PassKeeps(b: Binding, reach: Reach, kind: Piece, pieces: seq<Piece>)
    requires OfTarget(kind) && Fit(b, pieces) && reach != VariablesOnly
    ensures Fit(b, SettledAll(b, kind, pieces))
    ensures FilledIn(b, reach, SettledAll(b, kind, pieces)) == FilledIn(b, reach, pieces)
    ensures OnePass(b, kind, Written(pieces)) == Written(SettledAll(b, kind, pieces))
  {
    SettlingKeepsFilling(b, reach, kind, pieces);
    PassSettles(b, kind, pieces);
  }

  /** The pieces after the four passes. */
  function FullySettled(b: Binding, pieces: seq<Piece>): seq<Piece> {
    SettledAll(b, Target, SettledAll(b, TargetDescription, SettledAll(b, TargetTitle, SettledAll(b, TargetId, pieces))))
  }

  lemma NoneOfTarget(b: Binding, pieces: seq<Piece>, i: nat)
    requires i < |pieces|
    ensures |FullySettled(b, pieces)| == |pieces| && !OfTarget(FullySettled(b, pieces)[i])
  {
  }

  lemma PassesSettle(b: Binding, reach: Reach, pieces: seq<Piece>)
    requires Fit(b, pieces) && reach != VariablesOnly
    ensures TargetFamily(b, Written(pieces)) == Written(FullySettled(b, pieces))
    ensures Fit(b, FullySettled(b, pieces))
    ensures FilledIn(b, reach, FullySettled(b, pieces)) == FilledIn(b, reach, pieces)
  {
    FamilyIsPasses(b, Written(pieces));
    var byId := SettledAll(b, TargetId, pieces);
    var byTitle := SettledAll(b, TargetTitle, byId);
    var byDescription := SettledAll(b, TargetDescription, byTitle);
    PassKeeps(b, reach, TargetId, pieces);
    PassKeeps(b, reach, TargetTitle, byId);
    PassKeeps(b, reach, TargetDescription, byTitle);
    PassKeeps(b, reach, Target, byDescription);
  }

  lemma {:induction false} SettledReadsAsFamily(b: Binding, pieces: seq<Piece>)
    requires forall i :: 0 <= i < |pieces| ==> !OfTarget(pieces[i])
    ensures Written(pieces) == FilledIn(b, TargetsOnly, pieces)
    ensures FilledIn(b, Everything, pieces) == FilledIn(b, VariablesOnly, pieces)
    decreases |pieces|
  {
    if pieces != [] {
      SettledReadsAsFamily(b, pieces[1..]);
    }
  }

  // ---- the pass over the variables ---------------------------------------

  lemma {:induction false} CompileFront(alnum: char -> bool, s: string, rest: string, vars: Vars)
    requires '{' !in s
    ensures AtCompile(alnum, s + rest, vars) == s + AtCompile(alnum, rest, vars)
    decreases |s|
  {
    if s == "" {
      assert s + rest == rest && s + AtCompile(alnum, rest, vars) == AtCompile(alnum, rest, vars);
    } else {
      var all := s + rest;
      assert all[0] == s[0] && s[0] in s && all[1..] == s[1..] + rest;
      ReadLit(alnum, all, vars);
      CompileFront(alnum, s[1..], rest, vars);
      Regroup([s[0]], s[1..], AtCompile(alnum, rest, vars));
      assert [s[0]] + s[1..] == s;
    }
  }

  lemma ClosesDoubleAt(n: string, rest: string)
    requires '}' !in n
    ensures Find(n + "}}" + rest, "}}") == Some(|n|)
  {
    var s := n + "}}" + rest;
    forall j | 0 <= j < |n|
      ensures !OccursAt(s, "}}", j)
    {
      assert s[j] == n[j] && n[j] in n;
      assert j + 2 <= |s| ==> s[j..j + 2][0] == s[j];
    }
    assert s[|n|..|n| + 2] == "}}";
    FindIsFirst(s, "}}", |n|);
  }

  lemma BracedInFront(n: string, rest: string)
    requires n != "" && '{' !in n && '}' !in n
    ensures var s := Braced(n) + rest;
            && s[0] == '{' && !OpensDouble(s) && s[1..] == (n + "}") + rest
            && s[1..1 + |n|] == n && s[|n| + 2..] == rest && Find(s[1..], "}") == Some(|n|)
  {
    var s := Braced(n) + rest;
    assert s[1..] == (n + "}") + rest;
    assert s[1] == n[0] && n[0] in n;
    SingleCloses(n, rest);
  }

  lemma CompileWord(b: Binding, n: string, rest: string)
    requires OrdinaryLetters(b.alnum) && IsWord(b.alnum, n)
    ensures AtCompile(b.alnum, Braced(n) + rest, b.vars) ==
            OfVariable(b, VariablesOnly, n) + AtCompile(b.alnum, rest, b.vars)
  {
    WordHasNoBrace(b.alnum, n);
    BracedInFront(n, rest);
    ReadSingle(b.alnum, Braced(n) + rest, b.vars, |n|);
  }

  lemma CompileOther(b: Binding, n: string, rest: string)
    requires n != "" && '{' !in n && '}' !in n && !IsWord(b.alnum, n)
    ensures AtCompile(b.alnum, Braced(n) + rest, b.vars) == Braced(n) + AtCompile(b.alnum, rest, b.vars)
  {
    var tail := n + "}";
    BracedInFront(n, rest);
    ReadLit(b.alnum, Braced(n) + rest, b.vars);
    CompileFront(b.alnum, tail, rest, b.vars);
    Regroup(['{'], tail, AtCompile(b.alnum, rest, b.vars));
    assert ['{'] + tail == Braced(n);
  }

  lemma CompileLate(b: Binding, n: string, rest: string)
    requires '}' !in n
    ensures AtCompile(b.alnum, Braced(Braced(n)) + rest, b.vars) ==
            Braced(Braced(n)) + AtCompile(b.alnum, rest, b.vars)
  {
    var s := Braced(Braced(n)) + rest;
    assert s[0] == '{' && s[1] == '{' && s[2..] == n + "}}" + rest;
    ClosesDoubleAt(n, rest);
    assert s[..|n| + 4] == Braced(Braced(n)) && s[|n| + 4..] == rest;
    ReadDouble(b.alnum, s, b.vars, |n|);
  }

  lemma TargetWords(alnum: char -> bool, p: Piece)
    requires OrdinaryLetters(alnum) && OfTarget(p)
    ensures IsWord(alnum, Key(p)) <==> p == Target
  {
    var k := Key(p);
    if p == Target {
      assert forall i :: 0 <= i < |k| ==> 'a' <= k[i] <= 'z';
    } else {
      assert k[6] == '.';
    }
  }

  lemma OnePieceCompiles(b: Binding, p: Piece, rest: string)
    requires OrdinaryLetters(b.alnum) && Proper(b.alnum, p)
    ensures AtCompile(b.alnum, Spelling(p) + rest, b.vars) ==
            Filling(b, VariablesOnly, p) + AtCompile(b.alnum, rest, b.vars)
  {
    match p {
      case Text(s) => CompileFront(b.alnum, s, rest, b.vars);
      case Late(name) => CompileLate(b, name, rest);
      case Var(name) => CompileWord(b, name, rest);
      case _ =>
        TargetKey(p);
        TargetWords(b.alnum, p);
        if p == Target {
          CompileWord(b, Key(p), rest);
        } else {
          CompileOther(b, Key(p), rest);
        }
    }
  }

  lemma {:induction false} PiecesCompile(b: Binding, pieces: seq<Piece>)
    requires OrdinaryLetters(b.alnum) && ProperAll(b.alnum, pieces)
    ensures AtCompile(b.alnum, Written(pieces), b.vars) == FilledIn(b, VariablesOnly, pieces)
    decreases |pieces|
  {
    if pieces != [] {
      PiecesCompile(b, pieces[1..]);
      OnePieceCompiles(b, pieces[0], Written(pieces[1..]));
    }
  }

  /** What each substitution makes of a text in pieces: of placeholders of whatever kind, however many
      and in whatever order, those in its reach become what they name, double-brace tokens stay, and
      nothing around them changes; where neither the text nor what is filled in for the target opens a
      brace of its own. */
  lemma PiecesAreFilledIn(b: Binding, pieces: seq<Piece>)
    requires Fit(b, pieces)
    ensures TargetFamily(b, Written(pieces)) == FilledIn(b, TargetsOnly, pieces)
    ensures AtCompile(b.alnum, Written(pieces), b.vars) == FilledIn(b, VariablesOnly, pieces)
    ensures Sub(b, Written(pieces)) == FilledIn(b, Everything, pieces)
  {
    var all := FullySettled(b, pieces);
    PassesSettle(b, TargetsOnly, pieces);
    PassesSettle(b, Everything, pieces);
    forall i | 0 <= i < |all|
      ensures !OfTarget(all[i])
    {
      NoneOfTarget(b, pieces, i);
    }
    SettledReadsAsFamily(b, all);
    PiecesCompile(b, pieces);
    PiecesCompile(b, all);
  }

  // ---- steps in pieces ---------------------------------------------------

  /** A template step whose texts are written in pieces. */
  datatype Draft = Draft(
    id: Option<seq<Piece>>,
    title: Option<seq<Piece>>,
    description: Option<seq<Piece>>,
    assignee: Option<seq<Piece>>,
    needs: seq<seq<Piece>>,
    metadata: map<string, seq<Piece>>,
    condition: Option<seq<Piece>>,
    checkPath: Option<seq<Piece>>,
    expand: Option<seq<Piece>>,
    expandVars: map<string, seq<Piece>>,
    children: seq<Draft>,
    rest: string)

  ghost predicate FitOption(b: Binding, o: Option<seq<Piece>>) {
    o.Some? ==> Fit(b, o.value)
  }

  ghost predicate FitDraft(b: Binding, d: Draft)
    decreases d
  {
    && FitOption(b, d.id) && FitOption(b, d.title) && FitOption(b, d.description) && FitOption(b, d.assignee)
    && FitOption(b, d.condition) && FitOption(b, d.checkPath) && FitOption(b, d.expand)
    && (forall i :: 0 <= i < |d.needs| ==> Fit(b, d.needs[i]))
    && (forall k :: k in d.metadata ==> Fit(b, d.metadata[k]))
    && (forall k :: k in d.expandVars ==> Fit(b, d.expandVars[k]))
    && forall c :: c in d.children ==> FitDraft(b, c)
  }

  /** `text` is the pieces as written. */
  ghost predicate Spells(o: Option<seq<Piece>>, text: Option<string>) {
    if o.None? then text == None else text == Some(Written(o.value))
  }

  ghost predicate SpellsStep(d: Draft, s: Step)
    decreases d
  {
    && Spells(d.id, s.id) && Spells(d.title, s.title) && Spells(d.description, s.description)
    && Spells(d.assignee, s.assignee) && Spells(d.condition, s.condition) && Spells(d.checkPath, s.checkPath)
    && Spells(d.expand, s.expand)
    && |d.needs| == |s.needs| && (forall i :: 0 <= i < |d.needs| ==> s.needs[i] == Written(d.needs[i]))
    && d.metadata.Keys == s.metadata.Keys && (forall k :: k in d.metadata ==> s.metadata[k] == Written(d.metadata[k]))
    && d.expandVars.Keys == s.expandVars.Keys
    && (forall k :: k in d.expandVars ==> s.expandVars[k] == Written(d.expandVars[k]))
    && |d.children| == |s.children|
    && (forall i :: 0 <= i < |d.children| ==> SpellsStep(d.children[i], s.children[i]))
    && d.rest == s.rest
  }

  ghost predicate Fills(b: Binding, reach: Reach, o: Option<seq<Piece>>, text: Option<string>) {
    if o.None? then text == None else text == Some(FilledIn(b, reach, o.value))
  }

  ghost predicate FillsTexts(b: Binding, d: Draft, s: Step) {
    && Fills(b, Everything, d.id, s.id) && Fills(b, Everything, d.title, s.title)
    && Fills(b, Everything, d.description, s.description)
    && Fills(b, VariablesOnly, d.assignee, s.assignee) && Fills(b, TargetsOnly, d.condition, s.condition)
    && Fills(b, Everything, d.checkPath, s.checkPath) && Fills(b, Everything, d.expand, s.expand)
  }

  ghost predicate FillsEach(b: Binding, d: seq<seq<Piece>>, s: seq<string>) {
    |d| == |s| && forall i :: 0 <= i < |d| ==> s[i] == FilledIn(b, Everything, d[i])
  }

  ghost predicate FillsValues(b: Binding, d: map<string, seq<Piece>>, m: map<string, string>) {
    d.Keys == m.Keys && forall k :: k in d ==> m[k] == FilledIn(b, Everything, d[k])
  }

  /** Every text of the step is that of the draft filled in: the condition with the target alone, the
      assignee with the variables alone, and everything else, children included, with both. */
  ghost predicate FillsStep(b: Binding, d: Draft, s: Step)
    decreases d
  {
    && FillsTexts(b, d, s) && FillsEach(b, d.needs, s.needs)
    && FillsValues(b, d.metadata, s.metadata) && FillsValues(b, d.expandVars, s.expandVars)
    && |d.children| == |s.children|
    && (forall i :: 0 <= i < |d.children| ==> FillsStep(b, d.children[i], s.children[i]))
    && d.rest == s.rest
  }

  lemma OptionFilled(b: Binding, o: Option<seq<Piece>>, text: Option<string>)
    requires FitOption(b, o) && Spells(o, text)
    ensures Fills(b, Everything, o, SubOption(b, text))
    ensures o.Some? ==> TargetFamily(b, text.value) == FilledIn(b, TargetsOnly, o.value)
    ensures o.Some? ==> AtCompile(b.alnum, text.value, b.vars) == FilledIn(b, VariablesOnly, o.value)
  {
    if o.Some? {
      PiecesAreFilledIn(b, o.value);
    }
  }

  lemma {:induction false} SubstitutedAllAt(b: Binding, template: seq<Step>, i: nat)
    requires i < |template|
    ensures SubstitutedAll(b, template)[i] == Substituted(b, template[i])
    decreases template
  {
    if i > 0 {
      SubstitutedAllAt(b, template[1..], i - 1);
    }
  }

  lemma TextsFilled(b: Binding, d: Draft, s: Step, children: seq<Step>)
    requires FitDraft(b, d) && SpellsStep(d, s)
    ensures FillsTexts(b, d, SubstitutedFields(b, s, children))
  {
    OptionFilled(b, d.id, s.id);
    OptionFilled(b, d.title, s.title);
    OptionFilled(b, d.description, s.description);
    OptionFilled(b, d.assignee, s.assignee);
    OptionFilled(b, d.condition, s.condition);
    OptionFilled(b, d.checkPath, s.checkPath);
    OptionFilled(b, d.expand, s.expand);
  }

  lemma EachFilled(b: Binding, d: seq<seq<Piece>>, s: seq<string>)
    requires |d| == |s| && forall i :: 0 <= i < |d| ==> s[i] == Written(d[i]) && Fit(b, d[i])
    ensures FillsEach(b, d, SubEach(b, s))
  {
    forall i | 0 <= i < |d|
      ensures Sub(b, s[i]) == FilledIn(b, Everything, d[i])
    {
      PiecesAreFilledIn(b, d[i]);
    }
  }

  lemma ValuesFilled(b: Binding, d: map<string, seq<Piece>>, m: map<string, string>)
    requires d.Keys == m.Keys && forall k :: k in d ==> m[k] == Written(d[k]) && Fit(b, d[k])
    ensures FillsValues(b, d, SubValues(b, m))
  {
    forall k | k in d
      ensures Sub(b, m[k]) == FilledIn(b, Everything, d[k])
    {
      PiecesAreFilledIn(b, d[k]);
    }
  }

  /** A step written in pieces comes out of substitution filled in, field by field and child by child. */
  lemma {:induction false} StepIsFilledIn(b: Binding, d: Draft, s: Step)
    requires FitDraft(b, d) && SpellsStep(d, s)
    ensures FillsStep(b, d, Substituted(b, s))
    decreases d
  {
    TextsFilled(b, d, s, SubstitutedAll(b, s.children));
    EachFilled(b, d.needs, s.needs);
    ValuesFilled(b, d.metadata, s.metadata);
    ValuesFilled(b, d.expandVars, s.expandVars);
    forall i | 0 <= i < |d.children|
      ensures FillsStep(b, d.children[i], SubstitutedAll(b, s.children)[i])
    {
      SubstitutedAllAt(b, s.children, i);
      StepIsFilledIn(b, d.children[i], s.children[i]);
    }
  }

  // ---- a whole template --------------------------------------------------

  /** A target's template, written in pieces, as it stands in the target's place before its needs are
      put on the roots: filled in with the target's own id, title and description, absent ones being
      empty, and with the expansion's variables. */
  lemma TemplateIsFilledIn(env: Env, target: Step, w: Walked, callers: Vars, drafts: seq<Draft>)
    requires var b := Binding(env.alnum, if target.id.Some? then target.id.value else "",
                              if target.title.Some? then target.title.value else "",
                              if target.description.Some? then target.description.value else "",
                              VarsFor(env, target, w, callers));
             && |drafts| == |w.raw.template|
             && forall i :: 0 <= i < |drafts| ==> FitDraft(b, drafts[i]) && SpellsStep(drafts[i], w.raw.template[i])
    ensures var b := Binding(env.alnum, if target.id.Some? then target.id.value else "",
                             if target.title.Some? then target.title.value else "",
                             if target.description.Some? then target.description.value else "",
                             VarsFor(env, target, w, callers));
            && |TemplateFor(env, target, w, callers)| == |drafts|
            && forall i :: 0 <= i < |drafts| ==> FillsStep(b, drafts[i], TemplateFor(env, target, w, callers)[i])
  {
    var b := BindingOf(env.alnum, target, VarsFor(env, target, w, callers));
    forall i | 0 <= i < |drafts|
      ensures FillsStep(b, drafts[i], TemplateFor(env, target, w, callers)[i])
    {
      SubstitutedAllAt(b, w.raw.template, i);
      StepIsFilledIn(b, drafts[i], w.raw.template[i]);
    }
  }

  /** The variables of an expansion: an override of the target, resolved against the caller's variables
      at both stages, wins over the expansion's own default; a name with neither has no value. */
  lemma ExpansionVariables(env: Env, target: Step, w: Walked, callers: Vars, v: string)
    ensures v in VarsFor(env, target, w, callers) <==>
            v in target.expandVars || (v in w.raw.vars && w.raw.vars[v].Some?)
    ensures v in target.expandVars ==>
        VarsFor(env, target, w, callers)[v] == AtCompile(env.alnum, AtCook(target.expandVars[v], callers), callers)
    ensures v !in target.expandVars && v in w.raw.vars && w.raw.vars[v].Some? ==>
        VarsFor(env, target, w, callers)[v] == w.raw.vars[v].value
  {
  }

  // ---- the needs between template steps ----------------------------------

  /** Substituting and flattening go either way round. */
  lemma {:induction false} FlattenedSubstitutes(b: Binding, s: Step)
    ensures |Flattened(Substituted(b, s))| == |Flattened(s)|
    ensures forall i :: 0 <= i < |Flattened(s)| ==>
        Flattened(Substituted(b, s))[i] == SubstitutedFields(b, Flattened(s)[i], [])
    decreases s, 0
  {
    FlattenedAllSubstitutes(b, s.children);
  }

  lemma {:induction false} FlattenedAllSubstitutes(b: Binding, steps: seq<Step>)
    ensures |FlattenedAll(SubstitutedAll(b, steps))| == |FlattenedAll(steps)|
    ensures forall i :: 0 <= i < |FlattenedAll(steps)| ==>
        FlattenedAll(SubstitutedAll(b, steps))[i] == SubstitutedFields(b, FlattenedAll(steps)[i], [])
    decreases steps, 1
  {
    if steps != [] {
      FlattenedSubstitutes(b, steps[0]);
      FlattenedAllSubstitutes(b, steps[1..]);
      assert SubstitutedAll(b, steps)[1..] == SubstitutedAll(b, steps[1..]);
    }
  }

  lemma SubstitutedNeeds(b: Binding, before: seq<Step>, after: seq<Step>, k: int, u: string, n: string)
    requires |after| == |before|
    requires forall i :: 0 <= i < |before| ==> after[i] == SubstitutedFields(b, before[i], [])
    ensures StepNeeds(after, k, u, n) <==>
            exists v, m :: StepNeeds(before, k, v, m) && Sub(b, v) == u && Sub(b, m) == n
  {
    if StepNeeds(after, k, u, n) {
      var i :| 0 <= i < |after[k].needs| && after[k].needs[i] == n;
      assert StepNeeds(before, k, before[k].id.value, before[k].needs[i]);
    }
    if v, m :| StepNeeds(before, k, v, m) && Sub(b, v) == u && Sub(b, m) == n {
      var i :| 0 <= i < |before[k].needs| && before[k].needs[i] == m;
      assert after[k].needs[i] == n;
    }
  }

  /** Needs survive substitution, and none appears: one step needs another in the substituted template
      exactly when steps of the template whose id and need become these do. */
  lemma NeedsAreSubstituted(b: Binding, template: seq<Step>, u: string, n: string)
    ensures Edge(NeedsGraphOf(FlattenedAll(SubstitutedAll(b, template))), u, n) <==>
            exists v, m :: Edge(NeedsGraphOf(FlattenedAll(template)), v, m) && Sub(b, v) == u && Sub(b, m) == n
  {
    var before, after := FlattenedAll(template), FlattenedAll(SubstitutedAll(b, template));
    FlattenedAllSubstitutes(b, template);
    NeedsGraphEdge(after, u, n);
    if k :| StepNeeds(after, k, u, n) {
      SubstitutedNeeds(b, before, after, k, u, n);
      var v, m :| StepNeeds(before, k, v, m) && Sub(b, v) == u && Sub(b, m) == n;
      NeedsGraphEdge(before, v, m);
    }
    if v, m :| Edge(NeedsGraphOf(before), v, m) && Sub(b, v) == u && Sub(b, m) == n {
      NeedsGraphEdge(before, v, m);
      var k :| StepNeeds(before, k, v, m);
      SubstitutedNeeds(b, before, after, k, u, n);
    }
  }
}
