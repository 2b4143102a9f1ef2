/** The two substitution stages: `{name}` inside expansion at compile time, `{{name}}` at cook
    time, and exactly when the first leaves the second alone. */
module Braces {
  import opened Wrappers

  type Vars = map<string, string>

  // ---- text search -------------------------------------------------------

  predicate OccursAt(s: string, pat: string, i: int) {
    0 <= i && i + |pat| <= |s| && s[i..i + |pat|] == pat
  }

  lemma OccursShift(s: string, pat: string, j: int)
    requires s != "" && j >= 1
    ensures OccursAt(s, pat, j) <==> OccursAt(s[1..], pat, j - 1)
  {
    if j + |pat| <= |s| {
      var here, there := s[j..j + |pat|], s[1..][j - 1..j - 1 + |pat|];
      forall k | 0 <= k < |pat|
        ensures here[k] == there[k]
      {
        assert here[k] == s[j + k] == s[1..][j - 1 + k];
      }
      assert here == there;
    }
  }

  /** Rust's `find`: the first occurrence. */
  function Find(s: string, pat: string): (r: Option<nat>)
    ensures r.Some? ==> OccursAt(s, pat, r.value)
  {
    if OccursAt(s, pat, 0) then Some(0)
    else if s == "" then None
    else match Find(s[1..], pat)
      case None => None
      case Some(k) =>
        OccursShift(s, pat, k + 1);
        Some(k + 1)
  }

  ghost predicate IsFirst(s: string, pat: string, k: nat) {
    OccursAt(s, pat, k) && forall j :: 0 <= j < k ==> !OccursAt(s, pat, j)
  }

  lemma {:induction false} FindIsFirst(s: string, pat: string, k: nat)
    ensures Find(s, pat) == Some(k) <==> IsFirst(s, pat, k)
  {
    if !OccursAt(s, pat, 0) && s != "" {
      if k > 0 {
        FindIsFirst(s[1..], pat, k - 1);
        OccursShift(s, pat, k);
        if IsFirst(s, pat, k) {
          forall j | 0 <= j < k - 1
            ensures !OccursAt(s[1..], pat, j)
          {
            OccursShift(s, pat, j + 1);
          }
        }
        if IsFirst(s[1..], pat, k - 1) {
          forall j | 1 <= j < k
            ensures !OccursAt(s, pat, j)
          {
            OccursShift(s, pat, j);
          }
        }
      }
    }
  }

  lemma {:induction false} FindNone(s: string, pat: string)
    ensures Find(s, pat) == None <==> forall j :: 0 <= j <= |s| ==> !OccursAt(s, pat, j)
  {
    if !OccursAt(s, pat, 0) && s != "" {
      FindNone(s[1..], pat);
      forall j | 1 <= j <= |s|
        ensures OccursAt(s, pat, j) <==> OccursAt(s[1..], pat, j - 1)
      {
        OccursShift(s, pat, j);
      }
    }
  }

  lemma OccursInPrefix(s: string, rest: string, pat: string, j: int)
    requires 0 <= j && j + |pat| <= |s|
    ensures OccursAt(s + rest, pat, j) <==> OccursAt(s, pat, j)
  {
    assert (s + rest)[j..j + |pat|] == s[j..j + |pat|];
  }

  /** The first occurrence stays first when text is added behind it. */
  lemma FindInPrefix(s: string, rest: string, pat: string)
    requires Find(s, pat).Some?
    ensures Find(s + rest, pat) == Find(s, pat)
  {
    var k := Find(s, pat).value;
    FindIsFirst(s, pat, k);
    forall j | 0 <= j <= k
      ensures OccursAt(s + rest, pat, j) <==> OccursAt(s, pat, j)
    {
      OccursInPrefix(s, rest, pat, j);
    }
    FindIsFirst(s + rest, pat, k);
  }

  // ---- tokens ------------------------------------------------------------

  datatype Token = Lit(c: char) | Single(name: string) | Double(name: string) | Tail(text: string)

  function Source(t: Token): string {
    match t
    case Lit(c) => [c]
    case Single(n) => "{" + n + "}"
    case Double(n) => "{{" + n + "}}"
    case Tail(text) => text
  }

  predicate OpensDouble(s: string) {
    |s| >= 2 && s[0] == '{' && s[1] == '{'
  }

  /** `\w+`; which characters are letters or digits is the alphabet's business. */
  predicate IsWord(alnum: char -> bool, token: string) {
    token != "" && forall i :: 0 <= i < |token| ==> alnum(token[i]) || token[i] == '_'
  }

  ghost predicate BracesAreNoLetters(alnum: char -> bool) {
    !alnum('{') && !alnum('}')
  }

  predicate AsciiAlpha(c: char) {
    'a' <= c <= 'z' || 'A' <= c <= 'Z'
  }

  /** A variable name of the cook grammar. */
  predicate Legal(token: string) {
    && token != "" && (AsciiAlpha(token[0]) || token[0] == '_')
    && forall i :: 0 <= i < |token| ==> AsciiAlpha(token[i]) || '0' <= token[i] <= '9' || token[i] == '_'
  }

  /** How the compile stage reads a text. */
  function Tokens(alnum: char -> bool, s: string): seq<Token>
    decreases |s|
  {
    if s == "" then []
    else if s[0] != '{' then [Lit(s[0])] + Tokens(alnum, s[1..])
    else if OpensDouble(s) then
      match Find(s[2..], "}}")
      case None => [Tail(s)]
      case Some(e) => [Double(s[2..2 + e])] + Tokens(alnum, s[e + 4..])
    else
      match Find(s[1..], "}")
      case None => [Tail(s)]
      case Some(e) =>
        if IsWord(alnum, s[1..1 + e]) then [Single(s[1..1 + e])] + Tokens(alnum, s[e + 2..])
        else [Lit('{')] + Tokens(alnum, s[1..])
  }

  /** How the cook stage reads a text: double-brace tokens and everything else. */
  function CookTokens(s: string): seq<Token>
    decreases |s|
  {
    if s == "" then []
    else if OpensDouble(s) then
      match Find(s[2..], "}}")
      case None => [Tail(s)]
      case Some(e) => [Double(s[2..2 + e])] + CookTokens(s[e + 4..])
    else [Lit(s[0])] + CookTokens(s[1..])
  }

  // ---- what the stages write ---------------------------------------------

  function Resolve(t: Token, vars: Vars): string {
    if t.Single? && t.name in vars then vars[t.name] else Source(t)
  }

  function ResolveAll(ts: seq<Token>, vars: Vars): string {
    if ts == [] then "" else Resolve(ts[0], vars) + ResolveAll(ts[1..], vars)
  }

  function Instantiate(t: Token, vars: Vars): string {
    if t.Double? && Legal(t.name) && t.name in vars then vars[t.name] else Source(t)
  }

  function InstantiateAll(ts: seq<Token>, vars: Vars): string {
    if ts == [] then "" else Instantiate(ts[0], vars) + InstantiateAll(ts[1..], vars)
  }

  /** The result of the compile stage, and of the cook stage. */
  function AtCompile(alnum: char -> bool, s: string, vars: Vars): string {
    ResolveAll(Tokens(alnum, s), vars)
  }

  function AtCook(s: string, vars: Vars): string {
    InstantiateAll(CookTokens(s), vars)
  }

  lemma ResolveCons(t: Token, ts: seq<Token>, vars: Vars)
    ensures ResolveAll([t] + ts, vars) == Resolve(t, vars) + ResolveAll(ts, vars)
  {
    assert ([t] + ts)[1..] == ts;
  }

  lemma InstantiateCons(t: Token, ts: seq<Token>, vars: Vars)
    ensures InstantiateAll([t] + ts, vars) == Instantiate(t, vars) + InstantiateAll(ts, vars)
  {
    assert ([t] + ts)[1..] == ts;
  }

  // ---- the compile-stage scan --------------------------------------------

  lemma ReadLit(alnum: char -> bool, s: string, vars: Vars)
    requires s != "" && (s[0] != '{' || (!OpensDouble(s) && Find(s[1..], "}").Some? &&
                                         !IsWord(alnum, s[1..1 + Find(s[1..], "}").value])))
    ensures AtCompile(alnum, s, vars) == [s[0]] + AtCompile(alnum, s[1..], vars)
  {
    ResolveCons(Lit(s[0]), Tokens(alnum, s[1..]), vars);
  }

  lemma DoubleSource(s: string, e: nat)
    requires OpensDouble(s) && Find(s[2..], "}}") == Some(e)
    ensures e + 4 <= |s| && Source(Double(s[2..2 + e])) == s[..e + 4]
  {
    var front, name, close := s[..2], s[2..2 + e], s[2..][e..e + 2];
    assert front == "{{" && close == "}}" && close == s[e + 2..e + 4];
    assert s[..e + 4] == front + name + close;
  }

  lemma ReadDouble(alnum: char -> bool, s: string, vars: Vars, e: nat)
    requires OpensDouble(s) && Find(s[2..], "}}") == Some(e)
    ensures AtCompile(alnum, s, vars) == s[..e + 4] + AtCompile(alnum, s[e + 4..], vars)
  {
    var t := Double(s[2..2 + e]);
    ResolveCons(t, Tokens(alnum, s[e + 4..]), vars);
    DoubleSource(s, e);
  }

  lemma ReadSingle(alnum: char -> bool, s: string, vars: Vars, e: nat)
    requires s != "" && s[0] == '{' && !OpensDouble(s)
    requires Find(s[1..], "}") == Some(e) && IsWord(alnum, s[1..1 + e])
    ensures AtCompile(alnum, s, vars) == Resolve(Single(s[1..1 + e]), vars) + AtCompile(alnum, s[e + 2..], vars)
  {
    ResolveCons(Single(s[1..1 + e]), Tokens(alnum, s[e + 2..]), vars);
  }

  lemma ReadTail(alnum: char -> bool, s: string, vars: Vars)
    requires s != "" && s[0] == '{'
    requires if OpensDouble(s) then Find(s[2..], "}}") == None else Find(s[1..], "}") == None
    ensures AtCompile(alnum, s, vars) == s
  {
    assert Tokens(alnum, s) == [Tail(s)] + [];
    ResolveCons(Tail(s), [], vars);
    assert s + ResolveAll([], vars) == s;
  }

  /** A turn of the scan at a double-brace opening: the token is copied whole. */
  method ScanDouble(alnum: char -> bool, text: string, i: nat, vars: Vars) returns (chunk: string, next: nat)
    requires i < |text| && OpensDouble(text[i..])
    ensures i < next <= |text|
    ensures AtCompile(alnum, text[i..], vars) == chunk + AtCompile(alnum, text[next..], vars)
  {
    ghost var here := text[i..];
    assert here[2..] == text[i + 2..];
    match Find(text[i + 2..], "}}") {
      case Some(end) =>
        ReadDouble(alnum, here, vars, end);
        next := i + 2 + end + 2;
        chunk := text[i..next];
        assert here[..end + 4] == chunk && here[end + 4..] == text[next..];
      case None =>
        ReadTail(alnum, here, vars);
        next := |text|;
        chunk := text[i..];
        assert text[next..] == "" && chunk + AtCompile(alnum, "", vars) == here;
    }
  }

  /** A turn of the scan at a lone opening brace. */
  method ScanSingle(alnum: char -> bool, text: string, i: nat, vars: Vars) returns (chunk: string, next: nat)
    requires i < |text| && text[i] == '{' && !OpensDouble(text[i..])
    ensures i < next <= |text|
    ensures AtCompile(alnum, text[i..], vars) == chunk + AtCompile(alnum, text[next..], vars)
  {
    ghost var here := text[i..];
    assert here[1..] == text[i + 1..];
    match Find(text[i + 1..], "}") {
      case Some(end) =>
        var token := text[i + 1..][..end];
        assert token == here[1..1 + end];
        if IsWord(alnum, token) {
          ReadSingle(alnum, here, vars, end);
          next := i + 1 + end + 1;
          assert here[end + 2..] == text[next..];
          chunk := if token in vars then vars[token] else "{" + token + "}";
        } else {
          ReadLit(alnum, here, vars);
          chunk, next := "{", i + 1;
        }
      case None =>
        ReadTail(alnum, here, vars);
        next := |text|;
        chunk := text[i..];
        assert text[next..] == "" && chunk + AtCompile(alnum, "", vars) == here;
    }
  }

  /** The index scan of the compile stage writes the resolved token sequence. */
  method SubstituteSingleBraceVars(alnum: char -> bool, text: string, vars: Vars) returns (out: string)
    ensures out == AtCompile(alnum, text, vars)
  {
    out := "";
    var i := 0;
    assert text[0..] == text;
    while i < |text|
      invariant 0 <= i <= |text|
      invariant out + AtCompile(alnum, text[i..], vars) == AtCompile(alnum, text, vars)
    {
      var chunk, next;
      if text[i] != '{' {
        ReadLit(alnum, text[i..], vars);
        assert text[i..][1..] == text[i + 1..];
        chunk, next := [text[i]], i + 1;
      } else if i + 1 < |text| && text[i + 1] == '{' {
        chunk, next := ScanDouble(alnum, text, i, vars);
      } else {
        chunk, next := ScanSingle(alnum, text, i, vars);
      }
      Regroup(out, chunk, AtCompile(alnum, text[next..], vars));
      out, i := out + chunk, next;
    }
    assert text[i..] == "" && out + AtCompile(alnum, "", vars) == out;
  }

  lemma Regroup(a: string, b: string, c: string)
    ensures (a + b) + c == a + (b + c)
  {
  }

  // ---- the cook-stage scan -----------------------------------------------

  lemma CookReadsChar(s: string, vars: Vars)
    requires s != "" && !OpensDouble(s)
    ensures AtCook(s, vars) == [s[0]] + AtCook(s[1..], vars)
  {
    InstantiateCons(Lit(s[0]), CookTokens(s[1..]), vars);
  }

  lemma CookReadsDouble(s: string, e: nat, vars: Vars)
    requires OpensDouble(s) && Find(s[2..], "}}") == Some(e)
    ensures AtCook(s, vars) == Instantiate(Double(s[2..2 + e]), vars) + AtCook(s[e + 4..], vars)
  {
    InstantiateCons(Double(s[2..2 + e]), CookTokens(s[e + 4..]), vars);
  }

  lemma CookReadsTail(s: string, vars: Vars)
    requires OpensDouble(s) && Find(s[2..], "}}") == None
    ensures AtCook(s, vars) == s
  {
    assert CookTokens(s) == [Tail(s)] + [];
    InstantiateCons(Tail(s), [], vars);
    assert s + InstantiateAll([], vars) == s;
  }

  ghost predicate NoOpeningBefore(s: string, k: nat) {
    forall j :: 0 <= j < k ==> !OccursAt(s, "{{", j)
  }

  lemma NoOpeningTail(s: string, k: nat)
    requires 0 < k <= |s| && NoOpeningBefore(s, k)
    ensures !OpensDouble(s) && NoOpeningBefore(s[1..], k - 1)
  {
    assert !OccursAt(s, "{{", 0);
    assert |s| >= 2 ==> s[0..0 + 2] == [s[0], s[1]];
    forall j | 0 <= j < k - 1
      ensures !OccursAt(s[1..], "{{", j)
    {
      OccursShift(s, "{{", j + 1);
    }
  }

  /** Text before the first double-brace opening is copied. */
  lemma {:induction false} CookSkips(s: string, k: nat, vars: Vars)
    requires k <= |s| && NoOpeningBefore(s, k)
    ensures AtCook(s, vars) == s[..k] + AtCook(s[k..], vars)
    decreases |s|
  {
    if k == 0 {
      assert s[0..] == s && s[..0] + AtCook(s, vars) == AtCook(s, vars);
    } else {
      NoOpeningTail(s, k);
      CookReadsChar(s, vars);
      var tail := s[1..];
      CookSkips(tail, k - 1, vars);
      assert tail[k - 1..] == s[k..] && [s[0]] + tail[..k - 1] == s[..k];
      Regroup([s[0]], tail[..k - 1], AtCook(s[k..], vars));
    }
  }

  /** One turn of the cook loop at a double-brace opening; `None` when it is never closed. */
  method TakeDouble(here: string, vars: Vars) returns (r: Option<(string, string)>)
    requires OpensDouble(here)
    ensures match r
            case Some((piece, rest)) => |rest| < |here| && AtCook(here, vars) == piece + AtCook(rest, vars)
            case None => AtCook(here, vars) == here
  {
    var after := here[2..];
    match Find(after, "}}") {
      case None =>
        CookReadsTail(here, vars);
        return None;
      case Some(close) =>
        var token := after[..close];
        assert token == here[2..2 + close] && here[close + 4..] == after[close + 2..];
        CookReadsDouble(here, close, vars);
        return Some((if Legal(token) && token in vars then vars[token] else "{{" + token + "}}", after[close + 2..]));
    }
  }

  lemma CookFront(rest: string, vars: Vars)
    ensures match Find(rest, "{{")
            case None => AtCook(rest, vars) == rest
            case Some(open) =>
              OpensDouble(rest[open..]) && AtCook(rest, vars) == rest[..open] + AtCook(rest[open..], vars)
  {
    match Find(rest, "{{")
    case None =>
      FindNone(rest, "{{");
      CookSkips(rest, |rest|, vars);
      assert rest[|rest|..] == "" && rest[..|rest|] + AtCook("", vars) == rest;
    case Some(open) =>
      FindIsFirst(rest, "{{", open);
      CookSkips(rest, open, vars);
      assert rest[open..][0..2] == rest[open..open + 2] == "{{";
  }

  /** The cook-stage loop over the unread rest writes the instantiated token sequence. */
  method SubstituteVars(text: string, vars: Vars) returns (out: string)
    ensures out == AtCook(text, vars)
  {
    out := "";
    var rest := text;
    while true
      invariant out + AtCook(rest, vars) == AtCook(text, vars)
      decreases |rest|
    {
      var found := Find(rest, "{{");
      CookFront(rest, vars);
      if found == None {
        return out + rest;
      }
      var open := found.value;
      Regroup(out, rest[..open], AtCook(rest[open..], vars));
      var taken := TakeDouble(rest[open..], vars);
      out := out + rest[..open];
      if taken == None {
        return out + rest[open..];
      }
      Regroup(out, taken.value.0, AtCook(taken.value.1, vars));
      out := out + taken.value.0;
      rest := taken.value.1;
    }
  }

  // ---- what the stages make of a text, opening by opening ----------------

  lemma Enclosed(open: string, name: string, close: string, rest: string)
    requires |open| <= 2 && open != ""
    ensures var s := open + name + close + rest;
            && s[|open|..] == name + close + rest && s[|open|..|open| + |name|] == name
            && s[|open| + |name| + |close|..] == rest && s[..|open| + |name| + |close|] == open + name + close
            && forall i :: 0 <= i < |open| ==> s[i] == open[i]
  {
  }

  /** The compile stage at an ordinary character, and at a brace that is never closed. */
  lemma CompileCopies(alnum: char -> bool, s: string, vars: Vars)
    requires s != ""
    ensures s[0] != '{' ==> AtCompile(alnum, s, vars) == [s[0]] + AtCompile(alnum, s[1..], vars)
    ensures |s| >= 2 && s[0] == s[1] == '{' && (forall j :: 2 <= j < |s| - 1 ==> !(s[j] == s[j + 1] == '}')) ==>
        AtCompile(alnum, s, vars) == s
    ensures s[0] == '{' && (|s| == 1 || s[1] != '{') && '}' !in s[1..] ==> AtCompile(alnum, s, vars) == s
  {
    if s[0] != '{' {
      ReadLit(alnum, s, vars);
    } else if OpensDouble(s) {
      if forall j :: 2 <= j < |s| - 1 ==> !(s[j] == s[j + 1] == '}') {
        NeverClosed(s);
        ReadTail(alnum, s, vars);
      }
    } else if '}' !in s[1..] {
      NoneCloses(s[1..]);
      ReadTail(alnum, s, vars);
    }
  }

  lemma NoneCloses(s: string)
    requires '}' !in s
    ensures Find(s, "}") == None
  {
    FindNone(s, "}");
    forall j | 0 <= j <= |s|
      ensures !OccursAt(s, "}", j)
    {
      assert j + 1 <= |s| ==> s[j..j + 1] == [s[j]] && s[j] in s;
    }
  }

  lemma NeverClosed(s: string)
    requires |s| >= 2 && forall j :: 2 <= j < |s| - 1 ==> !(s[j] == s[j + 1] == '}')
    ensures Find(s[2..], "}}") == None
  {
    FindNone(s[2..], "}}");
    forall j | 0 <= j <= |s[2..]|
      ensures !OccursAt(s[2..], "}}", j)
    {
      if j + 2 <= |s[2..]| {
        assert s[2..][j..j + 2] == [s[2 + j], s[2 + j + 1]];
        assert "}}" == ['}', '}'];
      }
    }
  }

  /** The compile stage at a single brace: a word with a value becomes the value, which is not read
      again; a word without one stays; anything else up to the closing brace is no token, and reading
      goes on behind the opening brace. */
  lemma CompileReadsSingle(alnum: char -> bool, name: string, rest: string, vars: Vars)
    requires '}' !in name && (name == "" || name[0] != '{')
    ensures var s := "{" + name + "}" + rest;
            var word := name != "" && forall i :: 0 <= i < |name| ==> alnum(name[i]) || name[i] == '_';
            AtCompile(alnum, s, vars) ==
            if !word then "{" + AtCompile(alnum, s[1..], vars)
            else (if name in vars then vars[name] else "{" + name + "}") + AtCompile(alnum, rest, vars)
  {
    var s := "{" + name + "}" + rest;
    Enclosed("{", name, "}", rest);
    SingleCloses(name, rest);
    if IsWord(alnum, name) {
      ReadSingle(alnum, s, vars, |name|);
    } else {
      ReadLit(alnum, s, vars);
    }
  }

  lemma SingleCloses(name: string, rest: string)
    requires '}' !in name
    ensures Find(name + "}" + rest, "}") == Some(|name|)
  {
    var s := name + "}" + rest;
    forall j | 0 <= j < |name|
      ensures !OccursAt(s, "}", j)
    {
      assert s[j] == name[j] && name[j] in name;
      assert s[j..j + 1] == [s[j]];
    }
    assert s[|name|..|name| + 1] == "}";
    FindIsFirst(s, "}", |name|);
  }

  lemma DoubleInFront(name: string, rest: string)
    requires IsFirst(name + "}}" + rest, "}}", |name|)
    ensures var s := "{{" + name + "}}" + rest;
            && OpensDouble(s) && Find(s[2..], "}}") == Some(|name|)
            && s[2..2 + |name|] == name && s[..|name| + 4] == "{{" + name + "}}" && s[|name| + 4..] == rest
  {
    Enclosed("{{", name, "}}", rest);
    FindIsFirst(name + "}}" + rest, "}}", |name|);
  }

  /** At a double brace the compile stage copies the token and reads on behind its closing pair. */
  lemma CompileReadsDouble(alnum: char -> bool, name: string, rest: string, vars: Vars)
    requires IsFirst(name + "}}" + rest, "}}", |name|)
    ensures AtCompile(alnum, "{{" + name + "}}" + rest, vars) == "{{" + name + "}}" + AtCompile(alnum, rest, vars)
  {
    DoubleInFront(name, rest);
    ReadDouble(alnum, "{{" + name + "}}" + rest, vars, |name|);
  }

  /** A legal name is made of ASCII letters, digits and underscores and does not begin with a digit. */
  lemma LegalMeans(name: string)
    ensures Legal(name) <==>
            && name != "" && !('0' <= name[0] <= '9')
            && forall i :: 0 <= i < |name| ==>
                 'a' <= name[i] <= 'z' || 'A' <= name[i] <= 'Z' || '0' <= name[i] <= '9' || name[i] == '_'
  {
  }

  /** There the cook stage puts in the value of a legal name that has one, and leaves any other token. */
  lemma CookReadsToken(name: string, rest: string, vars: Vars)
    requires IsFirst(name + "}}" + rest, "}}", |name|)
    ensures AtCook("{{" + name + "}}" + rest, vars) ==
            (if Legal(name) && name in vars then vars[name] else "{{" + name + "}}") + AtCook(rest, vars)
  {
    DoubleInFront(name, rest);
    CookReadsDouble("{{" + name + "}}" + rest, |name|, vars);
  }

  /** The cook stage at any other character, and at a pair that is never closed. */
  lemma CookCopies(s: string, vars: Vars)
    requires s != ""
    ensures |s| == 1 || s[0] != '{' || s[1] != '{' ==> AtCook(s, vars) == [s[0]] + AtCook(s[1..], vars)
    ensures |s| >= 2 && s[0] == s[1] == '{' && (forall j :: 2 <= j < |s| - 1 ==> !(s[j] == s[j + 1] == '}')) ==>
        AtCook(s, vars) == s
  {
    if !OpensDouble(s) {
      CookReadsChar(s, vars);
    } else if forall j :: 2 <= j < |s| - 1 ==> !(s[j] == s[j + 1] == '}') {
      NeverClosed(s);
      CookReadsTail(s, vars);
    }
  }

  /** Nothing comes of nothing; with the laws above this fixes both stages on every text. */
  lemma EmptyStaysEmpty(alnum: char -> bool, vars: Vars)
    ensures AtCompile(alnum, "", vars) == "" && AtCook("", vars) == ""
  {
  }
}
