/** Stripping the two `system-reminder` tags to a fixpoint, and why the result is the only one
    any order of deletions can reach. */
module PromptSafe {

  const OPEN_TAG := "<system-reminder>"
  const CLOSE_TAG := "</system-reminder>"

  predicate IsTag(t: string) {
    t == OPEN_TAG || t == CLOSE_TAG
  }

  /** Rust's `str::replace(tag, "")`: one left-to-right pass over the original text. */
  function ReplaceAll(s: string, tag: string): string
    requires tag != ""
  {
    if |s| < |tag| then s
    else if s[..|tag|] == tag then ReplaceAll(s[|tag|..], tag)
    else [s[0]] + ReplaceAll(s[1..], tag)
  }

  // ---- rewriting ---------------------------------------------------------

  /** One deletion: somewhere in the text a tag is cut out. */
  ghost predicate Cut(before: string, after: string) {
    exists a, t, c :: IsCut(before, after, a, t, c)
  }

  ghost predicate IsCut(before: string, after: string, a: string, t: string, c: string) {
    IsTag(t) && before == a + t + c && after == a + c
  }

  ghost predicate Clean(s: string) {
    forall after :: !Cut(s, after)
  }

  ghost function PickCut(s: string): (r: (string, string, string))
    requires !Clean(s)
    ensures IsCut(s, r.0 + r.2, r.0, r.1, r.2)
  {
    var after :| Cut(s, after);
    var a, t, c :| IsCut(s, after, a, t, c);
    (a, t, c)
  }

  /** Keep cutting, each time an arbitrary tag, until none is left. */
  ghost function Normal(s: string): (r: string)
    ensures Clean(r)
    decreases |s|
  {
    if Clean(s) then s
    else
      var (a, t, c) := PickCut(s);
      Normal(a + c)
  }

  lemma TagShape(t: string, k: nat)
    requires IsTag(t) && k < |t|
    ensures t[k] == '<' <==> k == 0
    ensures |t| > 1 && t[1] == if t == OPEN_TAG then 's' else '/'
  {
    assert OPEN_TAG[0] == '<' && CLOSE_TAG[0] == '<';
  }

  lemma SplitSame(a: string, x: string, b: string, y: string)
    requires a + x == b + y && |a| == |b|
    ensures a == b && x == y
  {
    assert a == (a + x)[..|a|] && b == (b + y)[..|b|];
    assert x == (a + x)[|a|..] && y == (b + y)[|b|..];
  }

  lemma SplitLonger(a: string, x: string, b: string, y: string) returns (mid: string)
    requires a + x == b + y && |a| <= |b|
    ensures b == a + mid && x == mid + y
  {
    mid := b[|a|..];
    SplitSame(a, x, b[..|a|], mid + y) by {
      assert b == b[..|a|] + mid;
      assert b[..|a|] + (mid + y) == b + y;
    }
  }

  lemma SameStartSameTag(t: string, c: string, u: string, d: string)
    requires IsTag(t) && IsTag(u) && t + c == u + d
    ensures t == u && c == d
  {
    TagShape(t, 1);
    TagShape(u, 1);
    assert (t + c)[1] == t[1] && (u + d)[1] == u[1];
    SplitSame(t, c, u, d);
  }

  lemma NoStraddle(t: string, c: string, x: string, u: string, d: string)
    requires IsTag(t) && IsTag(u) && t + c == x + (u + d) && x != ""
    ensures |t| <= |x|
  {
    TagShape(u, 0);
    assert (x + (u + d))[|x|] == '<';
    if |x| < |t| {
      TagShape(t, |x|);
    }
  }

  /** Two tags of one text are the same occurrence or apart: a tag begins with `<` and holds no
      other, and the two tags differ in their second character. */
  lemma TagsApart(a: string, t: string, c: string, b: string, u: string, d: string)
    returns (mid: string)
    requires IsTag(t) && IsTag(u) && a + t + c == b + u + d && |a| <= |b|
    ensures (a == b && t == u && c == d) || (b == a + t + mid && c == mid + u + d)
  {
    assert a + t + c == a + (t + c) && b + u + d == b + (u + d);
    var x := SplitLonger(a, t + c, b, u + d);
    assert x + (u + d) == (x + u) + d;
    mid := "";
    if x == "" {
      assert x + (u + d) == u + d;
      SameStartSameTag(t, c, u, d);
    } else {
      NoStraddle(t, c, x, u, d);
      mid := SplitLonger(t, c, x, u + d);
      assert b == a + t + mid && c == mid + u + d;
    }
  }

  /** Cutting any tag leads to the same normal form. */
  lemma {:induction false} CutKeepsNormal(a: string, t: string, c: string)
    requires IsTag(t)
    ensures Normal(a + t + c) == Normal(a + c)
    decreases |a + t + c|
  {
    var s := a + t + c;
    assert IsCut(s, a + c, a, t, c) && Cut(s, a + c);
    var (b, u, d) := PickCut(s);
    if |a| <= |b| {
      CutsCommute(a, t, c, b, u, d);
    } else {
      CutsCommute(b, u, d, a, t, c);
    }
  }

  lemma {:induction false} CutsCommute(a: string, t: string, c: string, b: string, u: string, d: string)
    requires IsTag(t) && IsTag(u) && a + t + c == b + u + d && |a| <= |b|
    ensures Normal(a + c) == Normal(b + d)
    decreases |a + t + c|, 0
  {
    var mid := TagsApart(a, t, c, b, u, d);
    if !(a == b && t == u && c == d) {
      assert a + c == (a + mid) + u + d;
      assert b + d == a + t + (mid + d);
      CutKeepsNormal(a + mid, u, d);
      CutKeepsNormal(a, t, mid + d);
      assert (a + mid) + d == a + (mid + d);
    }
  }

  // ---- the pass and the loop ---------------------------------------------

  /** A whole `replace` pass, in any context, is a series of cuts. */
  lemma {:induction false} ReplaceKeepsNormal(pre: string, s: string, tag: string)
    requires IsTag(tag)
    ensures Normal(pre + ReplaceAll(s, tag)) == Normal(pre + s)
    decreases |s|
  {
    if |s| >= |tag| {
      if s[..|tag|] == tag {
        var rest := s[|tag|..];
        assert s == tag + rest && pre + tag + rest == pre + s;
        ReplaceKeepsNormal(pre, rest, tag);
        CutKeepsNormal(pre, tag, rest);
      } else {
        var head, rest := [s[0]], s[1..];
        assert s == head + rest;
        assert (pre + head) + ReplaceAll(rest, tag) == pre + ReplaceAll(s, tag);
        assert (pre + head) + rest == pre + s;
        ReplaceKeepsNormal(pre + head, rest, tag);
      }
    }
  }

  /** A pass that finds the tag shortens the text; one that does not leaves it alone. */
  lemma {:induction false} ReplaceShortens(s: string, tag: string)
    requires tag != ""
    ensures ReplaceAll(s, tag) == s || |ReplaceAll(s, tag)| < |s|
    decreases |s|
  {
    if |s| >= |tag| {
      if s[..|tag|] == tag {
        ReplaceShortens(s[|tag|..], tag);
      } else {
        ReplaceShortens(s[1..], tag);
      }
    }
  }

  lemma {:induction false} ReplaceFinds(a: string, tag: string, c: string)
    requires tag != ""
    ensures |ReplaceAll(a + tag + c, tag)| < |a + tag + c|
    decreases |a|
  {
    var s := a + tag + c;
    if s[..|tag|] == tag {
      ReplaceShortens(s[|tag|..], tag);
    } else {
      assert a == "" ==> s == tag + c;
      assert s[1..] == a[1..] + tag + c;
      ReplaceFinds(a[1..], tag, c);
    }
  }

  /** A text that both passes leave alone holds no tag. */
  lemma StableIsClean(s: string)
    requires ReplaceAll(ReplaceAll(s, CLOSE_TAG), OPEN_TAG) == s
    ensures Clean(s)
  {
    ReplaceShortens(s, CLOSE_TAG);
    ReplaceShortens(ReplaceAll(s, CLOSE_TAG), OPEN_TAG);
    forall a, t, c | IsTag(t) && s == a + t + c
      ensures false
    {
      ReplaceFinds(a, t, c);
    }
  }

  /** The loop terminates with the normal form of its input: no tag is left in it. */
  method SanitizeForSystemReminder(s: string) returns (r: string)
    ensures r == Normal(s) && Clean(r)
  {
    if s == "" {
      assert Clean("") by {
        StableIsClean("");
      }
      return "";
    }
    var cur := s;
    while true
      invariant Normal(cur) == Normal(s)
      decreases |cur|
    {
      var stripped := ReplaceAll(ReplaceAll(cur, CLOSE_TAG), OPEN_TAG);
      ReplaceShortens(cur, CLOSE_TAG);
      ReplaceShortens(ReplaceAll(cur, CLOSE_TAG), OPEN_TAG);
      if stripped == cur {
        StableIsClean(cur);
        return stripped;
      }
      ReplaceKeepsNormal("", cur, CLOSE_TAG);
      ReplaceKeepsNormal("", ReplaceAll(cur, CLOSE_TAG), OPEN_TAG);
      assert "" + cur == cur && "" + ReplaceAll(cur, CLOSE_TAG) == ReplaceAll(cur, CLOSE_TAG) &&
          "" + stripped == stripped;
      cur := stripped;
    }
  }

  // ---- what the normal form is worth -------------------------------------

  /** A run of deletions, one tag at a time, in any order. */
  ghost predicate Deletions(texts: seq<string>) {
    texts != [] && forall i :: 0 <= i < |texts| - 1 ==> CutAt(texts, i)
  }

  ghost predicate CutAt(texts: seq<string>, i: int)
    requires 0 <= i < |texts| - 1
  {
    Cut(texts[i], texts[i + 1])
  }

  /** Confluence: every run of deletions that ends with no tag left ends in the normal form. */
  lemma {:induction false} EveryOrderAgrees(texts: seq<string>)
    requires Deletions(texts) && Clean(texts[|texts| - 1])
    ensures texts[|texts| - 1] == Normal(texts[0])
    decreases |texts|
  {
    if |texts| > 1 {
      assert CutAt(texts, 0);
      var a, t, c :| IsCut(texts[0], texts[1], a, t, c);
      CutKeepsNormal(a, t, c);
      forall i | 0 <= i < |texts[1..]| - 1
        ensures CutAt(texts[1..], i)
      {
        assert CutAt(texts, i + 1);
      }
      EveryOrderAgrees(texts[1..]);
    }
  }

  /** The normal form is reached by deleting tags and nothing else. */
  lemma {:induction false} NormalByDeletions(s: string) returns (texts: seq<string>)
    ensures Deletions(texts) && texts[0] == s && texts[|texts| - 1] == Normal(s)
    decreases |s|
  {
    if Clean(s) {
      return [s];
    }
    var (a, t, c) := PickCut(s);
    var rest := NormalByDeletions(a + c);
    texts := [s] + rest;
    forall i | 0 <= i < |texts| - 1
      ensures CutAt(texts, i)
    {
      if i > 0 {
        assert CutAt(rest, i - 1);
      }
    }
  }

  lemma {:induction false} NormalInContext(pre: string, s: string, post: string)
    ensures Normal(pre + s + post) == Normal(pre + Normal(s) + post)
    decreases |s|
  {
    if !Clean(s) {
      var (a, t, c) := PickCut(s);
      NormalInContext(pre, a + c, post);
      CutKeepsNormal(pre + a, t, c + post);
      assert (pre + a) + t + (c + post) == pre + s + post;
      assert (pre + a) + (c + post) == pre + (a + c) + post;
    }
  }

  lemma NormalInFront(s: string, post: string)
    ensures Normal(s + post) == Normal(Normal(s) + post)
  {
    var pre, n := "", Normal(s);
    NormalInContext(pre, s, post);
    assert pre + s == s && pre + n == n;
  }

  lemma NormalBehind(pre: string, s: string)
    ensures Normal(pre + s) == Normal(pre + Normal(s))
  {
    var post, n := "", Normal(s);
    NormalInContext(pre, s, post);
    assert (pre + s) + post == pre + s && (pre + n) + post == pre + n;
  }

  /** Sanitizing piecewise and then the whole is sanitizing the whole: no tag hides on a seam. */
  lemma SanitizeConcat(a: string, b: string)
    ensures Normal(a + b) == Normal(Normal(a) + Normal(b))
  {
    NormalInFront(a, b);
    NormalBehind(Normal(a), b);
  }
}
