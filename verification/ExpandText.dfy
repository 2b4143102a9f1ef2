/** What substituting a template step leaves alone. */
module ExpandText {
  import opened Wrappers
  import opened Formula
  import opened Braces
  import opened Expand

  lemma {:induction false} AbsentStays(s: string, pat: string, text: string)
    requires pat != "" && forall j :: 0 <= j < |s| ==> !OccursAt(s, pat, j)
    ensures Replaced(s, pat, text) == s
    decreases |s|
  {
    if s != "" {
      assert !OccursAt(s, pat, 0);
      forall j | 0 <= j < |s[1..]|
        ensures !OccursAt(s[1..], pat, j)
      {
        OccursShift(s, pat, j + 1);
      }
      AbsentStays(s[1..], pat, text);
    }
  }

  lemma StartsWith(s: string, pat: string, j: nat)
    requires pat != "" && OccursAt(s, pat, j)
    ensures j < |s| && s[j] == pat[0]
    ensures forall i :: 0 <= i < |pat| ==> s[j + i] == pat[i]
  {
    forall i | 0 <= i < |pat|
      ensures s[j + i] == pat[i]
    {
      assert s[j..j + |pat|][i] == s[j + i];
    }
  }

  lemma NoBraceNoPattern(s: string, pat: string, text: string)
    requires pat != "" && pat[0] == '{' && '{' !in s
    ensures Replaced(s, pat, text) == s
  {
    forall j | 0 <= j < |s|
      ensures !OccursAt(s, pat, j)
    {
      if OccursAt(s, pat, j) {
        StartsWith(s, pat, j);
      }
    }
    AbsentStays(s, pat, text);
  }

  lemma {:induction false} CompileLeavesPlain(alnum: char -> bool, s: string, vars: Vars)
    requires '{' !in s
    ensures AtCompile(alnum, s, vars) == s
    decreases |s|
  {
    if s != "" {
      assert s[0] in s;
      CompileLeavesPlain(alnum, s[1..], vars);
      ReadLit(alnum, s, vars);
    }
  }

  lemma SubLeavesPlain(b: Binding, s: string)
    requires '{' !in s
    ensures TargetFamily(b, s) == s && Sub(b, s) == s
  {
    NoBraceNoPattern(s, "{target.id}", b.id);
    NoBraceNoPattern(s, "{target.title}", b.title);
    NoBraceNoPattern(s, "{target.description}", b.description);
    NoBraceNoPattern(s, "{target}", b.id);
    CompileLeavesPlain(b.alnum, s, b.vars);
  }

  /** No brace opens before a `t`. */
  ghost predicate TargetFree(s: string) {
    forall j :: 0 <= j < |s| - 1 && s[j] == '{' ==> s[j + 1] != 't'
  }

  lemma NoTargetPattern(s: string, pat: string, text: string)
    requires |pat| >= 2 && pat[0] == '{' && pat[1] == 't' && TargetFree(s)
    ensures Replaced(s, pat, text) == s
  {
    forall j | 0 <= j < |s|
      ensures !OccursAt(s, pat, j)
    {
      if OccursAt(s, pat, j) {
        StartsWith(s, pat, j);
      }
    }
    AbsentStays(s, pat, text);
  }

  lemma FamilyLeavesTargetFree(b: Binding, s: string)
    requires TargetFree(s)
    ensures TargetFamily(b, s) == s
  {
    NoTargetPattern(s, "{target.id}", b.id);
    NoTargetPattern(s, "{target.title}", b.title);
    NoTargetPattern(s, "{target.description}", b.description);
    NoTargetPattern(s, "{target}", b.id);
  }

  predicate PlainOption(o: Option<string>) {
    o.Some? ==> '{' !in o.value
  }

  ghost predicate PlainValues(m: map<string, string>) {
    forall k :: k in m ==> '{' !in m[k]
  }

  ghost predicate PlainStep(s: Step)
    decreases s
  {
    && PlainOption(s.id) && PlainOption(s.title) && PlainOption(s.description) && PlainOption(s.assignee)
    && PlainOption(s.checkPath) && PlainOption(s.expand) && (s.condition.Some? ==> TargetFree(s.condition.value))
    && (forall i :: 0 <= i < |s.needs| ==> '{' !in s.needs[i])
    && PlainValues(s.metadata) && PlainValues(s.expandVars)
    && forall c :: c in s.children ==> PlainStep(c)
  }

  lemma PlainOptionStays(b: Binding, o: Option<string>)
    requires PlainOption(o)
    ensures SubOption(b, o) == o
  {
    if o.Some? {
      SubLeavesPlain(b, o.value);
    }
  }

  lemma PlainEachStays(b: Binding, s: seq<string>)
    requires forall i :: 0 <= i < |s| ==> '{' !in s[i]
    ensures SubEach(b, s) == s
  {
    forall i | 0 <= i < |s|
      ensures SubEach(b, s)[i] == s[i]
    {
      SubLeavesPlain(b, s[i]);
    }
  }

  lemma PlainValuesStay(b: Binding, m: map<string, string>)
    requires PlainValues(m)
    ensures SubValues(b, m) == m
  {
    forall k | k in m
      ensures SubValues(b, m)[k] == m[k]
    {
      SubLeavesPlain(b, m[k]);
    }
  }

  lemma PlainFieldsStay(b: Binding, s: Step)
    requires PlainStep(s)
    ensures SubstitutedFields(b, s, s.children) == s
  {
    PlainOptionStays(b, s.id);
    PlainOptionStays(b, s.title);
    PlainOptionStays(b, s.description);
    PlainOptionStays(b, s.checkPath);
    PlainOptionStays(b, s.expand);
    PlainEachStays(b, s.needs);
    PlainValuesStay(b, s.metadata);
    PlainValuesStay(b, s.expandVars);
    if s.assignee.Some? {
      CompileLeavesPlain(b.alnum, s.assignee.value, b.vars);
    }
    if s.condition.Some? {
      FamilyLeavesTargetFree(b, s.condition.value);
    }
  }

  /** A template step without an opening brace anywhere, except in conditions that name no target,
      comes out of substitution as it went in, field for field, children included. */
  lemma {:induction false} PlainTemplateStays(b: Binding, s: Step)
    requires PlainStep(s)
    ensures Substituted(b, s) == s
    decreases s, 0
  {
    PlainTemplatesStay(b, s.children);
    PlainFieldsStay(b, s);
  }

  lemma {:induction false} PlainTemplatesStay(b: Binding, steps: seq<Step>)
    requires forall s :: s in steps ==> PlainStep(s)
    ensures SubstitutedAll(b, steps) == steps
    decreases steps, 1
  {
    if steps != [] {
      PlainTemplateStays(b, steps[0]);
      PlainTemplatesStay(b, steps[1..]);
    }
  }
}
