/** Step conditions: `{{var}} == value` or `{{var}} != value`, decided by looking the variable up. */
module Condition {
  import opened Text
  import opened Wrappers
  import opened Braces

  /** The merged variables: a declared name may have no value. */
  type Values = map<string, Option<string>>

  function Defined(values: Values): Vars {
    map k | k in values && values[k].Some? :: values[k].value
  }

  // ---- trimming ----------------------------------------------------------

  predicate IsDouble(c: char) { c == '"' }

  predicate IsSingle(c: char) { c == '\'' }

  function TrimStart(s: string, drop: char -> bool): string {
    if s != "" && drop(s[0]) then TrimStart(s[1..], drop) else s
  }

  function TrimEnd(s: string, drop: char -> bool): string {
    if s != "" && drop(s[|s| - 1]) then TrimEnd(s[..|s| - 1], drop) else s
  }

  function Trim(s: string, drop: char -> bool): string {
    TrimEnd(TrimStart(s, drop), drop)
  }

  // ---- evaluation --------------------------------------------------------

  datatype ConditionError = NoOperator | NotOneVariable

  datatype Comparison = Comparison(left: string, equals: bool, right: string)

  function SplitOnce(expr: string, op: string): Option<(string, string)> {
    match Find(expr, op)
    case None => None
    case Some(k) => Some((expr[..k], expr[k + |op|..]))
  }

  function Split(expr: string): Option<Comparison> {
    match SplitOnce(expr, "==")
    case Some((l, r)) => Some(Comparison(l, true, r))
    case None =>
      match SplitOnce(expr, "!=")
      case Some((l, r)) => Some(Comparison(l, false, r))
      case None => None
  }

  /** The name between the double braces, if they are all there is. */
  function VariableOf(left: string): Option<string> {
    var t := Trim(left, IsSpace);
    if |t| >= 4 && t[..2] == "{{" && t[|t| - 2..] == "}}" then Some(Trim(t[2..|t| - 2], IsSpace)) else None
  }

  function Unquoted(right: string): string {
    Trim(Trim(Trim(right, IsSpace), IsDouble), IsSingle)
  }

  /** Looks the variable up; one that is undefined equals nothing. */
  predicate Holds(values: Values, name: string, value: string) {
    name in values && values[name] == Some(value)
  }

  function EvalCondition(expr: string, values: Values): Result<bool, ConditionError> {
    match Split(expr)
    case None => Err(NoOperator)
    case Some(c) =>
      match VariableOf(c.left)
      case None => Err(NotOneVariable)
      case Some(name) => Ok(c.equals == Holds(values, name, Unquoted(c.right)))
  }

  // ---- what a condition means, however it is spaced and quoted ------------

  /** The gaps of a condition, and the quotes around its value: double ones outside, single ones inside. */
  datatype Writing = Writing(
    lead: string,
    left: string,
    right: string,
    before: string,
    after: string,
    trail: string,
    doubles: (string, string),
    singles: (string, string))

  ghost predicate AllOf(s: string, drop: char -> bool) {
    forall c :: c in s ==> drop(c)
  }

  ghost predicate ProperWriting(w: Writing) {
    && AllOf(w.lead, IsSpace) && AllOf(w.left, IsSpace) && AllOf(w.right, IsSpace) && AllOf(w.before, IsSpace)
    && AllOf(w.after, IsSpace) && AllOf(w.trail, IsSpace)
    && AllOf(w.doubles.0, IsDouble) && AllOf(w.doubles.1, IsDouble)
    && AllOf(w.singles.0, IsSingle) && AllOf(w.singles.1, IsSingle)
  }

  function Operator(equals: bool): string {
    if equals then "==" else "!="
  }

  function LeftSide(name: string, w: Writing): string {
    w.lead + ("{{" + (w.left + name + w.right) + "}}") + w.before
  }

  function RightSide(value: string, w: Writing): string {
    w.after + (w.doubles.0 + (w.singles.0 + value + w.singles.1) + w.doubles.1) + w.trail
  }

  function Phrase(name: string, equals: bool, value: string, w: Writing): string {
    LeftSide(name, w) + (Operator(equals) + RightSide(value, w))
  }

  /** Neither end is dropped. */
  predicate EndsClear(s: string, drop: char -> bool) {
    s == "" || (!drop(s[0]) && !drop(s[|s| - 1]))
  }

  /** A name keeps its inner spaces, but begins and ends without, and holds no mark of the grammar. */
  ghost predicate ProperName(name: string) {
    EndsClear(name, IsSpace) && forall c :: c in name ==> c !in "=!{}"
  }

  /** So does a value, which begins and ends without a quote too. */
  ghost predicate ProperValue(value: string) {
    EndsClear(value, IsSpace) && EndsClear(value, IsDouble) && EndsClear(value, IsSingle)
  }

  lemma {:induction false} StartTrims(a: string, s: string, drop: char -> bool)
    requires AllOf(a, drop)
    ensures TrimStart(a + s, drop) == TrimStart(s, drop)
    decreases |a|
  {
    if a == "" {
      assert a + s == s;
    } else {
      assert a[0] in a && (a + s)[1..] == a[1..] + s;
      StartTrims(a[1..], s, drop);
    }
  }

  lemma {:induction false} EndTrims(s: string, b: string, drop: char -> bool)
    requires AllOf(b, drop)
    ensures TrimEnd(s + b, drop) == TrimEnd(s, drop)
    decreases |b|
  {
    if b == "" {
      assert s + b == s;
    } else {
      var init, last := b[..|b| - 1], b[|b| - 1];
      assert last in b && (s + b)[..|s + b| - 1] == s + init;
      EndTrims(s, init, drop);
    }
  }

  /** Trimming takes off exactly a frame of droppable characters. */
  lemma FrameTrims(a: string, s: string, b: string, drop: char -> bool)
    requires AllOf(a, drop) && AllOf(b, drop) && EndsClear(s, drop)
    ensures Trim(a + s + b, drop) == s
  {
    assert a + s + b == a + (s + b);
    StartTrims(a, s + b, drop);
    if s == "" {
      assert s + b == b + "";
      StartTrims(b, "", drop);
    } else {
      assert (s + b)[0] == s[0];
      EndTrims(s, b, drop);
    }
  }

  lemma FrameClears(a: string, s: string, b: string, drop: char -> bool)
    requires (forall c :: c in a ==> !drop(c)) && (forall c :: c in b ==> !drop(c)) && EndsClear(s, drop)
    ensures EndsClear(a + s + b, drop)
  {
    var all := a + s + b;
    if all != "" {
      assert all[0] == if a != "" then a[0] else if s != "" then s[0] else b[0];
      assert all[|all| - 1] == if b != "" then b[|b| - 1] else if s != "" then s[|s| - 1] else a[|a| - 1];
      assert a != "" ==> a[0] in a && a[|a| - 1] in a;
      assert b != "" ==> b[0] in b && b[|b| - 1] in b;
    }
  }

  lemma LeftIsVariable(name: string, w: Writing)
    requires ProperName(name) && ProperWriting(w)
    ensures VariableOf(LeftSide(name, w)) == Some(name)
  {
    var inner := w.left + name + w.right;
    var t := "{{" + inner + "}}";
    assert t[0] == '{' && t[|t| - 1] == '}';
    FrameTrims(w.lead, t, w.before, IsSpace);
    assert t[..2] == "{{" && t[|t| - 2..] == "}}" && t[2..|t| - 2] == inner;
    FrameTrims(w.left, name, w.right, IsSpace);
  }

  lemma RightIsValue(value: string, w: Writing)
    requires ProperValue(value) && ProperWriting(w)
    ensures Unquoted(RightSide(value, w)) == value
  {
    var inner := w.singles.0 + value + w.singles.1;
    var quoted := w.doubles.0 + inner + w.doubles.1;
    FrameClears(w.singles.0, value, w.singles.1, IsSpace);
    FrameClears(w.doubles.0, inner, w.doubles.1, IsSpace);
    FrameTrims(w.after, quoted, w.trail, IsSpace);
    FrameClears(w.singles.0, value, w.singles.1, IsDouble);
    FrameTrims(w.doubles.0, inner, w.doubles.1, IsDouble);
    FrameTrims(w.singles.0, value, w.singles.1, IsSingle);
  }

  lemma OccursTwo(s: string, pat: string, j: nat)
    requires |pat| == 2
    ensures OccursAt(s, pat, j) <==> j + 2 <= |s| && s[j] == pat[0] && s[j + 1] == pat[1]
  {
    if j + 2 <= |s| {
      assert s[j..j + 2] == [s[j], s[j + 1]];
      assert pat == [pat[0], pat[1]];
    }
  }

  lemma JoinedParts(l: string, op: string, r: string, j: nat)
    requires |op| == 2
    ensures var s, k := l + (op + r), |l|;
            && s[..k] == l && s[k + 2..] == r && s[k] == op[0] && s[k + 1] == op[1]
            && (j < k ==> s[j] in l) && (k + 1 < j < |s| ==> s[j] in r)
  {
    var s, k := l + (op + r), |l|;
    assert j < k ==> s[j] == l[j];
    assert k + 1 < j < |s| ==> s[j] == r[j - k - 2];
  }

  /** A text parts at its first `==`, whatever stands behind it; without one, at its first `!=`. */
  lemma PartsAtOperator(l: string, equals: bool, r: string)
    requires '=' !in l && (equals || ('!' !in l && '=' !in r))
    ensures Split(l + (Operator(equals) + r)) == Some(Comparison(l, equals, r))
  {
    var op := Operator(equals);
    var s, k := l + (op + r), |l|;
    JoinedParts(l, op, r, 0);
    forall j: nat | j <= |s|
      ensures j < k ==> !OccursAt(s, op, j)
      ensures !equals ==> !OccursAt(s, "==", j)
    {
      JoinedParts(l, op, r, j);
      JoinedParts(l, op, r, j + 1);
      OccursTwo(s, op, j);
      OccursTwo(s, "==", j);
    }
    OccursTwo(s, op, k);
    FindIsFirst(s, op, k);
    FindNone(s, "==");
  }

  lemma SidesHoldNoMark(name: string, value: string, w: Writing)
    requires ProperName(name) && ProperWriting(w)
    ensures '=' !in LeftSide(name, w) && '!' !in LeftSide(name, w)
    ensures '=' !in value ==> '=' !in RightSide(value, w)
  {
  }

  /** What a condition means: it compares the variable named between the double braces, white space
      around the name or not, with the value behind the operator, white space and quotes around it or
      not; undefined, `==` is false and `!=` is true. Behind `==` the value may even hold `!=`. */
  lemma ConditionMeans(name: string, equals: bool, value: string, w: Writing, values: Values)
    requires ProperName(name) && ProperValue(value) && ProperWriting(w) && (equals || '=' !in value)
    ensures EvalCondition(Phrase(name, equals, value, w), values) ==
            Ok(if equals then name in values && values[name] == Some(value)
               else name !in values || values[name] != Some(value))
  {
    SidesHoldNoMark(name, value, w);
    PartsAtOperator(LeftSide(name, w), equals, RightSide(value, w));
    LeftIsVariable(name, w);
    RightIsValue(value, w);
  }

  /** A left side that is not one variable in double braces, white space aside, cannot be decided. */
  lemma VariableIsNeeded(lead: string, core: string, before: string, equals: bool, r: string, values: Values)
    requires AllOf(lead, IsSpace) && AllOf(before, IsSpace) && EndsClear(core, IsSpace)
    requires '=' !in core && '!' !in core && (equals || '=' !in r)
    ensures EvalCondition(lead + core + before + (Operator(equals) + r), values) == Err(NotOneVariable) <==>
            |core| < 4 || core[..2] != "{{" || core[|core| - 2..] != "}}"
  {
    assert '=' !in lead + core + before && '!' !in lead + core + before;
    PartsAtOperator(lead + core + before, equals, r);
    FrameTrims(lead, core, before, IsSpace);
  }

  predicate OperatorAt(expr: string, j: int) {
    0 <= j < |expr| - 1 && expr[j + 1] == '=' && (expr[j] == '=' || expr[j] == '!')
  }

  /** A text without either operator cannot be decided, and no other fails for want of one. */
  lemma OperatorIsNeeded(expr: string, values: Values)
    ensures EvalCondition(expr, values) == Err(NoOperator) <==> forall j :: !OperatorAt(expr, j)
  {
    FindNone(expr, "==");
    FindNone(expr, "!=");
    forall j: nat
      ensures OperatorAt(expr, j) <==> OccursAt(expr, "==", j) || OccursAt(expr, "!=", j)
    {
      OccursTwo(expr, "==", j);
      OccursTwo(expr, "!=", j);
    }
  }

  // ---- the usual spelling ------------------------------------------------

  ghost predicate PlainWord(s: string) {
    forall c :: c in s ==> !IsSpace(c) && c !in "=!{}\"'"
  }

  function Spelled(name: string, equals: bool, value: string): string {
    ("{{" + name + "}} ") + (Operator(equals) + (" " + value))
  }

  const USUAL := Writing("", "", "", " ", " ", "", ("", ""), ("", ""))

  lemma PlainIsProper(word: string)
    requires PlainWord(word)
    ensures ProperName(word) && ProperValue(word)
  {
    assert word != "" ==> word[0] in word && word[|word| - 1] in word;
  }

  lemma UsualSides(name: string, value: string)
    ensures LeftSide(name, USUAL) == "{{" + name + "}} " && RightSide(value, USUAL) == " " + value
  {
    assert "" + name + "" == name && "" + value + "" == value;
  }

  lemma SpelledMeans(name: string, equals: bool, value: string, values: Values)
    requires PlainWord(name) && PlainWord(value)
    ensures EvalCondition(Spelled(name, equals, value), values) ==
            Ok(if equals then name in values && values[name] == Some(value)
               else name !in values || values[name] != Some(value))
  {
    PlainIsProper(name);
    PlainIsProper(value);
    assert AllOf(" ", IsSpace);
    UsualSides(name, value);
    ConditionMeans(name, equals, value, USUAL, values);
  }
}
