/** The order of identifiers, by code point, in which maps and queries list them. */
module Ordering {
  import opened NeedsGraph

  /** `a` does not come behind `b`. */
  predicate Before(a: string, b: string) {
    if a == [] then true
    else if b == [] then false
    else if a[0] != b[0] then a[0] < b[0]
    else Before(a[1..], b[1..])
  }

  lemma {:induction false} BeforeIsTotal(a: string, b: string)
    ensures Before(a, b) || Before(b, a)
    ensures Before(a, b) && Before(b, a) ==> a == b
    decreases |a|
  {
    if a != [] && b != [] && a[0] == b[0] {
      BeforeIsTotal(a[1..], b[1..]);
      assert a == [a[0]] + a[1..] && b == [b[0]] + b[1..];
    }
  }

  lemma {:induction false} BeforeIsTransitive(a: string, b: string, c: string)
    requires Before(a, b) && Before(b, c)
    ensures Before(a, c)
    decreases |a|
  {
    if a != [] && a[0] == b[0] == c[0] {
      BeforeIsTransitive(a[1..], b[1..], c[1..]);
    }
  }

  /** Strictly ascending. */
  ghost predicate Ascending(s: seq<string>) {
    forall i, j :: 0 <= i < j < |s| ==> Before(s[i], s[j]) && s[i] != s[j]
  }

  lemma HasMember(s: seq<string>)
    ensures s == [] || exists x :: x in s
  {
    if s != [] {
      assert s[0] in s;
    }
  }

  /** There is one way to list a set in order. */
  lemma {:induction false} AscendingIsUnique(s: seq<string>, t: seq<string>)
    requires Ascending(s) && Ascending(t) && forall x :: x in s <==> x in t
    ensures s == t
    decreases |s|
  {
    if s == [] {
      HasMember(t);
    } else {
      assert s[0] in s && s[0] in t;
      assert t[0] in t && t[0] in s;
      var i :| 0 <= i < |s| && s[i] == t[0];
      var j :| 0 <= j < |t| && t[j] == s[0];
      BeforeIsTotal(s[0], t[0]);
      assert s[0] == t[0];
      forall x
        ensures x in s[1..] <==> x in t[1..]
      {
        assert x in s[1..] <==> x in s && x != s[0];
        assert x in t[1..] <==> x in t && x != t[0];
      }
      AscendingIsUnique(s[1..], t[1..]);
    }
  }

  function InsertSorted(s: seq<string>, x: string): seq<string> {
    if s == [] || Before(x, s[0]) then [x] + s else [s[0]] + InsertSorted(s[1..], x)
  }

  function Sorted(s: seq<string>): seq<string> {
    if s == [] then [] else InsertSorted(Sorted(s[1..]), s[0])
  }

  lemma {:induction false} InsertKeepsAscending(s: seq<string>, x: string)
    requires Ascending(s) && x !in s
    ensures Ascending(InsertSorted(s, x)) && forall y :: y in InsertSorted(s, x) <==> y in s || y == x
  {
    if s == [] {
    } else if Before(x, s[0]) {
      forall j | 0 <= j < |s|
        ensures Before(x, s[j]) && x != s[j]
      {
        if j > 0 {
          BeforeIsTransitive(x, s[0], s[j]);
        }
      }
    } else {
      InsertKeepsAscending(s[1..], x);
      BeforeIsTotal(x, s[0]);
      var r := InsertSorted(s[1..], x);
      forall j | 0 <= j < |r|
        ensures Before(s[0], r[j]) && s[0] != r[j]
      {
        assert r[j] in r;
      }
      assert s == [s[0]] + s[1..];
    }
  }

  lemma {:induction false} SortedIsAscending(s: seq<string>)
    requires NoDuplicates(s)
    ensures Ascending(Sorted(s)) && forall y :: y in Sorted(s) <==> y in s
  {
    if s != [] {
      SortedIsAscending(s[1..]);
      assert s == [s[0]] + s[1..];
      InsertKeepsAscending(Sorted(s[1..]), s[0]);
    }
  }

  /** Sorting forgets everything but the set. */
  lemma SameSetSameSorted(s: seq<string>, t: seq<string>)
    requires NoDuplicates(s) && NoDuplicates(t) && forall x :: x in s <==> x in t
    ensures Sorted(s) == Sorted(t)
  {
    SortedIsAscending(s);
    SortedIsAscending(t);
    AscendingIsUnique(Sorted(s), Sorted(t));
  }

  ghost predicate Least(s: set<string>, x: string) {
    x in s && forall y :: y in s ==> Before(x, y)
  }

  lemma {:induction false} LeastExists(s: set<string>) returns (x: string)
    requires s != {}
    ensures Least(s, x)
    decreases s
  {
    x :| x in s;
    BeforeIsTotal(x, x);
    var rest := s - {x};
    if rest == {} {
      assert s == {x};
    } else {
      var y := LeastExists(rest);
      BeforeIsTotal(x, y);
      forall z | z in s
        ensures Before(if Before(x, y) then x else y, z)
      {
        if z != x && Before(x, y) {
          BeforeIsTransitive(x, y, z);
        }
      }
      x := if Before(x, y) then x else y;
    }
  }

  /** The first of a set in order. */
  method TakeLeast(s: set<string>) returns (x: string)
    requires s != {}
    ensures Least(s, x)
  {
    ghost var y := LeastExists(s);
    x :| x in s && forall y :: y in s ==> Before(x, y);
  }

  lemma AscendingSnoc(s: seq<string>, x: string)
    requires Ascending(s) && forall y :: y in s ==> Before(y, x) && y != x
    ensures Ascending(s + [x])
  {
  }

  /** `some` are the elements of `all` at the places `at`, in order. */
  ghost predicate Picks<T(!new)>(all: seq<T>, at: seq<nat>, some: seq<T>) {
    && |at| == |some|
    && (forall i :: 0 <= i < |at| ==> at[i] < |all| && some[i] == all[at[i]])
    && (forall i, j :: 0 <= i < j < |at| ==> at[i] < at[j])
  }

  /** One more element to pick from, picked or not. */
  lemma PicksSnoc<T(!new)>(all: seq<T>, at: seq<nat>, some: seq<T>, x: T)
    requires Picks(all, at, some)
    ensures Picks(all + [x], at, some) && Picks(all + [x], at + [|all|], some + [x])
    ensures forall k :: k in at + [|all|] <==> k in at || k == |all|
  {
  }
}
