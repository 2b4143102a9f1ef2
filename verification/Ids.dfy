/** Bead ids `{prefix}-{n}` and the per-prefix counter that allocates them. */
module Ids {
  import opened Wrappers

  const I64_MAX := 0x7FFF_FFFF_FFFF_FFFF

  predicate IsLower(c: char) { 'a' <= c <= 'z' }

  predicate IsDigit(c: char) { '0' <= c <= '9' }

  predicate ValidPrefix(prefix: string) {
    && |prefix| > 0 && IsLower(prefix[0])
    && forall i :: 1 <= i < |prefix| ==> IsLower(prefix[i]) || IsDigit(prefix[i])
  }

  /** The text before and after the first occurrence of `c`. */
  function SplitOnce(s: string, c: char): Option<(string, string)> {
    if s == "" then None
    else if s[0] == c then Some(("", s[1..]))
    else match SplitOnce(s[1..], c)
      case None => None
      case Some((a, b)) => Some(([s[0]] + a, b))
  }

  /** Base-ten reading of a digit string; no width limit. */
  function Value(digits: string): nat
    requires forall i :: 0 <= i < |digits| ==> IsDigit(digits[i])
  {
    if digits == "" then 0
    else
      var last := digits[|digits| - 1];
      assert IsDigit(last);
      Value(digits[..|digits| - 1]) * 10 + (last as int - '0' as int)
  }

  function DigitChar(d: nat): char
    requires d < 10
  {
    ('0' as int + d) as char
  }

  /** The shortest decimal spelling. */
  function Decimal(n: nat): string {
    if n < 10 then [DigitChar(n)] else Decimal(n / 10) + [DigitChar(n % 10)]
  }

  function FormatId(prefix: string, n: nat): string {
    prefix + "-" + Decimal(n)
  }

  predicate Canonical(num: string) {
    && num != "" && (forall i :: 0 <= i < |num| ==> IsDigit(num[i]))
    && (|num| > 1 ==> num[0] != '0')
  }

  function ParseBeadId(id: string): Option<(string, nat)> {
    match SplitOnce(id, '-')
    case None => None
    case Some((prefix, num)) =>
      if !Canonical(num) || !ValidPrefix(prefix) || Value(num) > I64_MAX then None
      else Some((prefix, Value(num)))
  }

  // ---- formatting and parsing are inverse to each other ------------------

  lemma {:induction false} SplitOnceExact(s: string, c: char, a: string, b: string)
    ensures SplitOnce(s, c) == Some((a, b)) <==> c !in a && s == a + [c] + b
  {
    if s == "" {
    } else if s[0] == c {
      if c !in a && s == a + [c] + b {
        assert s[0] == (a + [c] + b)[0];
      }
      assert s == "" + [c] + s[1..];
    } else {
      if a != "" {
        SplitOnceExact(s[1..], c, a[1..], b);
        assert a == [a[0]] + a[1..];
        assert s == [s[0]] + s[1..];
        assert a + [c] + b == [a[0]] + (a[1..] + [c] + b);
      }
    }
  }

  lemma {:induction false} DecimalRoundTrip(n: nat)
    ensures Canonical(Decimal(n)) && Value(Decimal(n)) == n
    ensures n > 0 ==> Decimal(n)[0] != '0'
  {
    var last := [DigitChar(n % 10)];
    assert last[..0] == "" && Value("") == 0;
    if n >= 10 {
      DecimalRoundTrip(n / 10);
      var d := Decimal(n);
      assert d[..|d| - 1] == Decimal(n / 10);
    }
  }

  lemma {:induction false} CanonicalIsDecimal(num: string)
    requires Canonical(num)
    ensures num == Decimal(Value(num))
    ensures num[0] != '0' ==> Value(num) > 0
  {
    var init, last := num[..|num| - 1], num[|num| - 1];
    assert num == init + [last];
    if |num| > 1 {
      CanonicalIsDecimal(init);
    }
  }

  /** An id parses to `(prefix, n)` exactly when it is the canonical spelling of that pair. */
  lemma ParseExact(id: string, prefix: string, n: nat)
    ensures ParseBeadId(id) == Some((prefix, n)) <==>
            ValidPrefix(prefix) && n <= I64_MAX && id == FormatId(prefix, n)
  {
    if ParseBeadId(id) == Some((prefix, n)) {
      var num := SplitOnce(id, '-').value.1;
      SplitOnceExact(id, '-', prefix, num);
      CanonicalIsDecimal(num);
    }
    if ValidPrefix(prefix) && n <= I64_MAX && id == FormatId(prefix, n) {
      SplitOnceExact(id, '-', prefix, Decimal(n));
      DecimalRoundTrip(n);
    }
  }

  lemma FormatInjective(prefix: string, m: nat, n: nat)
    requires FormatId(prefix, m) == FormatId(prefix, n)
    ensures m == n
  {
    assert Decimal(m) == FormatId(prefix, m)[|prefix| + 1..];
    assert Decimal(n) == FormatId(prefix, n)[|prefix| + 1..];
    DecimalRoundTrip(m);
    DecimalRoundTrip(n);
  }

  // ---- the counter -------------------------------------------------------

  /** `Overflow` stands for the 64-bit addition that no longer fits. */
  datatype IdError = InvalidPrefix(prefix: string) | Overflow | MalformedId(id: string)

  type Counters = map<string, nat>

  function High(counters: Counters, prefix: string): nat {
    if prefix in counters then counters[prefix] else 0
  }

  function NextBeadId(counters: Counters, prefix: string): Result<string, IdError> {
    if !ValidPrefix(prefix) then Err(InvalidPrefix(prefix))
    else if High(counters, prefix) >= I64_MAX then Err(Overflow)
    else Ok(FormatId(prefix, High(counters, prefix) + 1))
  }

  function BumpCounter(counters: Counters, id: string): Result<Counters, IdError> {
    match ParseBeadId(id)
    case None => Err(MalformedId(id))
    case Some((prefix, n)) =>
      Ok(counters[prefix := if High(counters, prefix) > n then High(counters, prefix) else n])
  }

  /** Each prefix's counter is the largest number an existing id of that prefix carries. */
  ghost predicate CountersTrack(ids: set<string>, counters: Counters) {
    && (forall id {:trigger Covered(id, counters)} :: id in ids ==> Covered(id, counters))
    && (forall p {:trigger Attained(ids, counters, p)} :: p in counters ==> Attained(ids, counters, p))
  }

  ghost predicate Attained(ids: set<string>, counters: Counters, p: string)
    requires p in counters
  {
    ValidPrefix(p) && counters[p] <= I64_MAX && FormatId(p, counters[p]) in ids
  }

  ghost predicate Covered(id: string, counters: Counters) {
    match ParseBeadId(id)
    case None => false
    case Some((p, n)) => p in counters && n <= counters[p]
  }

  lemma BumpKeepsTrack(ids: set<string>, counters: Counters, id: string)
    requires CountersTrack(ids, counters) && BumpCounter(counters, id).Ok?
    ensures CountersTrack(ids + {id}, BumpCounter(counters, id).value)
  {
    var (prefix, n) := ParseBeadId(id).value;
    ParseExact(id, prefix, n);
    var after := BumpCounter(counters, id).value;
    forall x | x in ids + {id}
      ensures Covered(x, after)
    {
      if x != id {
        assert Covered(x, counters);
      }
    }
    forall p | p in after
      ensures Attained(ids + {id}, after, p)
    {
      if p in counters {
        assert Attained(ids, counters, p);
      }
    }
  }

  /** The counters are a function of the set of ids alone, so any replay restores them. */
  lemma CountersDetermined(ids: set<string>, c: Counters, d: Counters)
    requires CountersTrack(ids, c) && CountersTrack(ids, d)
    ensures c == d
  {
    forall p | p in c
      ensures p in d && c[p] <= d[p]
    {
      CounterBelow(ids, c, d, p);
    }
    forall p | p in d
      ensures p in c && d[p] <= c[p]
    {
      CounterBelow(ids, d, c, p);
    }
  }

  lemma CounterBelow(ids: set<string>, c: Counters, d: Counters, p: string)
    requires CountersTrack(ids, c) && CountersTrack(ids, d) && p in c
    ensures p in d && c[p] <= d[p]
  {
    assert Attained(ids, c, p);
    ParseExact(FormatId(p, c[p]), p, c[p]);
    assert Covered(FormatId(p, c[p]), d);
  }

  /** Nothing above the counter is in use: neither the next id nor any block that starts there. */
  lemma AboveHighIsFresh(ids: set<string>, counters: Counters, prefix: string, n: nat)
    requires CountersTrack(ids, counters) && ValidPrefix(prefix)
    requires High(counters, prefix) < n <= I64_MAX
    ensures FormatId(prefix, n) !in ids
    ensures ParseBeadId(FormatId(prefix, n)) == Some((prefix, n))
  {
    ParseExact(FormatId(prefix, n), prefix, n);
    assert !Covered(FormatId(prefix, n), counters);
  }

  /** Allocation succeeds exactly for a valid prefix with room left, and then the id is unused,
      well formed, and one above everything the prefix has handed out. */
  lemma NextIsFresh(ids: set<string>, counters: Counters, prefix: string)
    requires CountersTrack(ids, counters)
    ensures NextBeadId(counters, prefix).Ok? <==> ValidPrefix(prefix) && High(counters, prefix) < I64_MAX
    ensures match NextBeadId(counters, prefix)
            case Ok(id) => id !in ids && ParseBeadId(id) == Some((prefix, High(counters, prefix) + 1))
            case Err(_) => true
  {
    if ValidPrefix(prefix) && High(counters, prefix) < I64_MAX {
      AboveHighIsFresh(ids, counters, prefix, High(counters, prefix) + 1);
    }
  }

  // ---- the grammar of ids ------------------------------------------------

  /** The hyphen of a well-formed id: lower-case letters and digits before it, a letter first; behind it
      digits, without a leading zero unless that is all. */
  ghost predicate HyphenAt(id: string, k: int) {
    && 0 < k < |id| - 1 && id[k] == '-' && 'a' <= id[0] <= 'z'
    && (forall i :: 0 < i < k ==> 'a' <= id[i] <= 'z' || '0' <= id[i] <= '9')
    && (forall i :: k < i < |id| ==> '0' <= id[i] <= '9')
    && (id[k + 1] == '0' ==> |id| == k + 2)
  }

  lemma HyphenParts(id: string, k: nat)
    requires k < |id|
    ensures HyphenAt(id, k) <==> id[k] == '-' && ValidPrefix(id[..k]) && Canonical(id[k + 1..])
  {
    var prefix, num := id[..k], id[k + 1..];
    assert forall i :: 0 <= i < |prefix| ==> prefix[i] == id[i];
    assert forall i :: 0 <= i < |num| ==> num[i] == id[k + 1 + i];
    if Canonical(num) {
      forall i | k < i < |id|
        ensures '0' <= id[i] <= '9'
      {
        assert id[i] == num[i - k - 1];
      }
    }
  }

  lemma PrefixHasNoHyphen(prefix: string)
    requires ValidPrefix(prefix)
    ensures '-' !in prefix
  {
  }

  /** A text is an id exactly when it is spelled so and its number fits 64 bits with a sign. */
  lemma IdGrammar(id: string)
    ensures ParseBeadId(id).Some? <==> exists k :: HyphenAt(id, k) && Value(id[k + 1..]) <= 9_223_372_036_854_775_807
  {
    if ParseBeadId(id).Some? {
      var (prefix, num) := SplitOnce(id, '-').value;
      SplitOnceExact(id, '-', prefix, num);
      assert id[..|prefix|] == prefix && id[|prefix| + 1..] == num;
      HyphenParts(id, |prefix|);
    }
    if k :| HyphenAt(id, k) && Value(id[k + 1..]) <= 9_223_372_036_854_775_807 {
      HyphenParts(id, k);
      PrefixHasNoHyphen(id[..k]);
      assert id == id[..k] + ['-'] + id[k + 1..];
      SplitOnceExact(id, '-', id[..k], id[k + 1..]);
    }
  }
}
