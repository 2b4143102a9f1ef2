/** What a cron field says when it is spelled out in numbers: the values it names, or its first fault. */
module CronSpelling {
  import opened Text
  import opened Wrappers
  import opened CronField
  import opened CronSchedule
  import Ids

  // ---- spelling ----------------------------------------------------------

  datatype Range = Star | One(a: nat) | FromTo(a: nat, b: nat) | Junk(text: string)

  /** One list item: a range with or without a step, or nothing between two commas. */
  datatype Entry = Nothing | Entry(range: Range, step: Option<nat>)

  function RangeText(r: Range): string {
    match r
    case Star => "*"
    case One(a) => Ids.Decimal(a)
    case FromTo(a, b) => Ids.Decimal(a) + "-" + Ids.Decimal(b)
    case Junk(text) => text
  }

  function TextOf(e: Entry): string {
    match e
    case Nothing => ""
    case Entry(range, None) => RangeText(range)
    case Entry(range, Some(step)) => RangeText(range) + "/" + Ids.Decimal(step)
  }

  function Joined(texts: seq<string>): string {
    if texts == [] then "" else if |texts| == 1 then texts[0] else texts[0] + "," + Joined(texts[1..])
  }

  function Texts(entries: seq<Entry>): seq<string> {
    seq(|entries|, i requires 0 <= i < |entries| => TextOf(entries[i]))
  }

  /** Something that is no number, no star and no range. */
  ghost predicate IsJunk(text: string) {
    && text != "*" && '-' !in text && '/' !in text && ',' !in text
    && exists i :: 0 <= i < |text| && !Ids.IsDigit(text[i]) && text[i] != '+'
  }

  ghost predicate Plain(e: Entry) {
    e.Entry? && e.range.Junk? ==> IsJunk(e.range.text)
  }

  // ---- meaning -----------------------------------------------------------

  function Lowest(field: FieldName): nat {
    match field
    case Minute => 0
    case Hour => 0
    case DayOfMonth => 1
    case Month => 1
    case DayOfWeek => 0
  }

  function Highest(field: FieldName): nat {
    match field
    case Minute => 59
    case Hour => 23
    case DayOfMonth => 31
    case Month => 12
    case DayOfWeek => 7
  }

  /** What is wrong with a number in a field. */
  function NumberFault(n: nat, field: FieldName): Option<FieldError> {
    if n > 255 then Some(NotANumber)
    else if n < Lowest(field) || Highest(field) < n then Some(OutOfRange)
    else None
  }

  function RangeFault(r: Range, field: FieldName): Option<FieldError> {
    match r
    case Star => None
    case Junk(_) => Some(NotANumber)
    case One(a) => NumberFault(a, field)
    case FromTo(a, b) =>
      if NumberFault(a, field).Some? then NumberFault(a, field)
      else if NumberFault(b, field).Some? then NumberFault(b, field)
      else if b < a then Some(InvertedRange)
      else None
  }

  /** The step is looked at first. */
  function Fault(e: Entry, field: FieldName): Option<FieldError> {
    match e
    case Nothing => Some(EmptyItem)
    case Entry(range, step) =>
      if step.Some? && step.value > 255 then Some(BadStep)
      else if step == Some(0) then Some(StepZero)
      else RangeFault(range, field)
  }

  /** The numbers an item names: a star every one of its field, a single number itself alone, with a
      step or without, a range those from its first to its last; of these every step-th. */
  ghost predicate Names(e: Entry, field: FieldName, w: int) {
    e.Entry? &&
    var every := if e.step.Some? then e.step.value else 1;
    every > 0 &&
    match e.range
    case Star => Lowest(field) <= w <= Highest(field) && (w - Lowest(field)) % every == 0
    case One(a) => w == a
    case FromTo(a, b) => a <= w <= b && (w - a) % every == 0
    case Junk(_) => false
  }

  /** Day 7 of the week is Sunday, 0. */
  function Counted(field: FieldName, w: int): int {
    if field == DayOfWeek && w == 7 then 0 else w
  }

  ghost predicate Covers(entries: seq<Entry>, field: FieldName, v: int) {
    exists i, w :: 0 <= i < |entries| && Names(entries[i], field, w) && v == Counted(field, w)
  }

  // ---- reading numbers ---------------------------------------------------

  lemma DigitsOnly(n: nat)
    ensures Ids.Decimal(n) != "" && forall i :: 0 <= i < |Ids.Decimal(n)| ==> Ids.IsDigit(Ids.Decimal(n)[i])
    ensures Ids.Value(Ids.Decimal(n)) == n
    ensures forall c :: c in Ids.Decimal(n) ==> Ids.IsDigit(c)
  {
    Ids.DecimalRoundTrip(n);
  }

  lemma NumberReads(n: nat)
    ensures ParseU8(Ids.Decimal(n)) == if n > 255 then None else Some(n)
  {
    DigitsOnly(n);
  }

  lemma {:induction false} ZerosCountNothing(zeros: string, digits: string)
    requires (forall i :: 0 <= i < |zeros| ==> zeros[i] == '0') && AllDigits(digits)
    ensures AllDigits(zeros + digits) && Ids.Value(zeros + digits) == Ids.Value(digits)
    decreases |digits|, |zeros|
  {
    var all := zeros + digits;
    assert forall i :: 0 <= i < |all| ==> all[i] == if i < |zeros| then zeros[i] else digits[i - |zeros|];
    if digits != "" {
      assert all[..|all| - 1] == zeros + digits[..|digits| - 1];
      ZerosCountNothing(zeros, digits[..|digits| - 1]);
    } else if zeros != "" {
      assert all == zeros && all[..|all| - 1] == zeros[..|zeros| - 1] + digits;
      ZerosCountNothing(zeros[..|zeros| - 1], digits);
    }
  }

  /** A number is also read behind leading zeros, and behind one plus sign before these. */
  lemma ZerosAndPlusRead(zeros: string, n: nat)
    requires forall i :: 0 <= i < |zeros| ==> zeros[i] == '0'
    ensures ParseU8(zeros + Ids.Decimal(n)) == ParseU8(Ids.Decimal(n))
    ensures ParseU8("+" + (zeros + Ids.Decimal(n))) == ParseU8(Ids.Decimal(n))
  {
    var text := zeros + Ids.Decimal(n);
    DigitsOnly(n);
    NumberReads(n);
    ZerosCountNothing(zeros, Ids.Decimal(n));
    assert text[0] == if zeros != "" then zeros[0] else Ids.Decimal(n)[0];
    assert ("+" + text)[1..] == text;
  }

  lemma {:induction false} Unsplit(s: string, c: char)
    requires c !in s
    ensures Ids.SplitOnce(s, c) == None
  {
    if s != "" {
      assert s[0] in s;
      Unsplit(s[1..], c);
    }
  }

  lemma ValueReads(n: nat, field: FieldName)
    ensures ParseValue(Ids.Decimal(n), Lowest(field), Highest(field)) ==
            match NumberFault(n, field) case None => Ok(n) case Some(e) => Err(e)
  {
    NumberReads(n);
  }

  lemma JunkReads(text: string)
    requires IsJunk(text)
    ensures text != "" && ParseU8(text) == None && Ids.SplitOnce(text, '-') == None
  {
    Unsplit(text, '-');
    var i :| 0 <= i < |text| && !Ids.IsDigit(text[i]) && text[i] != '+';
    var digits := if text != "" && text[0] == '+' then text[1..] else text;
    var k := if text[0] == '+' then i - 1 else i;
    assert digits[k] == text[i];
    assert !AllDigits(digits);
  }

  lemma OneReads(a: nat, field: FieldName)
    ensures Ids.Decimal(a) != "*"
    ensures ParseRange(Ids.Decimal(a), Lowest(field), Highest(field)) ==
            match NumberFault(a, field) case None => Ok((a, a)) case Some(e) => Err(e)
  {
    DigitsOnly(a);
    assert Ids.Decimal(a)[0] in Ids.Decimal(a);
    Unsplit(Ids.Decimal(a), '-');
    ValueReads(a, field);
  }

  lemma SpanReads(a: nat, b: nat, field: FieldName)
    ensures ParseRange(Ids.Decimal(a) + "-" + Ids.Decimal(b), Lowest(field), Highest(field)) ==
            match NumberFault(a, field)
            case Some(e) => Err(e)
            case None => match NumberFault(b, field) case Some(e) => Err(e) case None => Ok((a, b))
  {
    var text := Ids.Decimal(a) + "-" + Ids.Decimal(b);
    DigitsOnly(a);
    Ids.SplitOnceExact(text, '-', Ids.Decimal(a), Ids.Decimal(b));
    assert text[0] == Ids.Decimal(a)[0] && Ids.Decimal(a)[0] in Ids.Decimal(a);
    ValueReads(a, field);
    ValueReads(b, field);
  }

  lemma RangeReads(r: Range, field: FieldName)
    requires r.Junk? ==> IsJunk(r.text)
    ensures match ParseRange(RangeText(r), Lowest(field), Highest(field))
            case Err(e) => RangeFault(r, field) == Some(e)
            case Ok((lo, hi)) =>
              && (RangeFault(r, field) == if hi < lo then Some(InvertedRange) else None)
              && (r.Star? ==> lo == Lowest(field) && hi == Highest(field))
              && (r.One? ==> lo == hi == r.a)
              && (r.FromTo? ==> lo == r.a && hi == r.b)
              && !r.Junk?
  {
    match r {
      case Star =>
      case One(a) => OneReads(a, field);
      case FromTo(a, b) => SpanReads(a, b, field);
      case Junk(text) => JunkReads(text);
    }
  }

  lemma NoSlash(r: Range)
    requires r.Junk? ==> IsJunk(r.text)
    ensures '/' !in RangeText(r) && ',' !in RangeText(r) && RangeText(r) != ""
  {
    match r {
      case Star =>
      case One(a) => DigitsOnly(a);
      case FromTo(a, b) =>
        DigitsOnly(a);
        DigitsOnly(b);
      case Junk(_) =>
    }
  }

  lemma StepReads(e: Entry)
    requires e.Entry? && Plain(e)
    ensures TextOf(e) != "" && ',' !in TextOf(e)
    ensures ParseStep(TextOf(e)) ==
            if e.step == None then Ok((RangeText(e.range), 1))
            else if e.step.value > 255 then Err(BadStep)
            else if e.step.value == 0 then Err(StepZero)
            else Ok((RangeText(e.range), e.step.value))
  {
    NoSlash(e.range);
    match e.step {
      case None => Unsplit(TextOf(e), '/');
      case Some(s) =>
        DigitsOnly(s);
        NumberReads(s);
        Ids.SplitOnceExact(TextOf(e), '/', RangeText(e.range), Ids.Decimal(s));
    }
  }

  lemma ItemNames(e: Entry, field: FieldName, item: Item)
    requires e.Entry? && Fault(e, field) == None && !e.range.Junk?
    requires item.step == (if e.step.Some? then e.step.value else 1)
    requires match e.range
             case Star => item.lo == Lowest(field) && item.hi == Highest(field)
             case One(a) => item.lo == item.hi == a
             case FromTo(a, b) => item.lo == a && item.hi == b
             case Junk(_) => true
    ensures forall w :: InItem(item, w) <==> Names(e, field, w)
  {
    if e.range.One? {
      assert (e.range.a - item.lo) % item.step == 0;
    }
  }

  /** A single item: its fault, or exactly the numbers it names. */
  lemma EntryReads(e: Entry, field: FieldName)
    requires Plain(e)
    ensures match ParseItem(TextOf(e), Lowest(field), Highest(field))
            case Err(error) => Fault(e, field) == Some(error)
            case Ok(item) => Fault(e, field) == None && forall w :: InItem(item, w) <==> Names(e, field, w)
  {
    if e.Entry? {
      StepReads(e);
      RangeReads(e.range, field);
      match ParseItem(TextOf(e), Lowest(field), Highest(field))
      case Err(_) =>
      case Ok(item) => ItemNames(e, field, item);
    }
  }

  // ---- reading lists -----------------------------------------------------

  lemma {:induction false} SplitJoined(texts: seq<string>)
    requires texts != [] && forall i :: 0 <= i < |texts| ==> ',' !in texts[i]
    ensures Split(Joined(texts), ',') == texts
  {
    if |texts| == 1 {
      Unsplit(texts[0], ',');
    } else {
      SplitJoined(texts[1..]);
      Ids.SplitOnceExact(Joined(texts), ',', texts[0], Joined(texts[1..]));
      assert texts == [texts[0]] + texts[1..];
    }
  }

  /** The fault of the first item that has one. */
  function FirstFault(entries: seq<Entry>, field: FieldName): Option<FieldError> {
    if entries == [] then None
    else if Fault(entries[0], field).Some? then Fault(entries[0], field)
    else FirstFault(entries[1..], field)
  }

  ghost predicate ItemsName(items: seq<Item>, entries: seq<Entry>, field: FieldName) {
    |items| == |entries| &&
    forall i, w :: 0 <= i < |items| ==> (InItem(items[i], w) <==> Names(entries[i], field, w))
  }

  lemma {:induction false} ListReads(entries: seq<Entry>, field: FieldName)
    requires forall i :: 0 <= i < |entries| ==> Plain(entries[i])
    ensures match ParseItems(Texts(entries), Lowest(field), Highest(field))
            case Err(error) => FirstFault(entries, field) == Some(error)
            case Ok(items) => FirstFault(entries, field) == None && ItemsName(items, entries, field)
  {
    if entries != [] {
      EntryReads(entries[0], field);
      assert Texts(entries)[1..] == Texts(entries[1..]);
      ListReads(entries[1..], field);
    }
  }

  lemma BoundsAre(field: FieldName)
    ensures Bounds(field) == (Lowest(field), Highest(field), field == DayOfWeek)
  {
  }

  lemma CoversDenoted(items: seq<Item>, entries: seq<Entry>, field: FieldName, v: int)
    requires ItemsName(items, entries, field)
    ensures Denotes(items, field == DayOfWeek, v) <==> Covers(entries, field, v)
  {
    if Denotes(items, field == DayOfWeek, v) {
      var i: nat, w: nat :| i < |items| && InItem(items[i], w) && Normalize(field == DayOfWeek, w) == v;
      assert Names(entries[i], field, w) && v == Counted(field, w);
    }
    if Covers(entries, field, v) {
      var i, w :| 0 <= i < |entries| && Names(entries[i], field, w) && v == Counted(field, w);
      var u: nat := w;
      assert i < |items| && InItem(items[i], u) && Normalize(field == DayOfWeek, u) == v;
    }
  }

  lemma StarAlone(entries: seq<Entry>)
    requires entries != [] && forall i :: 0 <= i < |entries| ==> Plain(entries[i])
    ensures Joined(Texts(entries)) == "*" <==> entries == [Entry(Star, None)]
  {
    var texts := Texts(entries);
    if |entries| > 1 {
      assert Joined(texts) == texts[0] + "," + Joined(texts[1..]);
      assert Joined(texts)[|texts[0]|] == ',';
    } else {
      match entries[0] {
        case Nothing =>
        case Entry(r, None) => OnlyStarIsStar(r);
        case Entry(r, Some(s)) =>
          NoSlash(r);
          DigitsOnly(s);
      }
    }
  }

  lemma OnlyStarIsStar(r: Range)
    requires r.Junk? ==> IsJunk(r.text)
    ensures RangeText(r) == "*" <==> r == Star
  {
    match r {
      case Star =>
      case One(a) =>
        DigitsOnly(a);
        assert Ids.Decimal(a)[0] in Ids.Decimal(a);
      case FromTo(a, b) => DigitsOnly(a);
      case Junk(_) =>
    }
  }

  /** A field spelled as a list of items has the fault of its first faulty item; without one it parses,
      and what is parsed holds exactly the numbers that its items name between them, Sunday as 0, and
      is unrestricted only for a lone star. */
  lemma SpelledField(entries: seq<Entry>, field: FieldName)
    requires entries != [] && forall i :: 0 <= i < |entries| ==> Plain(entries[i])
    ensures var text := Joined(Texts(entries));
            match FirstFault(entries, field)
            case Some(error) => ItemsOf(text, field) == Err(error)
            case None =>
              && ItemsOf(text, field).Ok?
              && forall f :: Means(f, text, field) ==>
                   && f.restricted == (entries != [Entry(Star, None)])
                   && forall v :: Contains(f, v) <==> Covers(entries, field, v)
  {
    var text := Joined(Texts(entries));
    forall i | 0 <= i < |entries|
      ensures ',' !in Texts(entries)[i]
    {
      if entries[i].Entry? {
        StepReads(entries[i]);
      }
    }
    SplitJoined(Texts(entries));
    BoundsAre(field);
    ListReads(entries, field);
    StarAlone(entries);
    if FirstFault(entries, field) == None {
      var items := ItemsOf(text, field).value;
      forall v
        ensures Denotes(items, field == DayOfWeek, v) <==> Covers(entries, field, v)
      {
        CoversDenoted(items, entries, field, v);
      }
    }
  }

  // ---- reading a line ----------------------------------------------------

  /** Words with a gap in front of each, and a last gap. */
  function Line(gaps: seq<string>, words: seq<string>, end: string): string
    requires |gaps| == |words|
  {
    if words == [] then end else gaps[0] + (words[0] + Line(gaps[1..], words[1..], end))
  }

  ghost predicate IsGap(s: string) {
    forall c :: c in s ==> IsSpace(c)
  }

  ghost predicate IsOneWord(s: string) {
    s != "" && forall c :: c in s ==> !IsSpace(c)
  }

  lemma {:induction false} GapIsSkipped(gap: string, rest: string)
    requires IsGap(gap)
    ensures SplitWhitespace(gap + rest) == SplitWhitespace(rest)
    decreases |gap|
  {
    if gap == "" {
      assert gap + rest == rest;
    } else {
      assert gap[0] in gap && (gap + rest)[1..] == gap[1..] + rest;
      GapIsSkipped(gap[1..], rest);
    }
  }

  lemma {:induction false} WordIsRead(word: string, rest: string)
    requires (forall c :: c in word ==> !IsSpace(c)) && (rest == "" || IsSpace(rest[0]))
    ensures Word(word + rest) == word
    decreases |word|
  {
    if word == "" {
      assert word + rest == rest;
    } else {
      assert word[0] in word && (word + rest)[1..] == word[1..] + rest;
      WordIsRead(word[1..], rest);
    }
  }

  /** A line of words, each behind a gap of white space, that of the first alone possibly empty, splits
      into these words. */
  lemma {:induction false} LineSplits(gaps: seq<string>, words: seq<string>, end: string)
    requires |gaps| == |words| && IsGap(end)
    requires forall i :: 0 <= i < |words| ==> IsGap(gaps[i]) && IsOneWord(words[i])
    requires forall i :: 1 <= i < |words| ==> gaps[i] != ""
    ensures SplitWhitespace(Line(gaps, words, end)) == words
    decreases |words|
  {
    if words == [] {
      GapIsSkipped(end, "");
      assert end + "" == end;
    } else {
      var rest := Line(gaps[1..], words[1..], end);
      LineSplits(gaps[1..], words[1..], end);
      GapIsSkipped(gaps[0], words[0] + rest);
      RestStartsWithSpace(gaps, words, end);
      WordIsRead(words[0], rest);
      var line := words[0] + rest;
      assert line[0] == words[0][0] && words[0][0] in words[0];
      assert line[|words[0]|..] == rest;
      assert words == [words[0]] + words[1..];
    }
  }

  lemma RestStartsWithSpace(gaps: seq<string>, words: seq<string>, end: string)
    requires |gaps| == |words| && words != [] && IsGap(end)
    requires forall i :: 1 <= i < |words| ==> IsGap(gaps[i]) && gaps[i] != ""
    ensures var rest := Line(gaps[1..], words[1..], end); rest == "" || IsSpace(rest[0])
  {
    if |words| > 1 {
      assert gaps[1][0] in gaps[1];
    } else if end != "" {
      assert end[0] in end;
    }
  }

  // ---- the whole expression ----------------------------------------------

  ghost predicate Faultless(entries: seq<Entry>, field: FieldName) {
    && entries != [] && (forall i :: 0 <= i < |entries| ==> Plain(entries[i]))
    && FirstFault(entries, field) == None
  }

  datatype Spelled = Spelled(
    minutes: seq<Entry>,
    hours: seq<Entry>,
    daysOfMonth: seq<Entry>,
    months: seq<Entry>,
    daysOfWeek: seq<Entry>)

  function FieldTexts(s: Spelled): seq<string> {
    [Joined(Texts(s.minutes)), Joined(Texts(s.hours)), Joined(Texts(s.daysOfMonth)), Joined(Texts(s.months)),
     Joined(Texts(s.daysOfWeek))]
  }

  ghost predicate FaultlessExpr(s: Spelled) {
    && Faultless(s.minutes, Minute) && Faultless(s.hours, Hour) && Faultless(s.daysOfMonth, DayOfMonth)
    && Faultless(s.months, Month) && Faultless(s.daysOfWeek, DayOfWeek)
  }

  /** A lone star leaves the choice of days to the other field. */
  predicate Free(entries: seq<Entry>) {
    entries == [Entry(Star, None)]
  }

  /** An expression spelled out fires at exactly the civil times that resolve and whose minute, hour and
      month its items name, on days one of the two day fields names, or, where one of them is a lone
      star, the other. */
  lemma SpelledMatches(e: CronExpr, s: Spelled, z: Zone, d: int, h: int, m: int)
    requires FaultlessExpr(s) && ExprMeans(e, FieldTexts(s))
    ensures Matches(e, z, d, h, m) <==>
            && d <= z.lastDay && 0 <= h < 24 && 0 <= m < 60 && z.resolvable(d, h, m)
            && Covers(s.minutes, Minute, m) && Covers(s.hours, Hour, h)
            && Covers(s.months, Month, z.calendar(d).month)
            && (Free(s.daysOfMonth) || Free(s.daysOfWeek) || Covers(s.daysOfMonth, DayOfMonth, z.calendar(d).day) ||
                Covers(s.daysOfWeek, DayOfWeek, z.calendar(d).weekday))
            && (Free(s.daysOfMonth) && !Free(s.daysOfWeek) ==>
                  Covers(s.daysOfWeek, DayOfWeek, z.calendar(d).weekday))
            && (Free(s.daysOfWeek) && !Free(s.daysOfMonth) ==>
                  Covers(s.daysOfMonth, DayOfMonth, z.calendar(d).day))
  {
    SpelledField(s.minutes, Minute);
    SpelledField(s.hours, Hour);
    SpelledField(s.daysOfMonth, DayOfMonth);
    SpelledField(s.months, Month);
    SpelledField(s.daysOfWeek, DayOfWeek);
  }
}
