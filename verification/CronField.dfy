/** Parsing a five-field cron expression: what set of values each field text denotes. */
module CronField {
  import opened Text
  import opened Wrappers
  import Ids

  datatype FieldSet = FieldSet(min: nat, allowed: seq<bool>, restricted: bool)

  predicate Contains(f: FieldSet, value: int) {
    f.min <= value < f.min + |f.allowed| && f.allowed[value - f.min]
  }

  datatype FieldError = EmptyItem | BadStep | StepZero | NotANumber | OutOfRange | InvertedRange

  // ---- lexing ------------------------------------------------------------

  predicate AllDigits(s: string) {
    forall i :: 0 <= i < |s| ==> Ids.IsDigit(s[i])
  }

  /** Rust's `u8::from_str`: an optional plus sign, digits, at most 255. */
  function ParseU8(text: string): (r: Option<nat>)
    ensures r.Some? ==> r.value <= 255
  {
    var digits := if text != "" && text[0] == '+' then text[1..] else text;
    if digits == "" || !AllDigits(digits) then None
    else if Ids.Value(digits) > 255 then None
    else Some(Ids.Value(digits))
  }

  /** Rust's `split`: the pieces between the separators, one more than there are separators. */
  function Split(text: string, sep: char): (r: seq<string>)
    ensures r != []
    decreases |text|
  {
    match Ids.SplitOnce(text, sep)
    case None => [text]
    case Some((head, rest)) =>
      Ids.SplitOnceExact(text, sep, head, rest);
      [head] + Split(rest, sep)
  }

  // ---- items -------------------------------------------------------------

  datatype Item = Item(lo: nat, hi: nat, step: nat)

  /** The values an item stands for. */
  predicate InItem(item: Item, v: int) {
    item.step > 0 && item.lo <= v <= item.hi && (v - item.lo) % item.step == 0
  }

  function ParseValue(text: string, min: nat, max: nat): Result<nat, FieldError> {
    match ParseU8(text)
    case None => Err(NotANumber)
    case Some(v) => if v < min || v > max then Err(OutOfRange) else Ok(v)
  }

  /** `*` or `a` or `a-b`. */
  function ParseRange(range: string, min: nat, max: nat): Result<(nat, nat), FieldError> {
    if range == "*" then Ok((min, max))
    else match Ids.SplitOnce(range, '-')
      case None =>
        (match ParseValue(range, min, max)
         case Err(e) => Err(e)
         case Ok(v) => Ok((v, v)))
      case Some((a, b)) =>
        (match ParseValue(a, min, max)
         case Err(e) => Err(e)
         case Ok(lo) =>
           match ParseValue(b, min, max)
           case Err(e) => Err(e)
           case Ok(hi) => Ok((lo, hi)))
  }

  /** The range text and the step of an item. */
  function ParseStep(item: string): Result<(string, nat), FieldError> {
    match Ids.SplitOnce(item, '/')
    case None => Ok((item, 1))
    case Some((range, s)) =>
      match ParseU8(s)
      case None => Err(BadStep)
      case Some(step) => if step == 0 then Err(StepZero) else Ok((range, step))
  }

  function ParseItem(item: string, min: nat, max: nat): (r: Result<Item, FieldError>)
    requires min <= max <= 255
    ensures r.Ok? ==> min <= r.value.lo <= r.value.hi <= max && 0 < r.value.step <= 255
  {
    if item == "" then Err(EmptyItem)
    else match ParseStep(item)
      case Err(e) => Err(e)
      case Ok((range, step)) =>
        match ParseRange(range, min, max)
        case Err(e) => Err(e)
        case Ok((lo, hi)) => if lo > hi then Err(InvertedRange) else Ok(Item(lo, hi, step))
  }

  /** All items, or the first item's error. */
  function ParseItems(texts: seq<string>, min: nat, max: nat): (r: Result<seq<Item>, FieldError>)
    requires min <= max <= 255
    ensures r.Ok? ==> |r.value| == |texts|
  {
    if texts == [] then Ok([])
    else match ParseItem(texts[0], min, max)
      case Err(e) => Err(e)
      case Ok(item) =>
        match ParseItems(texts[1..], min, max)
        case Err(e) => Err(e)
        case Ok(rest) => Ok([item] + rest)
  }

  /** Value 7 of the day-of-week field is Sunday, 0. */
  function Normalize(wrapSeven: bool, v: nat): nat {
    if wrapSeven && v == 7 then 0 else v
  }

  /** What a list of items denotes after normalization. */
  ghost predicate Denotes(items: seq<Item>, wrapSeven: bool, v: int) {
    exists i: nat, w: nat :: i < |items| && InItem(items[i], w) && Normalize(wrapSeven, w) == v
  }

  function StoreSize(min: nat, max: nat, wrapSeven: bool): nat
    requires min <= max
  {
    if wrapSeven then max - min else max - min + 1
  }

  // ---- the field loop ----------------------------------------------------

  /** Set every value of one item. */
  method MarkItem(allowed: seq<bool>, item: Item, min: nat, max: nat, wrapSeven: bool) returns (r: seq<bool>)
    requires min <= item.lo <= item.hi <= max <= 255 && 0 < item.step <= 255
    requires wrapSeven ==> min == 0 && max == 7
    requires |allowed| == StoreSize(min, max, wrapSeven)
    ensures |r| == |allowed|
    ensures forall k :: 0 <= k < |r| ==>
        (r[k] <==> allowed[k] || exists w: nat :: InItem(item, w) && Normalize(wrapSeven, w) == min + k)
  {
    r := allowed;
    var v := item.lo;
    while true
      invariant item.lo <= v <= item.hi && InItem(item, v) && |r| == |allowed|
      invariant forall k :: 0 <= k < |r| ==>
          (r[k] <==> allowed[k] || exists w: nat :: w < v && InItem(item, w) && Normalize(wrapSeven, w) == min + k)
      decreases item.hi - v
    {
      var index := Normalize(wrapSeven, v) - min;
      if index < |r| {
        r := r[index := true];
      }
      NextInItem(item, v);
      if v + item.step <= 255 && v + item.step <= item.hi {
        v := v + item.step;
      } else {
        break;
      }
    }
  }

  /** Between two marked values of an item there is no third. */
  lemma NextInItem(item: Item, v: nat)
    requires InItem(item, v)
    ensures forall w {:trigger InItem(item, w)} :: v < w < v + item.step ==> !InItem(item, w)
    ensures v + item.step <= item.hi ==> InItem(item, v + item.step)
  {
    forall w {:trigger InItem(item, w)} | v < w < v + item.step
      ensures !InItem(item, w)
    {
      ModShift(v - item.lo, w - v, item.step);
      assert v - item.lo + (w - v) == w - item.lo;
    }
    ModShift(v - item.lo, item.step, item.step);
    assert v - item.lo + item.step == v + item.step - item.lo;
  }

  lemma ModShift(d: int, k: int, m: int)
    requires 0 < k <= m && d % m == 0
    ensures (d + k) % m == if k == m then 0 else k
  {
    var q := d / m;
    assert d == q * m;
    if k == m {
      assert d + k == (q + 1) * m + 0;
      ModUnique(d + k, q + 1, 0, m);
    } else {
      ModUnique(d + k, q, k, m);
    }
  }

  lemma SmallMultiple(k: int, m: int)
    requires m > 0 && -m < k * m < m
    ensures k == 0
  {
    assert k >= 1 ==> (k - 1) * m >= 0;
    assert k <= -1 ==> (-k - 1) * m >= 0;
  }

  lemma ModUnique(n: int, q: int, r: int, m: int)
    requires m > 0 && 0 <= r < m && n == q * m + r
    ensures n % m == r
  {
    var p, t := n / m, n % m;
    assert n == p * m + t;
    assert (q - p) * m == q * m - p * m == t - r;
    SmallMultiple(q - p, m);
  }

  /** A field text parses exactly when every item does; the set then holds, within the legal
      range, exactly the values the items denote, and is unrestricted only for a bare star. */
  method ParseField(text: string, min: nat, max: nat, wrapSeven: bool) returns (r: Result<FieldSet, FieldError>)
    requires min <= max <= 255 && (wrapSeven ==> min == 0 && max == 7)
    ensures match ParseItems(Split(text, ','), min, max)
            case Err(e) => r == Err(e)
            case Ok(items) =>
              && r.Ok? && r.value.min == min && |r.value.allowed| == StoreSize(min, max, wrapSeven)
              && r.value.restricted == (text != "*")
              && forall v :: Contains(r.value, v) <==> Denotes(items, wrapSeven, v)
  {
    var texts := Split(text, ',');
    var allowed := seq(StoreSize(min, max, wrapSeven), _ => false);
    ghost var items: seq<Item> := [];
    for i := 0 to |texts|
      invariant |allowed| == StoreSize(min, max, wrapSeven)
      invariant |items| == i && forall j :: 0 <= j < i ==> ParseItem(texts[j], min, max) == Ok(items[j])
      invariant forall k :: 0 <= k < |allowed| ==> (allowed[k] <==> Denotes(items, wrapSeven, min + k))
    {
      var item := ParseItem(texts[i], min, max);
      if item.Err? {
        FirstErrorWins(texts, min, max, i, items);
        return Err(item.error);
      }
      ghost var before := allowed;
      allowed := MarkItem(allowed, item.value, min, max, wrapSeven);
      forall v
        ensures Denotes(items + [item.value], wrapSeven, v) <==>
                Denotes(items, wrapSeven, v) || exists w: nat :: InItem(item.value, w) && Normalize(wrapSeven, w) == v
      {
        DenotesSnoc(items, item.value, wrapSeven, v);
      }
      items := items + [item.value];
    }
    AllParsed(texts, min, max, items);
    var set_ := FieldSet(min, allowed, text != "*");
    forall v
      ensures Contains(set_, v) <==> Denotes(items, wrapSeven, v)
    {
      if Denotes(items, wrapSeven, v) {
        var i: nat, w: nat :| i < |items| && InItem(items[i], w) && Normalize(wrapSeven, w) == v;
        assert ParseItem(texts[i], min, max) == Ok(items[i]);
      }
    }
    return Ok(set_);
  }

  lemma DenotesSnoc(items: seq<Item>, item: Item, wrapSeven: bool, v: int)
    ensures Denotes(items + [item], wrapSeven, v) <==>
            Denotes(items, wrapSeven, v) || exists w: nat :: InItem(item, w) && Normalize(wrapSeven, w) == v
  {
    var all := items + [item];
    if Denotes(items, wrapSeven, v) {
      var i: nat, w: nat :| i < |items| && InItem(items[i], w) && Normalize(wrapSeven, w) == v;
      assert InItem(all[i], w);
    }
    if w: nat :| InItem(item, w) && Normalize(wrapSeven, w) == v {
      assert InItem(all[|items|], w);
    }
  }

  lemma {:induction false} AllParsed(texts: seq<string>, min: nat, max: nat, items: seq<Item>)
    requires min <= max <= 255 && |items| == |texts|
    requires forall j :: 0 <= j < |texts| ==> ParseItem(texts[j], min, max) == Ok(items[j])
    ensures ParseItems(texts, min, max) == Ok(items)
  {
    if texts != [] {
      AllParsed(texts[1..], min, max, items[1..]);
      assert items == [items[0]] + items[1..];
    }
  }

  lemma {:induction false} FirstErrorWins(texts: seq<string>, min: nat, max: nat, i: nat, items: seq<Item>)
    requires min <= max <= 255 && i < |texts| && |items| == i
    requires forall j :: 0 <= j < i ==> ParseItem(texts[j], min, max) == Ok(items[j])
    requires ParseItem(texts[i], min, max).Err?
    ensures ParseItems(texts, min, max) == Err(ParseItem(texts[i], min, max).error)
    decreases i
  {
    if i > 0 {
      FirstErrorWins(texts[1..], min, max, i - 1, items[1..]);
    }
  }

  // ---- the whole expression ----------------------------------------------

  datatype CronExpr = CronExpr(
    minutes: FieldSet,
    hours: FieldSet,
    daysOfMonth: FieldSet,
    months: FieldSet,
    daysOfWeek: FieldSet)

  datatype FieldName = Minute | Hour | DayOfMonth | Month | DayOfWeek

  datatype CronError = NotFiveFields(found: nat) | BadField(field: FieldName, error: FieldError)

  /** The leading run of non-space characters. */
  function Word(text: string): string {
    if text == "" || IsSpace(text[0]) then "" else [text[0]] + Word(text[1..])
  }

  lemma {:induction false} WordFits(text: string)
    ensures |Word(text)| <= |text|
    ensures text != "" && !IsSpace(text[0]) ==> Word(text) != ""
  {
    if text != "" && !IsSpace(text[0]) {
      WordFits(text[1..]);
    }
  }

  function SplitWhitespace(text: string): seq<string>
    decreases |text|
  {
    if text == "" then []
    else if IsSpace(text[0]) then SplitWhitespace(text[1..])
    else
      WordFits(text);
      [Word(text)] + SplitWhitespace(text[|Word(text)|..])
  }

  function Bounds(field: FieldName): (nat, nat, bool) {
    match field
    case Minute => (0, 59, false)
    case Hour => (0, 23, false)
    case DayOfMonth => (1, 31, false)
    case Month => (1, 12, false)
    case DayOfWeek => (0, 7, true)
  }

  function ItemsOf(text: string, field: FieldName): Result<seq<Item>, FieldError> {
    var (min, max, _) := Bounds(field);
    ParseItems(Split(text, ','), min, max)
  }

  /** The parsed set holds exactly the values the field text denotes. */
  ghost predicate Means(f: FieldSet, text: string, field: FieldName) {
    && ItemsOf(text, field).Ok?
    && f.restricted == (text != "*")
    && forall v :: Contains(f, v) <==> Denotes(ItemsOf(text, field).value, Bounds(field).2, v)
  }

  ghost predicate ExprMeans(e: CronExpr, fields: seq<string>) {
    && |fields| == 5
    && Means(e.minutes, fields[0], Minute)
    && Means(e.hours, fields[1], Hour)
    && Means(e.daysOfMonth, fields[2], DayOfMonth)
    && Means(e.months, fields[3], Month)
    && Means(e.daysOfWeek, fields[4], DayOfWeek)
  }

  /** The first field, left to right, whose text does not parse. */
  ghost predicate FirstBadField(fields: seq<string>, field: FieldName, error: FieldError)
    requires |fields| == 5
  {
    match field
    case Minute => ItemsOf(fields[0], Minute) == Err(error)
    case Hour => ItemsOf(fields[0], Minute).Ok? && ItemsOf(fields[1], Hour) == Err(error)
    case DayOfMonth =>
      ItemsOf(fields[0], Minute).Ok? && ItemsOf(fields[1], Hour).Ok? && ItemsOf(fields[2], DayOfMonth) == Err(error)
    case Month =>
      && ItemsOf(fields[0], Minute).Ok? && ItemsOf(fields[1], Hour).Ok? && ItemsOf(fields[2], DayOfMonth).Ok?
      && ItemsOf(fields[3], Month) == Err(error)
    case DayOfWeek =>
      && ItemsOf(fields[0], Minute).Ok? && ItemsOf(fields[1], Hour).Ok? && ItemsOf(fields[2], DayOfMonth).Ok?
      && ItemsOf(fields[3], Month).Ok? && ItemsOf(fields[4], DayOfWeek) == Err(error)
  }

  method ParseNamed(text: string, field: FieldName) returns (r: Result<FieldSet, FieldError>)
    ensures match r
            case Ok(f) => Means(f, text, field)
            case Err(e) => ItemsOf(text, field) == Err(e)
  {
    var (min, max, wrapSeven) := Bounds(field);
    r := ParseField(text, min, max, wrapSeven);
  }

  /** Five fields, each meaning its text; otherwise the error names the first field at fault. */
  method Parse(text: string) returns (r: Result<CronExpr, CronError>)
    ensures match r
            case Ok(e) => ExprMeans(e, SplitWhitespace(text))
            case Err(NotFiveFields(n)) => n == |SplitWhitespace(text)| && n != 5
            case Err(BadField(field, error)) =>
              |SplitWhitespace(text)| == 5 && FirstBadField(SplitWhitespace(text), field, error)
  {
    var fields := SplitWhitespace(text);
    if |fields| != 5 {
      return Err(NotFiveFields(|fields|));
    }
    var minutes := ParseNamed(fields[0], Minute);
    if minutes.Err? { return Err(BadField(Minute, minutes.error)); }
    var hours := ParseNamed(fields[1], Hour);
    if hours.Err? { return Err(BadField(Hour, hours.error)); }
    var daysOfMonth := ParseNamed(fields[2], DayOfMonth);
    if daysOfMonth.Err? { return Err(BadField(DayOfMonth, daysOfMonth.error)); }
    var months := ParseNamed(fields[3], Month);
    if months.Err? { return Err(BadField(Month, months.error)); }
    var daysOfWeek := ParseNamed(fields[4], DayOfWeek);
    if daysOfWeek.Err? { return Err(BadField(DayOfWeek, daysOfWeek.error)); }
    return Ok(CronExpr(minutes.value, hours.value, daysOfMonth.value, months.value, daysOfWeek.value));
  }
}
