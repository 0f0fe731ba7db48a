/** The parser of cronstable/cronexpr.py: items, fields, hashed `H` items and the
    whole expression, with resolved_source. */
module CronParse {
  import opened Wrappers
  import opened CronTab
  import opened Text

  /** A parse result; every rejection is a ValueError in the source. */
  datatype Result<+T> = Ok(value: T) | Error

  datatype Field = Second | Minute | Hour | Dom | Month | Dow | Year

  // ---------------------------------------------------------------------
  // Field specifications
  // ---------------------------------------------------------------------

  function Lo(f: Field): int {
    match f
    case Dom => 1
    case Month => 1
    case Year => YEAR_FLOOR
    case _ => 0
  }

  function Hi(f: Field): int {
    match f
    case Second => 59
    case Minute => 59
    case Hour => 23
    case Dom => 31
    case Month => 12
    case Dow => 7
    case Year => YEAR_HORIZON
  }

  /** Where a star or a bare start with a step ends: 6 for weekdays. */
  function StepEnd(f: Field): int {
    if f == Dow then 6 else Hi(f)
  }

  /** The value of a name in a field's name table. */
  function Lookup(names: seq<string>, token: string, first: int): Option<int> {
    if names == [] then None
    else if names[0] == token then Some(first)
    else Lookup(names[1..], token, first + 1)
  }

  const MONTH_NAMES := ["jan", "feb", "mar", "apr", "may", "jun", "jul", "aug", "sep", "oct", "nov", "dec"]
  const DOW_NAMES := ["sun", "mon", "tue", "wed", "thu", "fri", "sat"]

  function Names(f: Field): seq<string> {
    if f == Month then MONTH_NAMES else if f == Dow then DOW_NAMES else []
  }

  /** _resolve. */
  function ResolveToken(token: string, f: Field): (r: Result<int>)
    ensures r.Ok? ==> Lo(f) <= r.value <= Hi(f)
  {
    var named := Lookup(Names(f), token, Lo(f));
    var v := if named.Some? then named else ParseInt(token);
    if v.Some? && Lo(f) <= v.value <= Hi(f) then Ok(v.value) else Error
  }

  /** s.partition(c): before the first c, whether there is one, and after it. */
  function Partition(s: string, c: char): (string, bool, string) {
    if s == [] then ("", false, "")
    else if s[0] == c then ("", true, s[1..])
    else
      var (head, found, tail) := Partition(s[1..], c);
      ([s[0]] + head, found, tail)
  }

  predicate OnStep(start: int, step: int, x: int)
    requires step > 0
  {
    (x - start) % step == 0
  }

  /** set(range(start, end + 1, step)). */
  function Range(start: int, end: int, step: int): set<int>
    requires step > 0
  {
    set x | start <= x <= end && OnStep(start, step, x)
  }

  // ---------------------------------------------------------------------
  // Items
  // ---------------------------------------------------------------------

  /** The step of an item: 1 without a slash. */
  function ParseStep(f: Field, slash: bool, text: string): (r: Result<int>)
    ensures r.Ok? ==> r.value > 0
  {
    if !slash then Ok(1)
    else if '/' in text then Error
    else
      var n := ParseInt(text);
      if n.Some? && 0 < n.value <= Hi(f) then Ok(n.value) else Error
  }

  /** The bounds of an item's head: `*`, `a-b` or a single start. */
  function ParseBounds(f: Field, head: string, slash: bool): Result<(int, int)> {
    if head == "*" then Ok((Lo(f), StepEnd(f)))
    else if '-' in head then
      var (a, _, b) := Partition(head, '-');
      var start, end := ResolveToken(a, f), ResolveToken(b, f);
      if start.Error? || end.Error? then Error
      else
        var last := if end.value == 0 && f == Dow then 7 else end.value;
        if start.value > last then Error else Ok((start.value, last))
    else
      var start := ResolveToken(head, f);
      if start.Error? then Error
      else
        var end := if slash then StepEnd(f) else start.value;
        if start.value > end then Error else Ok((start.value, end))
  }

  /** _parse_item. */
  function ParseItem(item: string, f: Field): (r: Result<set<int>>)
    ensures r.Ok? ==> r.value != {} && Within(r.value, Lo(f), Hi(f))
  {
    var (head, slash, stepText) := Partition(item, '/');
    var step, bounds := ParseStep(f, slash, stepText), ParseBounds(f, head, slash);
    if step.Error? || bounds.Error? then Error
    else if slash && !(Lo(f) <= bounds.value.0 + step.value <= Hi(f)) then Error
    else
      assert bounds.value.0 in Range(bounds.value.0, bounds.value.1, step.value);
      Ok(Range(bounds.value.0, bounds.value.1, step.value))
  }

  // ---------------------------------------------------------------------
  // Fields
  // ---------------------------------------------------------------------

  predicate StartsWith(s: string, prefix: string) {
    |prefix| <= |s| && s[..|prefix|] == prefix
  }

  /** What the items of a plain field add up to. */
  function PlainSet(items: seq<string>, f: Field): (r: Result<set<int>>)
    ensures r.Ok? ==> Within(r.value, Lo(f), Hi(f)) && (items != [] ==> r.value != {})
  {
    if items == [] then Ok({})
    else
      var init, item := PlainSet(items[..|items| - 1], f), items[|items| - 1];
      var vs := ParseItem(item, f);
      if init.Error? || StartsWith(item, "l") || vs.Error? then Error else Ok(init.value + vs.value)
  }

  /** _parse_plain. */
  method ParsePlain(text: string, f: Field) returns (r: Result<set<int>>)
    ensures r == PlainSet(Split(text, ','), f)
  {
    var items := Split(text, ',');
    var values := {};
    for i := 0 to |items|
      invariant PlainSet(items[..i], f) == Ok(values)
    {
      PlainNext(items, f, i);
      var vs := ParseItem(items[i], f);
      if StartsWith(items[i], "l") || vs.Error? {
        PlainErrorStays(items, f, i + 1);
        return Error;
      }
      values := values + vs.value;
    }
    assert items[..|items|] == items;
    return Ok(values);
  }

  lemma PlainNext(items: seq<string>, f: Field, i: nat)
    requires i < |items| && PlainSet(items[..i], f).Ok?
    ensures var vs := ParseItem(items[i], f);
            PlainSet(items[..i + 1], f) ==
            if StartsWith(items[i], "l") || vs.Error? then Error else Ok(PlainSet(items[..i], f).value + vs.value)
  {
    assert items[..i + 1][..i] == items[..i];
  }

  lemma {:induction false} PlainErrorStays(items: seq<string>, f: Field, i: nat)
    requires i <= |items| && PlainSet(items[..i], f).Error?
    ensures PlainSet(items, f).Error?
    decreases |items| - i
  {
    if i < |items| {
      assert items[..i + 1][..i] == items[..i];
      PlainErrorStays(items, f, i + 1);
    } else {
      assert items[..i] == items;
    }
  }

  datatype DomSets = DomSets(values: set<int>, offsets: set<int>, nearest: set<int>, lastWeekday: bool)

  predicate ValidDom(d: DomSets) {
    Within(d.values, 1, 31) && Within(d.offsets, 0, 30) && Within(d.nearest, 1, 31)
  }

  predicate SomeDay(d: DomSets) {
    d.values != {} || d.offsets != {} || d.nearest != {} || d.lastWeekday
  }

  /** One day-of-month item added to what came before. */
  function AddDom(d: DomSets, item: string): (r: Result<DomSets>)
    ensures r.Ok? && ValidDom(d) ==> ValidDom(r.value) && SomeDay(r.value)
  {
    if item == "l" then Ok(d.(offsets := d.offsets + {0}))
    else if item == "lw" then Ok(d.(lastWeekday := true))
    else if StartsWith(item, "l-") then
      var t := item[2..];
      if !AllDigits(t) || !(1 <= Number(t) <= 30) then Error else Ok(d.(offsets := d.offsets + {Number(t)}))
    else if StartsWith(item, "l") then Error
    else if item != [] && item[|item| - 1] == 'w' then
      var t := item[..|item| - 1];
      if !AllDigits(t) || !(1 <= Number(t) <= 31) then Error else Ok(d.(nearest := d.nearest + {Number(t)}))
    else
      var vs := ParseItem(item, Dom);
      if vs.Error? then Error else Ok(d.(values := d.values + vs.value))
  }

  function DomOf(items: seq<string>): (r: Result<DomSets>)
    ensures r.Ok? ==> ValidDom(r.value) && (items != [] ==> SomeDay(r.value))
  {
    if items == [] then Ok(DomSets({}, {}, {}, false))
    else
      var init := DomOf(items[..|items| - 1]);
      if init.Error? then Error else AddDom(init.value, items[|items| - 1])
  }

  /** _parse_dom. */
  method ParseDom(text: string) returns (r: Result<DomSets>)
    ensures r == DomOf(Split(text, ','))
  {
    var items := Split(text, ',');
    r := Ok(DomSets({}, {}, {}, false));
    for i := 0 to |items|
      invariant r.Ok? && DomOf(items[..i]) == r
    {
      assert items[..i + 1][..i] == items[..i];
      r := AddDom(r.value, items[i]);
      if r.Error? {
        DomErrorStays(items, i + 1);
        return;
      }
    }
    assert items[..|items|] == items;
  }

  lemma {:induction false} DomErrorStays(items: seq<string>, i: nat)
    requires i <= |items| && DomOf(items[..i]).Error?
    ensures DomOf(items).Error?
    decreases |items| - i
  {
    if i < |items| {
      assert items[..i + 1][..i] == items[..i];
      DomErrorStays(items, i + 1);
    } else {
      assert items[..i] == items;
    }
  }

  datatype DowSets = DowSets(values: set<int>, last: set<int>, nth: set<(int, int)>)

  predicate ValidDow(d: DowSets) {
    Within(d.values, 0, 6) && Within(d.last, 0, 6) && forall p :: p in d.nth ==> 0 <= p.0 <= 6 && 1 <= p.1 <= 5
  }

  /** Weekday numbers with 7 folded onto Sunday. */
  function FoldSunday(s: set<int>): (r: set<int>)
    ensures Within(s, 0, 7) ==> Within(r, 0, 6)
  {
    set v | v in s :: v % 7
  }

  /** An `L` item: one weekday number or a numeric range, reversed allowed. */
  function ParseLast(body: string): (r: Result<set<int>>)
    ensures r.Ok? ==> Within(r.value, 0, 7)
  {
    var (a, dash, b) := Partition(body, '-');
    if !AllDigits(a) || (dash && !AllDigits(b)) then Error
    else
      var lo := Number(a);
      var hi := if dash then Number(b) else lo;
      if lo > 7 || hi > 7 then Error else Ok(Range(lo, hi, 1))
  }

  /** A `#` item: a weekday and an ordinal. */
  function ParseNth(item: string): (r: Result<(int, int)>)
    ensures r.Ok? ==> 0 <= r.value.0 <= 6 && 1 <= r.value.1 <= 5
  {
    var (day, _, ordinal) := Partition(item, '#');
    var d := ResolveToken(day, Dow);
    if '#' in ordinal || d.Error? || !AllDigits(ordinal) || !(1 <= Number(ordinal) <= 5) then Error
    else Ok((d.value % 7, Number(ordinal)))
  }

  function AddDow(d: DowSets, item: string): (r: Result<DowSets>)
    ensures r.Ok? && ValidDow(d) ==> ValidDow(r.value)
  {
    if StartsWith(item, "l") then
      var vs := ParseLast(item[1..]);
      if vs.Error? then Error else Ok(d.(last := d.last + FoldSunday(vs.value)))
    else if '#' in item then
      var p := ParseNth(item);
      if p.Error? then Error else Ok(d.(nth := d.nth + {p.value}))
    else
      var vs := ParseItem(item, Dow);
      if vs.Error? then Error else Ok(d.(values := d.values + FoldSunday(vs.value)))
  }

  function DowOf(items: seq<string>): (r: Result<DowSets>)
    ensures r.Ok? ==> ValidDow(r.value)
  {
    if items == [] then Ok(DowSets({}, {}, {}))
    else
      var init := DowOf(items[..|items| - 1]);
      if init.Error? then Error else AddDow(init.value, items[|items| - 1])
  }

  /** _parse_dow. */
  method ParseDow(text: string) returns (r: Result<DowSets>)
    ensures r == DowOf(Split(text, ','))
  {
    var items := Split(text, ',');
    r := Ok(DowSets({}, {}, {}));
    for i := 0 to |items|
      invariant r.Ok? && DowOf(items[..i]) == r
    {
      assert items[..i + 1][..i] == items[..i];
      r := AddDow(r.value, items[i]);
      if r.Error? {
        DowErrorStays(items, i + 1);
        return;
      }
    }
    assert items[..|items|] == items;
  }

  lemma {:induction false} DowErrorStays(items: seq<string>, i: nat)
    requires i <= |items| && DowOf(items[..i]).Error?
    ensures DowOf(items).Error?
    decreases |items| - i
  {
    if i < |items| {
      assert items[..i + 1][..i] == items[..i];
      DowErrorStays(items, i + 1);
    } else {
      assert items[..i] == items;
    }
  }

  // ---------------------------------------------------------------------
  // Hashed items
  // ---------------------------------------------------------------------

  /** _hash_value: the integer a job name draws per field. */
  type Hasher = (string, Field) -> nat

  /** The parts of an `H` item: H, H/n, H(a-b) or H(a-b)/n. */
  datatype HashForm = HashForm(range: Option<(int, int)>, step: Option<int>)

  function ParseHashStep(tail: string, range: Option<(int, int)>): Option<HashForm> {
    if tail == "" then Some(HashForm(range, None))
    else if tail[0] == '/' && AllDigits(tail[1..]) then Some(HashForm(range, Some(Number(tail[1..]))))
    else None
  }

  /** _HASH_ITEM on the lowercased item. */
  function ParseHashForm(low: string): Option<HashForm>
    requires low != []
  {
    var rest := low[1..];
    if StartsWith(rest, "(") then
      var (inside, closed, tail) := Partition(rest[1..], ')');
      var (a, dash, b) := Partition(inside, '-');
      if !closed || !dash || !AllDigits(a) || !AllDigits(b) then None
      else ParseHashStep(tail, Some((Number(a), Number(b))))
    else ParseHashStep(rest, None)
  }

  /** The range an item hashes over; a rangeless day stays within 1-28. */
  function HashRange(f: Field, range: Option<(int, int)>): (r: Result<(int, int)>)
    ensures r.Ok? ==> Lo(f) <= r.value.0 <= r.value.1 <= Hi(f)
  {
    if range.None? then Ok((Lo(f), if f == Dom then 28 else StepEnd(f)))
    else
      var (a, b) := range.value;
      if Lo(f) <= a <= b <= Hi(f) then Ok((a, b)) else Error
  }

  /** list(range(start, end + 1, step)). */
  function Progression(start: nat, end: int, step: int): (vs: seq<nat>)
    requires step > 0
    ensures start <= end ==> vs != [] && vs[0] == start && end - step < vs[|vs| - 1] <= end
    ensures forall k :: 0 < k < |vs| ==> vs[k] == vs[k - 1] + step
    ensures forall k :: 0 <= k < |vs| ==> start <= vs[k] <= end
    decreases end - start
  {
    if start > end then [] else [start] + Progression(start + step, end, step)
  }

  /** The values an `H` item stands for. */
  function HashValues(hash: Hasher, low: string, f: Field, key: Option<string>): (r: Result<seq<nat>>)
    requires low != []
    ensures r.Ok? ==> r.value != [] && forall k :: 0 <= k < |r.value| ==> Lo(f) <= r.value[k] <= Hi(f)
  {
    var form := ParseHashForm(low);
    if f == Year || form.None? || key.None? then Error
    else
      var range := HashRange(f, form.value.range);
      if range.Error? then Error
      else
        var (start, end) := range.value;
        var span, value := end - start + 1, hash(key.value, f);
        match form.value.step
        case None => Ok([start + value % span])
        case Some(step) =>
          if 0 < step <= span then Ok(Progression(start + value % step, end, step)) else Error
  }

  /** A hashed step spreads evenly: the values are exactly n apart, the first is
      within n of the range's start and the last within n of its end. */
  lemma HashStepSpreads(hash: Hasher, low: string, f: Field, key: string)
    requires low != [] && HashValues(hash, low, f, Some(key)).Ok?
    ensures var form, vs := ParseHashForm(low).value, HashValues(hash, low, f, Some(key)).value;
            var (start, end) := HashRange(f, form.range).value;
            && start <= vs[0] && vs[|vs| - 1] <= end
            && (form.step.None? ==> |vs| == 1)
            && (form.step.Some? ==>
              var n := form.step.value;
              && vs[0] < start + n && end - n < vs[|vs| - 1]
              && forall k :: 0 < k < |vs| ==> vs[k] - vs[k - 1] == n)
  {
    var form := ParseHashForm(low).value;
    var (start, end) := HashRange(f, form.range).value;
    if form.step.Some? {
      var n, value := form.step.value, hash(key, f);
      assert 0 <= value % n < n;
      assert start + value % n <= end;
    }
  }

  function Numerals(vs: seq<nat>): (r: seq<string>)
    ensures |r| == |vs| && forall k :: 0 <= k < |vs| ==> r[k] == Numeral(vs[k])
  {
    seq(|vs|, k requires 0 <= k < |vs| => Numeral(vs[k]))
  }

  predicate IsHashItem(item: string) {
    item != [] && (item[0] == 'h' || item[0] == 'H')
  }

  /** _expand_hash_item. */
  function ExpandHashItem(hash: Hasher, item: string, f: Field, key: Option<string>): Result<string>
    requires IsHashItem(item)
  {
    var vs := HashValues(hash, Lower(item), f, key);
    if vs.Error? then Error else Ok(Join(Numerals(vs.value), ','))
  }

  function ExpandItem(hash: Hasher, item: string, f: Field, key: Option<string>): Result<string> {
    if IsHashItem(item) then ExpandHashItem(hash, item, f, key) else Ok(item)
  }

  /** The expansion of one field's items. */
  function Expander(hash: Hasher, f: Field, key: Option<string>): string -> Result<string> {
    (item: string) => ExpandItem(hash, item, f, key)
  }

  function MapItems(expand: string -> Result<string>, items: seq<string>): (r: Result<seq<string>>)
    ensures r.Ok? ==> |r.value| == |items|
  {
    if items == [] then Ok([])
    else
      var init, last := MapItems(expand, items[..|items| - 1]), expand(items[|items| - 1]);
      if init.Error? || last.Error? then Error else Ok(init.value + [last.value])
  }

  /** A field with every item expanded. */
  function ExpandField(hash: Hasher, text: string, f: Field, key: Option<string>): Result<string> {
    var out := MapItems(Expander(hash, f, key), Split(text, ','));
    if out.Error? then Error else Ok(Join(out.value, ','))
  }

  /** The loop of _expand_hash_field, and whether it met an `H` item. */
  method ExpandList(expand: string -> Result<string>, items: seq<string>) returns (r: Result<seq<string>>, changed: bool)
    requires forall item :: item in items && !IsHashItem(item) ==> expand(item) == Ok(item)
    ensures r == MapItems(expand, items) && (r.Ok? && !changed ==> r.value == items)
  {
    var out: seq<string> := [];
    changed := false;
    for i := 0 to |items|
      invariant MapItems(expand, items[..i]) == Ok(out)
      invariant !changed ==> out == items[..i]
    {
      assert items[..i + 1][..i] == items[..i];
      var item := expand(items[i]);
      if item.Error? {
        ExpandErrorStays(expand, items, i + 1);
        return Error, changed;
      }
      out, changed := out + [item.value], changed || IsHashItem(items[i]);
    }
    assert items[..|items|] == items;
    r := Ok(out);
  }

  /** _expand_hash_field: a field without `H` items comes back as the very text. */
  method ExpandHashField(hash: Hasher, text: string, f: Field, key: Option<string>) returns (r: Result<string>)
    ensures r == ExpandField(hash, text, f, key)
  {
    var out, changed := ExpandList(Expander(hash, f, key), Split(text, ','));
    if out.Error? {
      return Error;
    }
    JoinOfSplit(text, ',');
    return Ok(if changed then Join(out.value, ',') else text);
  }

  lemma {:induction false} ExpandErrorStays(expand: string -> Result<string>, items: seq<string>, i: nat)
    requires i <= |items| && MapItems(expand, items[..i]).Error?
    ensures MapItems(expand, items).Error?
    decreases |items| - i
  {
    if i < |items| {
      assert items[..i + 1][..i] == items[..i];
      ExpandErrorStays(expand, items, i + 1);
    } else {
      assert items[..i] == items;
    }
  }

  // ---------------------------------------------------------------------
  // Expressions
  // ---------------------------------------------------------------------

  const MACROS: map<string, seq<string>> := map[
    "@yearly" := ["0", "0", "1", "1", "*"], "@annually" := ["0", "0", "1", "1", "*"],
    "@monthly" := ["0", "0", "1", "*", "*"], "@weekly" := ["0", "0", "*", "*", "0"],
    "@daily" := ["0", "0", "*", "*", "*"], "@hourly" := ["0", "*", "*", "*", "*"]]

  /** _LAYOUTS. */
  function Layout(n: int): (l: seq<Field>)
    requires 5 <= n <= 7
    ensures |l| == n
  {
    if n == 5 then [Minute, Hour, Dom, Month, Dow]
    else if n == 6 then [Minute, Hour, Dom, Month, Dow, Year]
    else [Second, Minute, Hour, Dom, Month, Dow, Year]
  }

  function PlainField(text: string, f: Field): (r: Result<set<int>>)
    ensures r.Ok? ==> r.value != {} && Within(r.value, Lo(f), Hi(f))
  {
    PlainSet(Split(text, ','), f)
  }

  /** '?' alone in a day field reads as '*'. */
  function DayText(text: string): string {
    if text == "?" then "*" else text
  }

  function DomField(text: string): (r: Result<DomSets>)
    ensures r.Ok? ==> ValidDom(r.value) && SomeDay(r.value)
  {
    DomOf(Split(DayText(text), ','))
  }

  function DowField(text: string): (r: Result<DowSets>)
    ensures r.Ok? ==> ValidDow(r.value)
  {
    DowOf(Split(DayText(text), ','))
  }

  function YearField(text: string): (r: Result<Option<set<int>>>)
    ensures r.Ok? && r.value.Some? ==> r.value.value != {} && Within(r.value.value, YEAR_FLOOR, YEAR_HORIZON)
  {
    if text == "*" then Ok(None)
    else
      var years := PlainField(text, Year);
      if years.Error? then Error else Ok(Some(years.value))
  }

  /** The parsed columns put together, or the failure of any. */
  function Assemble(seconds: Result<set<int>>, minutes: Result<set<int>>, hours: Result<set<int>>,
                    dom: Result<DomSets>, months: Result<set<int>>, dow: Result<DowSets>,
                    years: Result<Option<set<int>>>): Result<CronTab>
  {
    if seconds.Error? || minutes.Error? || hours.Error? || dom.Error? || months.Error? || dow.Error? || years.Error?
    then Error
    else
      Ok(CronTab(seconds.value, minutes.value, hours.value,
        dom.value.values, dom.value.offsets, dom.value.nearest, dom.value.lastWeekday, months.value,
        dow.value.values, dow.value.last, dow.value.nth, years.value))
  }

  /** The column parse of CronTab.__init__: a leading second column when there
      are seven, a trailing year column when there are six or seven. */
  function Build(fields: seq<string>): Result<CronTab>
    requires 5 <= |fields| <= 7
  {
    var at := if |fields| == 7 then 1 else 0;
    Assemble(PlainField(if |fields| == 7 then fields[0] else "0", Second),
      PlainField(fields[at], Minute), PlainField(fields[at + 1], Hour), DomField(fields[at + 2]),
      PlainField(fields[at + 3], Month), DowField(fields[at + 4]),
      YearField(if |fields| > 5 then fields[at + 5] else "*"))
  }

  function ExpandAll(hash: Hasher, words: seq<string>, layout: seq<Field>, key: Option<string>): (r: Result<seq<string>>)
    requires |words| == |layout|
    ensures r.Ok? ==> |r.value| == |words|
  {
    if words == [] then Ok([])
    else
      var n := |words| - 1;
      var init, last := ExpandAll(hash, words[..n], layout[..n], key), ExpandField(hash, words[n], layout[n], key);
      if init.Error? || last.Error? then Error else Ok(init.value + [last.value])
  }

  function LowerAll(words: seq<string>): (r: seq<string>)
    ensures |r| == |words|
  {
    seq(|words|, k requires 0 <= k < |words| => Lower(words[k]))
  }

  datatype Parsed = Parsed(tab: CronTab, resolved: string)

  function WithText(tab: Result<CronTab>, resolved: string): Result<Parsed> {
    if tab.Error? then Error else Ok(Parsed(tab.value, resolved))
  }

  /** The columns a lone @-nickname stands for. */
  function MacroOf(words: seq<string>): (r: Option<seq<string>>)
    ensures r.Some? ==> |words| == 1 && |r.value| == 5
  {
    if |words| == 1 && Lower(words[0]) in MACROS then Some(MACROS[Lower(words[0])]) else None
  }

  function ParseWords(hash: Hasher, words: seq<string>, macro: Option<seq<string>>, key: Option<string>): Result<Parsed>
    requires macro.Some? ==> |words| == 1 && |macro.value| == 5
  {
    if macro.Some? then WithText(Build(macro.value), Lower(words[0]))
    else if !(5 <= |words| <= 7) then Error
    else
      var expanded := ExpandAll(hash, words, Layout(|words|), key);
      if expanded.Error? then Error else WithText(Build(LowerAll(expanded.value)), Join(expanded.value, ' '))
  }

  /** CronTab(text, hash_key): the table and its resolved_source. */
  function Parse(hash: Hasher, text: string, key: Option<string>): Result<Parsed> {
    ParseWords(hash, Words(text), MacroOf(Words(text)), key)
  }

  // ---------------------------------------------------------------------
  // Accepted expressions are valid tables
  // ---------------------------------------------------------------------

  lemma BuiltTabIsValid(fields: seq<string>)
    requires 5 <= |fields| <= 7 && Build(fields).Ok?
    ensures ValidTab(Build(fields).value)
  {
  }

  lemma ParsedWordsAreValid(hash: Hasher, words: seq<string>, macro: Option<seq<string>>, key: Option<string>)
    requires macro.Some? ==> |words| == 1 && |macro.value| == 5
    requires ParseWords(hash, words, macro, key).Ok?
    ensures ValidTab(ParseWords(hash, words, macro, key).value.tab)
  {
    if macro.Some? {
      BuiltTabIsValid(macro.value);
    } else {
      BuiltTabIsValid(LowerAll(ExpandAll(hash, words, Layout(|words|), key).value));
    }
  }

  /** The search and matching code may rely on ValidTab for whatever was accepted. */
  lemma ParsedTabIsValid(hash: Hasher, text: string, key: Option<string>)
    requires Parse(hash, text, key).Ok?
    ensures ValidTab(Parse(hash, text, key).value.tab)
  {
    ParsedWordsAreValid(hash, Words(text), MacroOf(Words(text)), key);
  }

  // ---------------------------------------------------------------------
  // resolved_source re-parses, without a key, to the same table
  // ---------------------------------------------------------------------

  /** No item of the field opens with an h. */
  predicate NoHash(text: string) {
    forall item :: item in Split(text, ',') ==> !IsHashItem(item)
  }

  predicate NoSpace(s: string) {
    forall c :: c in s ==> !IsSpace(c)
  }

  /** A comma list of clean parts is clean. */
  lemma {:induction false} JoinKeepsClean(parts: seq<string>)
    requires |parts| >= 1 && forall k :: 0 <= k < |parts| ==> NoHash(parts[k]) && NoSpace(parts[k])
    ensures NoHash(Join(parts, ',')) && NoSpace(Join(parts, ','))
    decreases |parts|
  {
    if |parts| > 1 {
      JoinKeepsClean(parts[1..]);
      SplitConcat(parts[0], Join(parts[1..], ','), ',');
    }
  }

  lemma NumeralIsClean(n: nat)
    ensures NoHash(Numeral(n)) && NoSpace(Numeral(n)) && Numeral(n) != []
  {
    SplitPlain(Numeral(n), ',');
    assert Numeral(n)[0] in Numeral(n);
  }

  lemma NumeralsAreClean(vs: seq<nat>)
    requires vs != []
    ensures NoHash(Join(Numerals(vs), ',')) && NoSpace(Join(Numerals(vs), ',')) && Join(Numerals(vs), ',') != []
  {
    forall k | 0 <= k < |vs| ensures NoHash(Numerals(vs)[k]) && NoSpace(Numerals(vs)[k]) {
      NumeralIsClean(vs[k]);
    }
    JoinKeepsClean(Numerals(vs));
    NumeralIsClean(vs[0]);
  }

  lemma {:induction false} ExpandedItem(expand: string -> Result<string>, items: seq<string>, k: nat)
    requires k < |items| && MapItems(expand, items).Ok?
    ensures expand(items[k]) == Ok(MapItems(expand, items).value[k])
    decreases |items|
  {
    if k < |items| - 1 {
      ExpandedItem(expand, items[..|items| - 1], k);
    }
  }

  lemma {:induction false} ExpandedField(hash: Hasher, words: seq<string>, layout: seq<Field>, key: Option<string>, k: nat)
    requires |words| == |layout| && k < |words| && ExpandAll(hash, words, layout, key).Ok?
    ensures ExpandField(hash, words[k], layout[k], key) == Ok(ExpandAll(hash, words, layout, key).value[k])
    decreases |words|
  {
    var n := |words| - 1;
    if k < n {
      ExpandedField(hash, words[..n], layout[..n], key, k);
    }
  }

  lemma ExpandedItemIsClean(hash: Hasher, item: string, f: Field, key: Option<string>)
    requires ',' !in item && NoSpace(item) && ExpandItem(hash, item, f, key).Ok?
    ensures var out := ExpandItem(hash, item, f, key).value; NoHash(out) && NoSpace(out) && (item != [] ==> out != [])
  {
    if IsHashItem(item) {
      NumeralsAreClean(HashValues(hash, Lower(item), f, key).value);
    } else {
      SplitPlain(item, ',');
    }
  }

  lemma ExpandedFieldIsClean(hash: Hasher, text: string, f: Field, key: Option<string>)
    requires IsWord(text) && ExpandField(hash, text, f, key).Ok?
    ensures NoHash(ExpandField(hash, text, f, key).value) && IsWord(ExpandField(hash, text, f, key).value)
  {
    var items := Split(text, ',');
    var out := MapItems(Expander(hash, f, key), items).value;
    SplitParts(text, ',');
    JoinOfSplit(text, ',');
    forall k | 0 <= k < |out| ensures NoHash(out[k]) && NoSpace(out[k]) && (items[k] != [] ==> out[k] != []) {
      assert items[k] in items;
      ExpandedItem(Expander(hash, f, key), items, k);
      ExpandedItemIsClean(hash, items[k], f, key);
    }
    JoinKeepsClean(out);
  }

  lemma {:induction false} CleanItemsStay(expand: string -> Result<string>, items: seq<string>)
    requires forall item :: item in items ==> expand(item) == Ok(item)
    ensures MapItems(expand, items) == Ok(items)
    decreases |items|
  {
    if items != [] {
      var n := |items| - 1;
      assert items == items[..n] + [items[n]] && items[n] in items;
      CleanItemsStay(expand, items[..n]);
    }
  }

  /** A field without hashed items expands to itself, whatever the key. */
  lemma CleanFieldStays(hash: Hasher, text: string, f: Field, key: Option<string>)
    requires NoHash(text)
    ensures ExpandField(hash, text, f, key) == Ok(text)
  {
    CleanItemsStay(Expander(hash, f, key), Split(text, ','));
    JoinOfSplit(text, ',');
  }

  lemma {:induction false} CleanWordsStay(hash: Hasher, words: seq<string>, layout: seq<Field>, key: Option<string>)
    requires |words| == |layout| && forall k :: 0 <= k < |words| ==> NoHash(words[k])
    ensures ExpandAll(hash, words, layout, key) == Ok(words)
    decreases |words|
  {
    if words != [] {
      var n := |words| - 1;
      assert words == words[..n] + [words[n]];
      CleanWordsStay(hash, words[..n], layout[..n], key);
      CleanFieldStays(hash, words[n], layout[n], key);
    }
  }

  lemma ResolvedWords(hash: Hasher, words: seq<string>, layout: seq<Field>, key: Option<string>)
    requires |words| == |layout| && words != [] && (forall w :: w in words ==> IsWord(w))
    requires ExpandAll(hash, words, layout, key).Ok?
    ensures var e := ExpandAll(hash, words, layout, key).value;
            Words(Join(e, ' ')) == e && forall k :: 0 <= k < |e| ==> NoHash(e[k])
  {
    var e := ExpandAll(hash, words, layout, key).value;
    forall k | 0 <= k < |e| ensures NoHash(e[k]) && IsWord(e[k]) {
      assert words[k] in words;
      ExpandedField(hash, words, layout, key, k);
      ExpandedFieldIsClean(hash, words[k], layout[k], key);
    }
    WordsOfJoin(e);
  }

  lemma ResolvedWordsReparse(hash: Hasher, words: seq<string>, key: Option<string>, other: Hasher)
    requires forall w :: w in words ==> IsWord(w)
    requires ParseWords(hash, words, None, key).Ok?
    ensures var r := ParseWords(hash, words, None, key);
            |Words(r.value.resolved)| > 1 && ParseWords(other, Words(r.value.resolved), None, None) == r
  {
    ResolvedWords(hash, words, Layout(|words|), key);
    var e := ExpandAll(hash, words, Layout(|words|), key).value;
    CleanWordsStay(other, e, Layout(|words|), None);
  }

  lemma MacroReparses(words: seq<string>)
    requires MacroOf(words).Some? && IsWord(words[0])
    ensures var again := Words(Lower(words[0]));
            |again| == 1 && Lower(again[0]) == Lower(words[0]) && MacroOf(again) == MacroOf(words)
  {
    LowerTwice(words[0]);
    LowerIsWord(words[0]);
    WordsOfJoin([Lower(words[0])]);
  }

  lemma LowerIsWord(w: string)
    requires IsWord(w)
    ensures IsWord(Lower(w))
  {
    forall c | c in Lower(w) ensures !IsSpace(c) {
      var k :| 0 <= k < |w| && Lower(w)[k] == c;
      assert w[k] in w;
    }
  }

  /** resolved_source always re-parses, with no hash key and under any hash, to
      the same table and the same text. */
  lemma ResolvedSourceReparses(hash: Hasher, text: string, key: Option<string>, other: Hasher)
    requires Parse(hash, text, key).Ok?
    ensures Parse(other, Parse(hash, text, key).value.resolved, None) == Parse(hash, text, key)
  {
    var words := Words(text);
    if MacroOf(words).Some? {
      MacroReparses(words);
    } else {
      ResolvedWordsReparse(hash, words, key, other);
    }
  }

  /** Without `H` the resolved text is the whitespace-normalised source. */
  lemma ResolvedIsSource(hash: Hasher, text: string, key: Option<string>)
    requires Parse(hash, text, key).Ok? && |Words(text)| >= 5
    requires forall w :: w in Words(text) ==> NoHash(w)
    ensures Parse(hash, text, key).value.resolved == Join(Words(text), ' ')
  {
    CleanWordsStay(hash, Words(text), Layout(|Words(text)|), key);
  }

  // ---------------------------------------------------------------------
  // Hashed values are the values the field parser then reads
  // ---------------------------------------------------------------------

  lemma {:induction false} PartitionAbsent(s: string, c: char)
    requires c !in s
    ensures Partition(s, c) == (s, false, "")
    decreases |s|
  {
    if s != [] {
      PartitionAbsent(s[1..], c);
      assert s == [s[0]] + s[1..];
    }
  }

  lemma {:induction false} DigitsAreNoName(names: seq<string>, token: string, first: int)
    requires AllDigits(token) && forall k :: 0 <= k < |names| ==> names[k] != [] && !IsDigit(names[k][0])
    ensures Lookup(names, token, first).None?
    decreases |names|
  {
    assert token[0] in token;
    if names != [] {
      DigitsAreNoName(names[1..], token, first + 1);
    }
  }

  lemma NamesAreLetters(f: Field)
    ensures forall k :: 0 <= k < |Names(f)| ==> Names(f)[k] != [] && !IsDigit(Names(f)[k][0])
  {
  }

  lemma NumeralResolves(v: nat, f: Field)
    requires Lo(f) <= v <= Hi(f)
    ensures ResolveToken(Numeral(v), f) == Ok(v)
  {
    NamesAreLetters(f);
    DigitsAreNoName(Names(f), Numeral(v), Lo(f));
    ParseIntOfNumeral(v);
  }

  lemma NumeralBounds(v: nat, f: Field)
    requires Lo(f) <= v <= Hi(f)
    ensures ParseBounds(f, Numeral(v), false) == Ok((v, v))
  {
    NumeralResolves(v, f);
    assert Numeral(v)[0] in Numeral(v);
  }

  lemma SingleRange(v: int)
    ensures Range(v, v, 1) == {v}
  {
    assert OnStep(v, 1, v);
  }

  lemma NumeralItem(v: nat, f: Field)
    requires Lo(f) <= v <= Hi(f)
    ensures ParseItem(Numeral(v), f) == Ok({v})
  {
    PartitionAbsent(Numeral(v), '/');
    NumeralBounds(v, f);
    SingleRange(v);
  }

  lemma NumeralIsPlain(v: nat)
    ensures var s := Numeral(v);
            !StartsWith(s, "l") && '#' !in s && s[0] != 'l' && s[|s| - 1] != 'w'
  {
    var s := Numeral(v);
    assert s[0] in s && s[|s| - 1] in s;
  }

  lemma NumeralIsNoDayForm(v: nat)
    ensures var s := Numeral(v);
            s != "l" && s != "lw" && !StartsWith(s, "l-") && !StartsWith(s, "l") && s[|s| - 1] != 'w'
  {
    NumeralIsPlain(v);
  }

  lemma AddPlainNumeral(items: seq<string>, v: nat, f: Field)
    requires Lo(f) <= v <= Hi(f) && PlainSet(items, f).Ok?
    ensures PlainSet(items + [Numeral(v)], f) == Ok(PlainSet(items, f).value + {v})
  {
    var all := items + [Numeral(v)];
    assert all[..|all| - 1] == items;
    NumeralItem(v, f);
    NumeralIsPlain(v);
  }

  lemma AddDomNumeral(d: DomSets, v: nat)
    requires Lo(Dom) <= v <= Hi(Dom)
    ensures AddDom(d, Numeral(v)) == Ok(d.(values := d.values + {v}))
  {
    NumeralItem(v, Dom);
    NumeralIsNoDayForm(v);
  }

  lemma AddDowNumeral(d: DowSets, v: nat)
    requires Lo(Dow) <= v <= Hi(Dow)
    ensures AddDow(d, Numeral(v)) == Ok(d.(values := d.values + FoldSunday({v as int})))
  {
    NumeralItem(v, Dow);
    NumeralIsPlain(v);
  }

  function Values(vs: seq<nat>): (r: set<int>)
    ensures forall x :: x in r <==> x in vs
  {
    set v: int | v in vs
  }

  lemma {:induction false} SplitOfJoin(parts: seq<string>, c: char)
    requires |parts| >= 1 && forall p :: p in parts ==> c !in p
    ensures Split(Join(parts, c), c) == parts
    decreases |parts|
  {
    SplitPlain(parts[0], c);
    if |parts| > 1 {
      SplitOfJoin(parts[1..], c);
      SplitConcat(parts[0], Join(parts[1..], c), c);
      assert parts == [parts[0]] + parts[1..];
    } else {
      assert parts == [parts[0]];
    }
  }

  lemma SplitOfNumerals(vs: seq<nat>)
    requires vs != []
    ensures Split(Join(Numerals(vs), ','), ',') == Numerals(vs)
  {
    SplitOfJoin(Numerals(vs), ',');
  }

  predicate InField(vs: seq<nat>, f: Field) {
    forall k :: 0 <= k < |vs| ==> Lo(f) <= vs[k] <= Hi(f)
  }

  lemma LastValue(vs: seq<nat>)
    requires vs != []
    ensures var n := |vs| - 1;
            && Numerals(vs) == Numerals(vs[..n]) + [Numeral(vs[n])]
            && Values(vs) == Values(vs[..n]) + {vs[n]}
  {
    assert vs == vs[..|vs| - 1] + [vs[|vs| - 1]];
  }

  lemma {:induction false} PlainNumerals(vs: seq<nat>, f: Field)
    requires InField(vs, f)
    ensures PlainSet(Numerals(vs), f) == Ok(Values(vs))
    decreases |vs|
  {
    if vs != [] {
      var n := |vs| - 1;
      LastValue(vs);
      PlainNumerals(vs[..n], f);
      AddPlainNumeral(Numerals(vs[..n]), vs[n], f);
    } else {
      assert Values(vs) == {};
    }
  }

  lemma {:induction false} DomNumerals(vs: seq<nat>)
    requires InField(vs, Dom)
    ensures DomOf(Numerals(vs)) == Ok(DomSets(Values(vs), {}, {}, false))
    decreases |vs|
  {
    if vs != [] {
      var n := |vs| - 1;
      LastValue(vs);
      DomNumerals(vs[..n]);
      AddDomNumeral(DomOf(Numerals(vs[..n])).value, vs[n]);
    } else {
      assert Values(vs) == {};
    }
  }

  lemma {:induction false} DowNumerals(vs: seq<nat>)
    requires InField(vs, Dow)
    ensures DowOf(Numerals(vs)) == Ok(DowSets(FoldSunday(Values(vs)), {}, {}))
    decreases |vs|
  {
    if vs != [] {
      var n := |vs| - 1;
      LastValue(vs);
      DowNumerals(vs[..n]);
      AddDowNumeral(DowOf(Numerals(vs[..n])).value, vs[n]);
      assert FoldSunday(Values(vs)) == FoldSunday(Values(vs[..n])) + FoldSunday({vs[n] as int});
    } else {
      assert Values(vs) == {} && FoldSunday({}) == {};
    }
  }

  /** Expanding a hashed item and parsing the text reads back exactly the hashed
      values, in every kind of field. */
  lemma HashedFieldParses(hash: Hasher, item: string, f: Field, key: Option<string>)
    requires IsHashItem(item) && ',' !in item && ExpandField(hash, item, f, key).Ok?
    ensures var vs, out := HashValues(hash, Lower(item), f, key), ExpandField(hash, item, f, key).value;
            && vs.Ok?
            && (f != Dom && f != Dow ==> PlainField(out, f) == Ok(Values(vs.value)))
            && (f == Dom ==> DomField(out) == Ok(DomSets(Values(vs.value), {}, {}, false)))
            && (f == Dow ==> DowField(out) == Ok(DowSets(FoldSunday(Values(vs.value)), {}, {})))
  {
    SplitPlain(item, ',');
    var out := ExpandField(hash, item, f, key).value;
    ExpandedItem(Expander(hash, f, key), [item], 0);
    var vs := HashValues(hash, Lower(item), f, key).value;
    assert out == Join(Numerals(vs), ',');
    HashedTextParses(vs, f);
  }

  lemma HashedTextParses(vs: seq<nat>, f: Field)
    requires vs != [] && InField(vs, f)
    ensures var out := Join(Numerals(vs), ',');
            && (f != Dom && f != Dow ==> PlainField(out, f) == Ok(Values(vs)))
            && (f == Dom ==> DomField(out) == Ok(DomSets(Values(vs), {}, {}, false)))
            && (f == Dow ==> DowField(out) == Ok(DowSets(FoldSunday(Values(vs)), {}, {})))
  {
    SplitOfNumerals(vs);
    NumeralsAreClean(vs);
    NotAQuestion(vs);
    if f == Dom {
      DomNumerals(vs);
    } else if f == Dow {
      DowNumerals(vs);
    } else {
      PlainNumerals(vs, f);
    }
  }

  lemma NotAQuestion(vs: seq<nat>)
    requires vs != []
    ensures Join(Numerals(vs), ',') != "?"
  {
    var s := Numeral(vs[0]);
    assert s[0] in s && Join(Numerals(vs), ',')[0] == s[0];
  }
}
