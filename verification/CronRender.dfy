/** What the cron parser reads, stated from the printing side: the value set of
    every item, and an expression for every valid table. */
module CronRender {
  import opened Wrappers
  import opened CronTab
  import opened Text
  import opened CronParse

  // ---------------------------------------------------------------------
  // Items
  // ---------------------------------------------------------------------

  /** A value of a field: a number, or the k-th name of the field's name table. */
  datatype Token = Number(n: nat) | Name(k: nat)

  predicate IsToken(f: Field, t: Token) {
    t.Name? ==> t.k < |Names(f)|
  }

  function TokenText(f: Field, t: Token): string
    requires IsToken(f, t)
  {
    if t.Number? then Numeral(t.n) else Names(f)[t.k]
  }

  function ValueOf(f: Field, t: Token): int {
    if t.Number? then t.n else Lo(f) + t.k
  }

  /** The head of an item: `*`, `a` or `a-b`. */
  datatype Head = Star | At(a: Token) | Span(a: Token, b: Token)

  predicate IsHead(f: Field, h: Head) {
    (!h.Star? ==> IsToken(f, h.a)) && (h.Span? ==> IsToken(f, h.b))
  }

  function HeadText(f: Field, h: Head): string
    requires IsHead(f, h)
  {
    match h
    case Star => "*"
    case At(a) => TokenText(f, a)
    case Span(a, b) => TokenText(f, a) + ['-'] + TokenText(f, b)
  }

  /** An item: its head, with `/n` behind it when there is a step. */
  function ItemText(f: Field, h: Head, step: Option<nat>): string
    requires IsHead(f, h)
  {
    if step.None? then HeadText(f, h) else HeadText(f, h) + ['/'] + Numeral(step.value)
  }

  function First(f: Field, h: Head): int {
    if h.Star? then Lo(f) else ValueOf(f, h.a)
  }

  /** The last value an item may reach: a weekday range ending in 0 ends on
      Sunday as 7, a stepped single start runs to the end of the field. */
  function Last(f: Field, h: Head, stepped: bool): int {
    match h
    case Star => StepEnd(f)
    case At(a) => if stepped then StepEnd(f) else ValueOf(f, a)
    case Span(a, b) => if f == Dow && ValueOf(f, b) == 0 then 7 else ValueOf(f, b)
  }

  predicate InRange(f: Field, v: int) {
    Lo(f) <= v <= Hi(f)
  }

  predicate Accepted(f: Field, h: Head, step: Option<nat>) {
    && (!h.Star? ==> InRange(f, ValueOf(f, h.a))) && (h.Span? ==> InRange(f, ValueOf(f, h.b)))
    && First(f, h) <= Last(f, h, step.Some?)
    && (step.Some? ==> 0 < step.value <= Hi(f) && First(f, h) + step.value <= Hi(f))
  }

  ghost predicate Multiple(d: int, n: int) {
    exists k: nat :: d == k * n
  }

  lemma {:induction false} PartitionAt(a: string, c: char, b: string)
    requires c !in a
    ensures Partition(a + [c] + b, c) == (a, true, b)
    decreases |a|
  {
    var s := a + [c] + b;
    if a == [] {
      assert s[0] == c && s[1..] == b;
    } else {
      PartitionAt(a[1..], c, b);
      assert s[0] == a[0] && s[1..] == a[1..] + [c] + b && a == [a[0]] + a[1..];
    }
  }

  lemma Product(n: int, e: int)
    requires n > 0
    ensures e >= 1 ==> n * e >= n
    ensures e <= -1 ==> n * e <= -n
  {
    if e >= 1 {
      assert n * e == n + n * (e - 1);
    } else {
      assert n * e == -n + n * (e + 1);
    }
  }

  lemma MultipleRemainder(k: nat, n: int)
    requires n > 0
    ensures (k * n) % n == 0
  {
    var d := k * n;
    Product(n, k - d / n);
    assert d % n == n * (k - d / n);
  }

  lemma OnStepIsMultiple(start: int, n: int, x: int)
    requires n > 0 && start <= x
    ensures OnStep(start, n, x) <==> Multiple(x - start, n)
  {
    var d := x - start;
    if OnStep(start, n, x) {
      assert d == (d / n) * n && d / n >= 0;
    }
    if k: nat :| d == k * n {
      MultipleRemainder(k, n);
    }
  }

  /** A numeral resolves exactly when it lies in the field's range. */
  lemma NumeralResolvesIff(v: nat, f: Field)
    ensures ResolveToken(Numeral(v), f) == if Lo(f) <= v <= Hi(f) then Ok(v) else Error
  {
    NamesAreLetters(f);
    DigitsAreNoName(Names(f), Numeral(v), Lo(f));
    ParseIntOfNumeral(v);
  }

  lemma StepReads(f: Field, n: nat)
    ensures ParseStep(f, true, Numeral(n)) == if 0 < n <= Hi(f) then Ok(n) else Error
  {
    ParseIntOfNumeral(n);
  }

  lemma {:induction false} NameFound(names: seq<string>, k: nat, first: int)
    requires k < |names| && forall i :: 0 <= i < k ==> names[i] != names[k]
    ensures Lookup(names, names[k], first) == Some(first + k)
    decreases k
  {
    if k > 0 {
      NameFound(names[1..], k - 1, first + 1);
    }
  }

  lemma NamesAreDistinct(f: Field, i: nat, k: nat)
    requires i < k < |Names(f)|
    ensures Names(f)[i] != Names(f)[k]
  {
  }

  lemma NamesAreLowercase(f: Field, k: nat)
    requires k < |Names(f)|
    ensures Names(f)[k] != [] && forall c :: c in Names(f)[k] ==> 'a' <= c <= 'z'
  {
  }

  /** A token's text holds none of the parser's punctuation. */
  lemma TokenIsWord(f: Field, t: Token)
    requires IsToken(f, t)
    ensures var s := TokenText(f, t); s != [] && forall c :: c in s ==> c != '*' && c != '-' && c != '/'
  {
    if t.Name? {
      NamesAreLowercase(f, t.k);
    }
  }

  /** A token resolves to its value exactly when that lies in the field's range. */
  lemma TokenResolves(f: Field, t: Token)
    requires IsToken(f, t)
    ensures ResolveToken(TokenText(f, t), f) == if InRange(f, ValueOf(f, t)) then Ok(ValueOf(f, t)) else Error
  {
    if t.Number? {
      NumeralResolvesIff(t.n, f);
    } else {
      forall i | 0 <= i < t.k ensures Names(f)[i] != Names(f)[t.k] {
        NamesAreDistinct(f, i, t.k);
      }
      NameFound(Names(f), t.k, Lo(f));
    }
  }

  lemma SingleReads(f: Field, a: Token, slash: bool)
    requires IsToken(f, a)
    ensures var v, last := ValueOf(f, a), Last(f, At(a), slash);
            ParseBounds(f, TokenText(f, a), slash) == if InRange(f, v) && v <= last then Ok((v, last)) else Error
  {
    TokenIsWord(f, a);
    TokenResolves(f, a);
    assert TokenText(f, a)[0] in TokenText(f, a);
  }

  lemma SpanReads(f: Field, a: Token, b: Token, slash: bool)
    requires IsToken(f, a) && IsToken(f, b)
    ensures var v, w, last := ValueOf(f, a), ValueOf(f, b), Last(f, Span(a, b), slash);
            ParseBounds(f, HeadText(f, Span(a, b)), slash) ==
            if InRange(f, v) && InRange(f, w) && v <= last then Ok((v, last)) else Error
  {
    TokenIsWord(f, a);
    TokenResolves(f, a);
    TokenResolves(f, b);
    DashedReads(f, TokenText(f, a), TokenText(f, b), slash);
  }

  /** A range reads its two sides. */
  lemma DashedReads(f: Field, a: string, b: string, slash: bool)
    requires a != [] && '-' !in a
    ensures var start, end := ResolveToken(a, f), ResolveToken(b, f);
            ParseBounds(f, a + ['-'] + b, slash) ==
            if start.Error? || end.Error? then Error
            else
              var last := if end.value == 0 && f == Dow then 7 else end.value;
              if start.value > last then Error else Ok((start.value, last))
  {
    var s := a + ['-'] + b;
    PartitionAt(a, '-', b);
    assert s[|a|] == '-' && |s| > 1;
  }

  lemma HeadReads(f: Field, h: Head, slash: bool)
    requires IsHead(f, h)
    ensures var ok := (!h.Star? ==> InRange(f, ValueOf(f, h.a))) && (h.Span? ==> InRange(f, ValueOf(f, h.b)));
            ParseBounds(f, HeadText(f, h), slash) ==
            if ok && First(f, h) <= Last(f, h, slash) then Ok((First(f, h), Last(f, h, slash))) else Error
  {
    match h
    case Star =>
    case At(a) => SingleReads(f, a, slash);
    case Span(a, b) => SpanReads(f, a, b, slash);
  }

  lemma HeadHasNoSlash(f: Field, h: Head)
    requires IsHead(f, h)
    ensures '/' !in HeadText(f, h)
  {
    if !h.Star? {
      TokenIsWord(f, h.a);
    }
    if h.Span? {
      TokenIsWord(f, h.b);
    }
  }

  function Stride(step: Option<nat>): int {
    if step.Some? then step.value else 1
  }

  lemma UnsteppedReads(f: Field, h: Head)
    requires IsHead(f, h)
    ensures ParseItem(HeadText(f, h), f) ==
            if Accepted(f, h, None) then Ok(Range(First(f, h), Last(f, h, false), 1)) else Error
  {
    HeadHasNoSlash(f, h);
    HeadReads(f, h, false);
    UnsteppedParts(f, HeadText(f, h), ParseBounds(f, HeadText(f, h), false));
  }

  lemma UnsteppedParts(f: Field, head: string, bounds: Result<(int, int)>)
    requires '/' !in head && bounds == ParseBounds(f, head, false)
    ensures ParseItem(head, f) == if bounds.Ok? then Ok(Range(bounds.value.0, bounds.value.1, 1)) else Error
  {
    PartitionAbsent(head, '/');
  }

  lemma SteppedParts(f: Field, head: string, tail: string, bounds: Result<(int, int)>, step: Result<int>)
    requires '/' !in head && bounds == ParseBounds(f, head, true) && step == ParseStep(f, true, tail)
    ensures step.Ok? ==> step.value > 0
    ensures ParseItem(head + ['/'] + tail, f) ==
            if bounds.Ok? && step.Ok? && Lo(f) <= bounds.value.0 + step.value <= Hi(f)
            then Ok(Range(bounds.value.0, bounds.value.1, step.value)) else Error
  {
    PartitionAt(head, '/', tail);
  }

  lemma SteppedReads(f: Field, h: Head, n: nat)
    requires IsHead(f, h)
    ensures ParseItem(ItemText(f, h, Some(n)), f).Ok? <==> Accepted(f, h, Some(n))
    ensures Accepted(f, h, Some(n)) ==> ParseItem(ItemText(f, h, Some(n)), f) == Ok(Range(First(f, h), Last(f, h, true), n))
  {
    HeadHasNoSlash(f, h);
    HeadReads(f, h, true);
    StepReads(f, n);
    SteppedParts(f, HeadText(f, h), Numeral(n), ParseBounds(f, HeadText(f, h), true), ParseStep(f, true, Numeral(n)));
  }

  /** An item over numbers and names is accepted exactly when its values lie in
      the field, the range is not reversed and the first step stays inside the
      field; it then stands for every n-th value from its first to its last. */
  lemma ItemMeans(f: Field, h: Head, step: Option<nat>, r: Result<set<int>>)
    requires IsHead(f, h) && r == ParseItem(ItemText(f, h, step), f)
    ensures r.Ok? <==> Accepted(f, h, step)
    ensures r.Ok? ==> forall x :: x in r.value <==>
              First(f, h) <= x <= Last(f, h, step.Some?) && Multiple(x - First(f, h), Stride(step))
  {
    if step.Some? {
      SteppedReads(f, h, step.value);
    } else {
      UnsteppedReads(f, h);
    }
    if r.Ok? {
      RangeMeans(First(f, h), Last(f, h, step.Some?), Stride(step));
    }
  }

  lemma RangeMeans(first: int, last: int, n: int)
    requires n > 0
    ensures forall x :: x in Range(first, last, n) <==> first <= x <= last && Multiple(x - first, n)
  {
    forall x | first <= x ensures OnStep(first, n, x) <==> Multiple(x - first, n) {
      OnStepIsMultiple(first, n, x);
    }
  }

  // ---------------------------------------------------------------------
  // An expression for a table
  // ---------------------------------------------------------------------

  predicate IsItemChar(c: char) {
    IsDigit(c) || c == 'l' || c == '-' || c == 'w' || c == '#'
  }

  predicate IsItem(s: string) {
    s != [] && forall c :: c in s ==> IsItemChar(c)
  }

  predicate IsFieldText(s: string) {
    s != [] && forall c :: c in s ==> IsItemChar(c) || c == ',' || c == '*'
  }

  lemma {:induction false} JoinOfItems(items: seq<string>)
    requires |items| >= 1 && forall k :: 0 <= k < |items| ==> IsItem(items[k])
    ensures IsFieldText(Join(items, ',')) && Split(Join(items, ','), ',') == items
    ensures items[0] != [] && Join(items, ',')[0] == items[0][0]
    decreases |items|
  {
    SplitPlain(items[0], ',');
    if |items| > 1 {
      JoinOfItems(items[1..]);
      SplitConcat(items[0], Join(items[1..], ','), ',');
      assert items == [items[0]] + items[1..];
    } else {
      assert items == [items[0]];
    }
  }

  /** A field text is a word, holds no hashed item and is lowercase already. */
  lemma FieldTextIsPlain(s: string)
    requires IsFieldText(s)
    ensures IsWord(s) && NoHash(s) && Lower(s) == s && s != "?"
  {
    SplitParts(s, ',');
    assert forall k :: 0 <= k < |s| ==> s[k] in s;
    forall item | item in Split(s, ',') ensures !IsHashItem(item) {
      if item != [] {
        assert item[0] in item;
      }
    }
  }

  predicate Naturals(ps: seq<(int, int)>) {
    forall k :: 0 <= k < |ps| ==> ps[k].0 >= 0 && ps[k].1 >= 0
  }

  function Pairs(ps: seq<(int, int)>): set<(int, int)> {
    set p | p in ps
  }

  function OffsetItem(k: nat): string {
    if k == 0 then "l" else "l-" + Numeral(k)
  }

  function NearestItem(n: nat): string {
    Numeral(n) + "w"
  }

  function LastItem(v: nat): string {
    "l" + Numeral(v)
  }

  function NthItem(p: (int, int)): string
    requires p.0 >= 0 && p.1 >= 0
  {
    Numeral(p.0) + ['#'] + Numeral(p.1)
  }

  /** A last-weekday range. */
  function SpanItem(p: (int, int)): string
    requires p.0 >= 0 && p.1 >= 0
  {
    "l" + (Numeral(p.0) + ['-'] + Numeral(p.1))
  }

  /** The weekdays the ranges stand for; a reversed range stands for none. */
  function SpanDays(ps: seq<(int, int)>): set<int> {
    if ps == [] then {} else
      var p := ps[|ps| - 1];
      SpanDays(ps[..|ps| - 1]) + FoldSunday(Range(p.0, p.1, 1))
  }

  function Offsets(vs: seq<nat>): seq<string> {
    seq(|vs|, k requires 0 <= k < |vs| => OffsetItem(vs[k]))
  }

  function Nearests(vs: seq<nat>): seq<string> {
    seq(|vs|, k requires 0 <= k < |vs| => NearestItem(vs[k]))
  }

  function Lasts(vs: seq<nat>): seq<string> {
    seq(|vs|, k requires 0 <= k < |vs| => LastItem(vs[k]))
  }

  function Spans(ps: seq<(int, int)>): seq<string>
    requires Naturals(ps)
  {
    seq(|ps|, k requires 0 <= k < |ps| => SpanItem(ps[k]))
  }

  function Nths(ps: seq<(int, int)>): seq<string>
    requires Naturals(ps)
  {
    seq(|ps|, k requires 0 <= k < |ps| => NthItem(ps[k]))
  }

  // ---------------------------------------------------------------------
  // Adding items one by one
  // ---------------------------------------------------------------------

  function AddAll<D>(add: (D, string) -> Result<D>, start: D, items: seq<string>): Result<D> {
    if items == [] then Ok(start)
    else
      var init := AddAll(add, start, items[..|items| - 1]);
      if init.Error? then Error else add(init.value, items[|items| - 1])
  }

  lemma {:induction false} AddAllThrough<D>(add: (D, string) -> Result<D>, items: seq<string>, states: seq<D>)
    requires |states| == |items| + 1
    requires forall k :: 0 <= k < |items| ==> add(states[k], items[k]) == Ok(states[k + 1])
    ensures AddAll(add, states[0], items) == Ok(states[|items|])
    decreases |items|
  {
    if items != [] {
      AddAllThrough(add, items[..|items| - 1], states[..|items|]);
    }
  }

  lemma {:induction false} AddAllAppend<D>(add: (D, string) -> Result<D>, start: D, a: seq<string>, mid: D, b: seq<string>)
    requires AddAll(add, start, a) == Ok(mid)
    ensures AddAll(add, start, a + b) == AddAll(add, mid, b)
    decreases |b|
  {
    if b == [] {
      assert a + b == a;
    } else {
      var n := |b| - 1;
      AddAllAppend(add, start, a, mid, b[..n]);
      assert (a + b)[..|a + b| - 1] == a + b[..n] && (a + b)[|a + b| - 1] == b[n];
    }
  }

  lemma {:induction false} DomOfAdds(items: seq<string>)
    ensures DomOf(items) == AddAll(AddDom, DomSets({}, {}, {}, false), items)
    decreases |items|
  {
    if items != [] {
      DomOfAdds(items[..|items| - 1]);
    }
  }

  lemma {:induction false} DowOfAdds(items: seq<string>)
    ensures DowOf(items) == AddAll(AddDow, DowSets({}, {}, {}), items)
    decreases |items|
  {
    if items != [] {
      DowOfAdds(items[..|items| - 1]);
    }
  }

  lemma NextValues(vs: seq<nat>, k: nat)
    requires k < |vs|
    ensures Values(vs[..k + 1]) == Values(vs[..k]) + {vs[k]}
  {
    assert vs[..k + 1] == vs[..k] + [vs[k]];
  }

  lemma AllValues(vs: seq<nat>, s: set<int>)
    ensures s + Values(vs[..0]) == s && vs[..|vs|] == vs
  {
    assert Values(vs[..0]) == {};
  }

  // ---------------------------------------------------------------------
  // Day-of-month items read back
  // ---------------------------------------------------------------------

  lemma ReadOffset(d: DomSets, k: nat)
    requires k <= 30
    ensures AddDom(d, OffsetItem(k)) == Ok(d.(offsets := d.offsets + {k}))
  {
    NumberOfNumeral(k);
    if k > 0 {
      assert OffsetItem(k)[2..] == Numeral(k) && OffsetItem(k)[1] == '-';
    }
  }

  lemma ReadNearest(d: DomSets, n: nat)
    requires 1 <= n <= 31
    ensures AddDom(d, NearestItem(n)) == Ok(d.(nearest := d.nearest + {n}))
  {
    var s := NearestItem(n);
    NumberOfNumeral(n);
    NumeralIsPlain(n);
    assert s[0] == Numeral(n)[0] && s[..|s| - 1] == Numeral(n);
  }

  lemma ReadDays(d: DomSets, vs: seq<nat>)
    requires InField(vs, Dom)
    ensures AddAll(AddDom, d, Numerals(vs)) == Ok(d.(values := d.values + Values(vs)))
  {
    var states := seq(|vs| + 1, k requires 0 <= k <= |vs| => d.(values := d.values + Values(vs[..k])));
    forall k | 0 <= k < |vs| ensures AddDom(states[k], Numerals(vs)[k]) == Ok(states[k + 1]) {
      AddDomNumeral(states[k], vs[k]);
      NextValues(vs, k);
      assert states[k].values + {vs[k]} == states[k + 1].values;
    }
    AddAllThrough(AddDom, Numerals(vs), states);
    AllValues(vs, d.values);
  }

  lemma ReadOffsets(d: DomSets, vs: seq<nat>)
    requires forall k :: 0 <= k < |vs| ==> vs[k] <= 30
    ensures AddAll(AddDom, d, Offsets(vs)) == Ok(d.(offsets := d.offsets + Values(vs)))
  {
    var states := seq(|vs| + 1, k requires 0 <= k <= |vs| => d.(offsets := d.offsets + Values(vs[..k])));
    forall k | 0 <= k < |vs| ensures AddDom(states[k], Offsets(vs)[k]) == Ok(states[k + 1]) {
      ReadOffset(states[k], vs[k]);
      NextValues(vs, k);
      assert states[k].offsets + {vs[k]} == states[k + 1].offsets;
    }
    AddAllThrough(AddDom, Offsets(vs), states);
    AllValues(vs, d.offsets);
  }

  lemma ReadNearests(d: DomSets, vs: seq<nat>)
    requires forall k :: 0 <= k < |vs| ==> 1 <= vs[k] <= 31
    ensures AddAll(AddDom, d, Nearests(vs)) == Ok(d.(nearest := d.nearest + Values(vs)))
  {
    var states := seq(|vs| + 1, k requires 0 <= k <= |vs| => d.(nearest := d.nearest + Values(vs[..k])));
    forall k | 0 <= k < |vs| ensures AddDom(states[k], Nearests(vs)[k]) == Ok(states[k + 1]) {
      ReadNearest(states[k], vs[k]);
      NextValues(vs, k);
      assert states[k].nearest + {vs[k]} == states[k + 1].nearest;
    }
    AddAllThrough(AddDom, Nearests(vs), states);
    AllValues(vs, d.nearest);
  }

  function LastWorkdayItem(wanted: bool): seq<string> {
    if wanted then ["lw"] else []
  }

  lemma ReadLastWorkday(d: DomSets, wanted: bool)
    requires !d.lastWeekday
    ensures AddAll(AddDom, d, LastWorkdayItem(wanted)) == Ok(d.(lastWeekday := wanted))
  {
    if wanted {
      AddAllThrough(AddDom, ["lw"], [d, d.(lastWeekday := true)]);
    }
  }

  function DomItems(days: seq<nat>, offsets: seq<nat>, nearest: seq<nat>, lastWeekday: bool): seq<string> {
    Numerals(days) + Offsets(offsets) + Nearests(nearest) + LastWorkdayItem(lastWeekday)
  }

  lemma FromNothing<T>(s: set<T>)
    ensures {} + s == s
  {
  }

  lemma AddDomItems(days: seq<nat>, offsets: seq<nat>, nearest: seq<nat>, lastWeekday: bool)
    requires InField(days, Dom) && InField(nearest, Dom) && forall k :: 0 <= k < |offsets| ==> offsets[k] <= 30
    ensures AddAll(AddDom, DomSets({}, {}, {}, false), DomItems(days, offsets, nearest, lastWeekday)) ==
            Ok(DomSets(Values(days), Values(offsets), Values(nearest), lastWeekday))
  {
    var d0 := DomSets({}, {}, {}, false);
    var d1 := DomSets(Values(days), {}, {}, false);
    var d2 := DomSets(Values(days), Values(offsets), {}, false);
    var d3 := DomSets(Values(days), Values(offsets), Values(nearest), false);
    FromNothing(Values(days));
    FromNothing(Values(offsets));
    FromNothing(Values(nearest));
    ReadDays(d0, days);
    ReadOffsets(d1, offsets);
    ReadNearests(d2, nearest);
    ReadLastWorkday(d3, lastWeekday);
    FourParts(AddDom, d0, Numerals(days), d1, Offsets(offsets), d2, Nearests(nearest), d3, LastWorkdayItem(lastWeekday));
  }

  lemma ReadDomItems(days: seq<nat>, offsets: seq<nat>, nearest: seq<nat>, lastWeekday: bool)
    requires InField(days, Dom) && InField(nearest, Dom) && forall k :: 0 <= k < |offsets| ==> offsets[k] <= 30
    ensures DomOf(DomItems(days, offsets, nearest, lastWeekday)) ==
            Ok(DomSets(Values(days), Values(offsets), Values(nearest), lastWeekday))
  {
    AddDomItems(days, offsets, nearest, lastWeekday);
    DomOfAdds(DomItems(days, offsets, nearest, lastWeekday));
  }

  lemma FourParts<D>(add: (D, string) -> Result<D>, d0: D, a: seq<string>, d1: D, b: seq<string>, d2: D,
                     c: seq<string>, d3: D, e: seq<string>)
    requires AddAll(add, d0, a) == Ok(d1) && AddAll(add, d1, b) == Ok(d2) && AddAll(add, d2, c) == Ok(d3)
    ensures AddAll(add, d0, a + b + c + e) == AddAll(add, d3, e)
  {
    AddAllAppend(add, d0, a, d1, b);
    AddAllAppend(add, d0, a + b, d2, c);
    AddAllAppend(add, d0, a + b + c, d3, e);
  }

  // ---------------------------------------------------------------------
  // Day-of-week items read back
  // ---------------------------------------------------------------------

  lemma FoldIsIdentity(s: set<int>)
    requires Within(s, 0, 6)
    ensures FoldSunday(s) == s
  {
    forall x ensures x in FoldSunday(s) <==> x in s {
      if x in s {
        assert x % 7 == x;
      }
    }
  }

  lemma ReadLast(d: DowSets, v: nat)
    requires v <= 6
    ensures AddDow(d, LastItem(v)) == Ok(d.(last := d.last + {v}))
  {
    assert LastItem(v)[1..] == Numeral(v);
    PartitionAbsent(Numeral(v), '-');
    NumberOfNumeral(v);
    SingleRange(v);
    FoldIsIdentity({v});
  }

  lemma NthParses(p: (int, int))
    requires 0 <= p.0 <= 6 && 1 <= p.1 <= 5
    ensures ParseNth(NthItem(p)) == Ok(p)
  {
    PartitionAt(Numeral(p.0), '#', Numeral(p.1));
    NumeralResolves(p.0, Dow);
    NumberOfNumeral(p.1);
  }

  lemma ReadNth(d: DowSets, p: (int, int))
    requires 0 <= p.0 <= 6 && 1 <= p.1 <= 5
    ensures AddDow(d, NthItem(p)) == Ok(d.(nth := d.nth + {p}))
  {
    var s := NthItem(p);
    NthParses(p);
    NumeralIsPlain(p.0);
    assert s[|Numeral(p.0)|] == '#' && s[0] == Numeral(p.0)[0];
  }

  /** A last-weekday range is accepted exactly when both ends are weekday numbers,
      and adds the weekdays between them. */
  lemma ReadSpan(d: DowSets, a: nat, b: nat)
    ensures AddDow(d, SpanItem((a, b))) ==
            if a <= 7 && b <= 7 then Ok(d.(last := d.last + FoldSunday(Range(a, b, 1)))) else Error
  {
    assert SpanItem((a, b))[1..] == Numeral(a) + ['-'] + Numeral(b);
    PartitionAt(Numeral(a), '-', Numeral(b));
    NumberOfNumeral(a);
    NumberOfNumeral(b);
  }

  /** A reversed last-weekday range is accepted and adds nothing. */
  lemma ReadReversed(d: DowSets, a: nat, b: nat)
    requires b < a <= 7
    ensures AddDow(d, SpanItem((a, b))) == Ok(d)
  {
    ReadSpan(d, a, b);
    ReversedIsEmpty(a, b);
    assert d.(last := d.last + {}) == d;
  }

  lemma ReversedIsEmpty(a: int, b: int)
    requires b < a
    ensures FoldSunday(Range(a, b, 1)) == {}
  {
    assert Range(a, b, 1) == {};
    assert FoldSunday({}) == {};
  }

  lemma ReadWeekdays(d: DowSets, vs: seq<nat>)
    requires forall k :: 0 <= k < |vs| ==> vs[k] <= 6
    ensures AddAll(AddDow, d, Numerals(vs)) == Ok(d.(values := d.values + Values(vs)))
  {
    var states := seq(|vs| + 1, k requires 0 <= k <= |vs| => d.(values := d.values + Values(vs[..k])));
    forall k | 0 <= k < |vs| ensures AddDow(states[k], Numerals(vs)[k]) == Ok(states[k + 1]) {
      AddDowNumeral(states[k], vs[k]);
      FoldIsIdentity({vs[k]});
      NextValues(vs, k);
      assert states[k].values + {vs[k]} == states[k + 1].values;
    }
    AddAllThrough(AddDow, Numerals(vs), states);
    AllValues(vs, d.values);
  }

  lemma ReadLasts(d: DowSets, vs: seq<nat>)
    requires forall k :: 0 <= k < |vs| ==> vs[k] <= 6
    ensures AddAll(AddDow, d, Lasts(vs)) == Ok(d.(last := d.last + Values(vs)))
  {
    var states := seq(|vs| + 1, k requires 0 <= k <= |vs| => d.(last := d.last + Values(vs[..k])));
    forall k | 0 <= k < |vs| ensures AddDow(states[k], Lasts(vs)[k]) == Ok(states[k + 1]) {
      ReadLast(states[k], vs[k]);
      NextValues(vs, k);
      assert states[k].last + {vs[k]} == states[k + 1].last;
    }
    AddAllThrough(AddDow, Lasts(vs), states);
    AllValues(vs, d.last);
  }

  lemma ReadNths(d: DowSets, ps: seq<(int, int)>)
    requires forall k :: 0 <= k < |ps| ==> 0 <= ps[k].0 <= 6 && 1 <= ps[k].1 <= 5
    ensures AddAll(AddDow, d, Nths(ps)) == Ok(d.(nth := d.nth + Pairs(ps)))
  {
    var states := seq(|ps| + 1, k requires 0 <= k <= |ps| => d.(nth := d.nth + Pairs(ps[..k])));
    forall k | 0 <= k < |ps| ensures AddDow(states[k], Nths(ps)[k]) == Ok(states[k + 1]) {
      ReadNth(states[k], ps[k]);
      NextPairs(ps, k);
      assert states[k].nth + {ps[k]} == states[k + 1].nth;
    }
    AddAllThrough(AddDow, Nths(ps), states);
    assert ps[..|ps|] == ps && d.nth + Pairs(ps[..0]) == d.nth;
  }

  lemma NextPairs(ps: seq<(int, int)>, k: nat)
    requires k < |ps|
    ensures Pairs(ps[..k + 1]) == Pairs(ps[..k]) + {ps[k]}
  {
    assert ps[..k + 1] == ps[..k] + [ps[k]];
  }

  lemma ReadSpans(d: DowSets, ps: seq<(int, int)>)
    requires forall k :: 0 <= k < |ps| ==> 0 <= ps[k].0 <= 7 && 0 <= ps[k].1 <= 7
    ensures AddAll(AddDow, d, Spans(ps)) == Ok(d.(last := d.last + SpanDays(ps)))
  {
    var states := seq(|ps| + 1, k requires 0 <= k <= |ps| => d.(last := d.last + SpanDays(ps[..k])));
    forall k | 0 <= k < |ps| ensures AddDow(states[k], Spans(ps)[k]) == Ok(states[k + 1]) {
      ReadSpan(states[k], ps[k].0, ps[k].1);
      NextSpan(ps, k);
      assert states[k].last + FoldSunday(Range(ps[k].0, ps[k].1, 1)) == states[k + 1].last;
    }
    AddAllThrough(AddDow, Spans(ps), states);
    assert ps[..|ps|] == ps && d.last + SpanDays(ps[..0]) == d.last;
  }

  lemma NextSpan(ps: seq<(int, int)>, k: nat)
    requires k < |ps|
    ensures SpanDays(ps[..k + 1]) == SpanDays(ps[..k]) + FoldSunday(Range(ps[k].0, ps[k].1, 1))
  {
    assert ps[..k + 1][..k] == ps[..k];
  }

  function DowItems(days: seq<nat>, last: seq<nat>, nth: seq<(int, int)>, spans: seq<(int, int)>): seq<string>
    requires Naturals(nth) && Naturals(spans)
  {
    Numerals(days) + Lasts(last) + Nths(nth) + Spans(spans)
  }

  predicate AreDowItems(days: seq<nat>, last: seq<nat>, nth: seq<(int, int)>, spans: seq<(int, int)>) {
    && (forall k :: 0 <= k < |days| ==> days[k] <= 6) && (forall k :: 0 <= k < |last| ==> last[k] <= 6)
    && (forall k :: 0 <= k < |nth| ==> 0 <= nth[k].0 <= 6 && 1 <= nth[k].1 <= 5)
    && (forall k :: 0 <= k < |spans| ==> 0 <= spans[k].0 <= 7 && 0 <= spans[k].1 <= 7)
  }

  lemma AddDowItems(days: seq<nat>, last: seq<nat>, nth: seq<(int, int)>, spans: seq<(int, int)>)
    requires AreDowItems(days, last, nth, spans)
    ensures AddAll(AddDow, DowSets({}, {}, {}), DowItems(days, last, nth, spans)) ==
            Ok(DowSets(Values(days), Values(last) + SpanDays(spans), Pairs(nth)))
  {
    var d0 := DowSets({}, {}, {});
    var d1 := DowSets(Values(days), {}, {});
    var d2 := DowSets(Values(days), Values(last), {});
    var d3 := DowSets(Values(days), Values(last), Pairs(nth));
    FromNothing(Values(days));
    FromNothing(Values(last));
    FromNothing(Pairs(nth));
    ReadWeekdays(d0, days);
    ReadLasts(d1, last);
    ReadNths(d2, nth);
    ReadSpans(d3, spans);
    FourParts(AddDow, d0, Numerals(days), d1, Lasts(last), d2, Nths(nth), d3, Spans(spans));
  }

  lemma ReadDowItems(days: seq<nat>, last: seq<nat>, nth: seq<(int, int)>, spans: seq<(int, int)>)
    requires AreDowItems(days, last, nth, spans)
    ensures DowOf(DowItems(days, last, nth, spans)) ==
            Ok(DowSets(Values(days), Values(last) + SpanDays(spans), Pairs(nth)))
  {
    AddDowItems(days, last, nth, spans);
    DowOfAdds(DowItems(days, last, nth, spans));
  }

  // ---------------------------------------------------------------------
  // A text for every column
  // ---------------------------------------------------------------------

  lemma SomeElement<T>(s: set<T>) returns (x: T)
    requires s != {}
    ensures x in s
  {
    x :| x in s;
  }

  lemma Listing(s: set<int>, lo: nat, hi: int) returns (vs: seq<nat>)
    requires Within(s, lo, hi)
    ensures Values(vs) == s && (vs == [] <==> s == {}) && forall k :: 0 <= k < |vs| ==> lo <= vs[k] <= hi
    decreases s
  {
    vs := [];
    if s != {} {
      var x := SomeElement(s);
      var rest := Listing(s - {x}, lo, hi);
      vs := [x] + rest;
      assert Values(vs) == {x} + Values(rest);
    }
  }

  lemma PairListing(s: set<(int, int)>) returns (ps: seq<(int, int)>)
    ensures Pairs(ps) == s
    decreases s
  {
    ps := [];
    if s != {} {
      var p := SomeElement(s);
      var rest := PairListing(s - {p});
      ps := [p] + rest;
      assert Pairs(ps) == {p} + Pairs(rest);
    }
  }

  lemma PlainText(s: set<int>, f: Field) returns (text: string)
    requires s != {} && Within(s, Lo(f), Hi(f)) && f != Dom && f != Dow
    ensures IsFieldText(text) && text != "*" && PlainField(text, f) == Ok(s)
  {
    var vs := Listing(s, Lo(f), Hi(f));
    HashedTextParses(vs, f);
    JoinOfItems(Numerals(vs));
    assert Numeral(vs[0])[0] in Numeral(vs[0]);
    text := Join(Numerals(vs), ',');
  }

  lemma DomItemsAreItems(days: seq<nat>, offsets: seq<nat>, nearest: seq<nat>, lastWeekday: bool)
    ensures var items := DomItems(days, offsets, nearest, lastWeekday);
            forall k :: 0 <= k < |items| ==> IsItem(items[k])
  {
    forall n: nat ensures IsItem(Numeral(n)) && IsItem(OffsetItem(n)) && IsItem(NearestItem(n)) {
    }
  }

  lemma DomText(d: DomSets) returns (text: string)
    requires ValidDom(d) && SomeDay(d)
    ensures IsFieldText(text) && DomField(text) == Ok(d)
  {
    var days := Listing(d.values, 1, 31);
    var offsets := Listing(d.offsets, 0, 30);
    var nearest := Listing(d.nearest, 1, 31);
    var items := DomItems(days, offsets, nearest, d.lastWeekday);
    ReadDomItems(days, offsets, nearest, d.lastWeekday);
    DomItemsAreItems(days, offsets, nearest, d.lastWeekday);
    JoinOfItems(items);
    text := Join(items, ',');
    FieldTextIsPlain(text);
  }

  lemma DowItemsAreItems(days: seq<nat>, last: seq<nat>, nth: seq<(int, int)>, spans: seq<(int, int)>)
    requires Naturals(nth) && Naturals(spans)
    ensures var items := DowItems(days, last, nth, spans);
            forall k :: 0 <= k < |items| ==> IsItem(items[k])
  {
    forall n: nat ensures IsItem(Numeral(n)) && IsItem(LastItem(n)) {
    }
    forall p: (int, int) | p.0 >= 0 && p.1 >= 0 ensures IsItem(NthItem(p)) && IsItem(SpanItem(p)) {
    }
  }

  /** A reversed range at the end keeps the field nonempty. */
  lemma DowText(d: DowSets) returns (text: string)
    requires ValidDow(d)
    ensures IsFieldText(text) && DowField(text) == Ok(d)
  {
    var days := Listing(d.values, 0, 6);
    var last := Listing(d.last, 0, 6);
    var nth := PairListing(d.nth);
    var spans := [(1, 0)];
    forall k | 0 <= k < |nth| ensures 0 <= nth[k].0 <= 6 && 1 <= nth[k].1 <= 5 {
      assert nth[k] in Pairs(nth);
    }
    ReadDowItems(days, last, nth, spans);
    NextSpan(spans, 0);
    ReversedIsEmpty(1, 0);
    assert spans[..1] == spans && Values(last) + SpanDays(spans) == d.last;
    var items := DowItems(days, last, nth, spans);
    DowItemsAreItems(days, last, nth, spans);
    JoinOfItems(items);
    text := Join(items, ',');
    FieldTextIsPlain(text);
  }

  lemma YearText(years: Option<set<int>>) returns (text: string)
    requires years.Some? ==> years.value != {} && Within(years.value, YEAR_FLOOR, YEAR_HORIZON)
    ensures IsFieldText(text) && YearField(text) == Ok(years)
  {
    if years.Some? {
      text := PlainText(years.value, Year);
    } else {
      text := "*";
    }
  }

  lemma BuildReads(second: string, minute: string, hour: string, dom: string, month: string, dow: string, year: string,
                   t: CronTab)
    requires PlainField(second, Second) == Ok(t.seconds) && PlainField(minute, Minute) == Ok(t.minutes)
    requires PlainField(hour, Hour) == Ok(t.hours) && PlainField(month, Month) == Ok(t.months)
    requires DomField(dom) == Ok(DomSets(t.dom, t.lastOffsets, t.nearest, t.lastWeekday))
    requires DowField(dow) == Ok(DowSets(t.dow, t.dowLast, t.dowNth)) && YearField(year) == Ok(t.years)
    ensures Build([second, minute, hour, dom, month, dow, year]) == Ok(t)
  {
  }

  lemma TimeColumns(t: CronTab) returns (second: string, minute: string, hour: string, month: string)
    requires ValidTab(t)
    ensures IsFieldText(second) && PlainField(second, Second) == Ok(t.seconds)
    ensures IsFieldText(minute) && PlainField(minute, Minute) == Ok(t.minutes)
    ensures IsFieldText(hour) && PlainField(hour, Hour) == Ok(t.hours)
    ensures IsFieldText(month) && PlainField(month, Month) == Ok(t.months)
  {
    second := PlainText(t.seconds, Second);
    minute := PlainText(t.minutes, Minute);
    hour := PlainText(t.hours, Hour);
    month := PlainText(t.months, Month);
  }

  lemma DayColumns(t: CronTab) returns (dom: string, dow: string, year: string)
    requires ValidTab(t)
    ensures IsFieldText(dom) && DomField(dom) == Ok(DomSets(t.dom, t.lastOffsets, t.nearest, t.lastWeekday))
    ensures IsFieldText(dow) && DowField(dow) == Ok(DowSets(t.dow, t.dowLast, t.dowNth))
    ensures IsFieldText(year) && YearField(year) == Ok(t.years)
  {
    dom := DomText(DomSets(t.dom, t.lastOffsets, t.nearest, t.lastWeekday));
    dow := DowText(DowSets(t.dow, t.dowLast, t.dowNth));
    year := YearText(t.years);
  }

  predicate AreTexts(c: seq<string>) {
    && |c| == 7
    && IsFieldText(c[0]) && IsFieldText(c[1]) && IsFieldText(c[2]) && IsFieldText(c[3])
    && IsFieldText(c[4]) && IsFieldText(c[5]) && IsFieldText(c[6])
  }

  /** Seven columns whose parse is the table. */
  lemma Columns(t: CronTab) returns (c: seq<string>)
    requires ValidTab(t)
    ensures AreTexts(c) && Build(c) == Ok(t)
  {
    var second, minute, hour, month := TimeColumns(t);
    var dom, dow, year := DayColumns(t);
    c := [second, minute, hour, dom, month, dow, year];
    BuildReads(second, minute, hour, dom, month, dow, year, t);
  }

  lemma TextsParse(hash: Hasher, columns: seq<string>, key: Option<string>)
    requires AreTexts(columns)
    ensures Parse(hash, Join(columns, ' '), key) == WithText(Build(columns), Join(columns, ' '))
  {
    forall k | 0 <= k < 7 ensures IsWord(columns[k]) && NoHash(columns[k]) && Lower(columns[k]) == columns[k] {
      FieldTextIsPlain(columns[k]);
    }
    WordsOfJoin(columns);
    CleanWordsStay(hash, columns, Layout(7), key);
    assert LowerAll(columns) == columns;
  }

  /** Every valid table has an expression: some text, the same under every hash
      and key, that parses to exactly this table. */
  lemma EveryTableHasAnExpression(t: CronTab) returns (text: string)
    requires ValidTab(t)
    ensures forall hash: Hasher, key :: Parse(hash, text, key) == Ok(Parsed(t, text))
  {
    var c := Columns(t);
    text := Join(c, ' ');
    forall hash: Hasher, key ensures Parse(hash, text, key) == Ok(Parsed(t, text)) {
      TextsParse(hash, c, key);
    }
  }

  /** The tables that expressions denote are exactly the valid ones. */
  lemma TablesAreTheValidOnes(hash: Hasher, t: CronTab, key: Option<string>)
    ensures ValidTab(t) <==> exists text :: Parse(hash, text, key).Ok? && Parse(hash, text, key).value.tab == t
  {
    if ValidTab(t) {
      var text := EveryTableHasAnExpression(t);
      assert Parse(hash, text, key) == Ok(Parsed(t, text));
    }
    if text :| Parse(hash, text, key).Ok? && Parse(hash, text, key).value.tab == t {
      ParsedTabIsValid(hash, text, key);
    }
  }
}
