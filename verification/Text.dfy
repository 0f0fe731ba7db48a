/** The string operations the cron parser relies on (str.split, str.join,
    str.lower, int() and str() on ASCII text) and their round trips. */
module Text {
  import opened Wrappers

  // ---------------------------------------------------------------------
  // Splitting and joining
  // ---------------------------------------------------------------------

  /** x put at the front of the first part. */
  function Prepend(x: char, parts: seq<string>): seq<string>
    requires |parts| >= 1
  {
    [[x] + parts[0]] + parts[1..]
  }

  /** s.split(c). */
  function Split(s: string, c: char): (r: seq<string>)
    ensures |r| >= 1
  {
    if s == [] then [""]
    else if s[0] == c then [""] + Split(s[1..], c)
    else Prepend(s[0], Split(s[1..], c))
  }

  /** c.join(parts). */
  function Join(parts: seq<string>, c: char): string
    requires |parts| >= 1
  {
    if |parts| == 1 then parts[0] else parts[0] + [c] + Join(parts[1..], c)
  }

  lemma {:induction false} SplitPlain(s: string, c: char)
    requires c !in s
    ensures Split(s, c) == [s]
    decreases |s|
  {
    if s != [] {
      SplitPlain(s[1..], c);
      assert s == [s[0]] + s[1..];
    }
  }

  lemma PrependConcat(x: char, a: seq<string>, b: seq<string>)
    requires |a| >= 1
    ensures Prepend(x, a + b) == Prepend(x, a) + b
  {
    assert (a + b)[0] == a[0] && (a + b)[1..] == a[1..] + b;
  }

  lemma {:induction false} SplitConcat(a: string, b: string, c: char)
    ensures Split(a + [c] + b, c) == Split(a, c) + Split(b, c)
    decreases |a|
  {
    var whole := a + [c] + b;
    if a == [] {
      assert whole[0] == c && whole[1..] == b;
    } else {
      SplitConcat(a[1..], b, c);
      assert whole[0] == a[0] && whole[1..] == a[1..] + [c] + b;
      PrependConcat(a[0], Split(a[1..], c), Split(b, c));
      assert [""] + (Split(a[1..], c) + Split(b, c)) == [""] + Split(a[1..], c) + Split(b, c);
    }
  }

  lemma JoinPrepend(x: char, parts: seq<string>, c: char)
    requires |parts| >= 1
    ensures Join(Prepend(x, parts), c) == [x] + Join(parts, c)
  {
    var r := Prepend(x, parts);
    assert r[0] == [x] + parts[0] && r[1..] == parts[1..];
    if |parts| > 1 {
      assert ([x] + parts[0]) + [c] + Join(parts[1..], c) == [x] + (parts[0] + [c] + Join(parts[1..], c));
    }
  }

  lemma {:induction false} JoinOfSplit(s: string, c: char)
    ensures Join(Split(s, c), c) == s
    decreases |s|
  {
    if s != [] {
      JoinOfSplit(s[1..], c);
      assert s == [s[0]] + s[1..];
      if s[0] == c {
        assert Split(s, c)[1..] == Split(s[1..], c);
      } else {
        JoinPrepend(s[0], Split(s[1..], c), c);
      }
    }
  }

  /** Parts hold no separator, and only characters of the text. */
  lemma {:induction false} SplitParts(s: string, c: char)
    ensures forall p :: p in Split(s, c) ==> c !in p
    ensures forall p, x :: p in Split(s, c) && x in p ==> x in s
    decreases |s|
  {
    if s != [] {
      SplitParts(s[1..], c);
      var rest, r := Split(s[1..], c), Split(s, c);
      assert forall x :: x in s[1..] ==> x in s;
      assert rest[0] in rest && s[0] in s;
      assert forall p :: p in r ==> p == r[0] || p in rest;
    }
  }

  predicate IsSpace(c: char) {
    c == ' ' || ('\t' <= c <= '\r') || ('\U{1c}' <= c <= '\U{1f}')
  }

  predicate IsWord(s: string) {
    s != [] && forall c :: c in s ==> !IsSpace(c)
  }

  function WordLength(s: string): (n: nat)
    ensures n <= |s| && (s != [] && !IsSpace(s[0]) ==> n > 0)
    ensures forall k :: 0 <= k < n ==> !IsSpace(s[k])
  {
    if s == [] || IsSpace(s[0]) then 0 else 1 + WordLength(s[1..])
  }

  /** s.split(): the maximal runs of non-space characters. */
  function Words(s: string): (r: seq<string>)
    ensures forall w :: w in r ==> IsWord(w)
    decreases |s|
  {
    if s == [] then []
    else if IsSpace(s[0]) then Words(s[1..])
    else [s[..WordLength(s)]] + Words(s[WordLength(s)..])
  }

  lemma {:induction false} WordThenSpace(w: string, rest: string)
    requires IsWord(w) && (rest == [] || IsSpace(rest[0]))
    ensures WordLength(w + rest) == |w|
    decreases |w|
  {
    assert (w + rest)[0] == w[0] && w[0] in w;
    assert (w + rest)[1..] == w[1..] + rest;
    if |w| > 1 {
      WordThenSpace(w[1..], rest);
    } else {
      assert w[1..] + rest == rest;
    }
  }

  /** Joining words with single spaces and splitting again gives them back. */
  lemma {:induction false} WordsOfJoin(ws: seq<string>)
    requires |ws| >= 1 && forall w :: w in ws ==> IsWord(w)
    ensures Words(Join(ws, ' ')) == ws
    decreases |ws|
  {
    var w := ws[0];
    if |ws| == 1 {
      WordThenSpace(w, "");
      assert w + "" == w && w[0] in w;
      assert w[|w|..] == "";
    } else {
      var rest := Join(ws[1..], ' ');
      var s := Join(ws, ' ');
      assert s == w + ([' '] + rest);
      WordThenSpace(w, [' '] + rest);
      WordsOfJoin(ws[1..]);
      assert s[|w|..] == [' '] + rest && s[..|w|] == w;
      assert ([' '] + rest)[1..] == rest;
      assert s[0] == w[0] && w[0] in w;
    }
  }

  // ---------------------------------------------------------------------
  // Case and numerals
  // ---------------------------------------------------------------------

  function LowerChar(c: char): char {
    if 'A' <= c <= 'Z' then (c as int + 32) as char else c
  }

  function Lower(s: string): (r: string)
    ensures |r| == |s| && forall k :: 0 <= k < |s| ==> r[k] == LowerChar(s[k])
  {
    if s == [] then [] else [LowerChar(s[0])] + Lower(s[1..])
  }

  lemma LowerTwice(s: string)
    ensures Lower(Lower(s)) == Lower(s)
  {
  }

  predicate IsDigit(c: char) {
    '0' <= c <= '9'
  }

  /** s.isdigit(). */
  predicate AllDigits(s: string) {
    s != [] && forall c :: c in s ==> IsDigit(c)
  }

  function DigitValue(c: char): (n: nat)
    requires IsDigit(c)
    ensures n < 10
  {
    c as int - '0' as int
  }

  /** int(s, 10) of a string of digits. */
  function Number(s: string): nat
    requires AllDigits(s)
  {
    assert s[|s| - 1] in s;
    if |s| == 1 then DigitValue(s[0])
    else
      assert forall c :: c in s[..|s| - 1] ==> c in s;
      10 * Number(s[..|s| - 1]) + DigitValue(s[|s| - 1])
  }

  /** Underscores may separate digits, singly, as int() allows. */
  predicate Grouped(s: string) {
    s != [] && IsDigit(s[0]) && IsDigit(s[|s| - 1]) &&
    forall k :: 0 < k < |s| ==> IsDigit(s[k]) || (s[k] == '_' && s[k - 1] != '_')
  }

  function DropUnderscores(s: string): string {
    if s == [] then [] else (if s[0] == '_' then [] else [s[0]]) + DropUnderscores(s[1..])
  }

  /** int(s, 10), or None where Python raises ValueError. */
  function ParseInt(s: string): Option<int> {
    var body := if s != [] && (s[0] == '+' || s[0] == '-') then s[1..] else s;
    var digits := DropUnderscores(body);
    if !Grouped(body) || !AllDigits(digits) then None
    else
      var n: int := Number(digits);
      Some(if s[0] == '-' then -n else n)
  }

  /** str(n). */
  function Numeral(n: nat): (s: string)
    ensures AllDigits(s)
  {
    var digit := ['0' + (n % 10) as char];
    if n < 10 then digit else Numeral(n / 10) + digit
  }

  lemma {:induction false} NumberOfNumeral(n: nat)
    ensures Number(Numeral(n)) == n
    decreases n
  {
    if n >= 10 {
      NumberOfNumeral(n / 10);
      var s := Numeral(n);
      assert s[..|s| - 1] == Numeral(n / 10) && s[|s| - 1] == '0' + (n % 10) as char;
    }
  }

  lemma {:induction false} NothingToDrop(s: string)
    requires forall c :: c in s ==> IsDigit(c)
    ensures DropUnderscores(s) == s
    decreases |s|
  {
    if s != [] {
      assert s[0] in s && forall c :: c in s[1..] ==> c in s;
      NothingToDrop(s[1..]);
      assert s == [s[0]] + s[1..];
    }
  }

  lemma ParseIntOfDigits(s: string)
    requires AllDigits(s)
    ensures ParseInt(s) == Some(Number(s))
  {
    assert forall k :: 0 <= k < |s| ==> s[k] in s;
    NothingToDrop(s);
  }

  /** Printing a number and reading it back. */
  lemma ParseIntOfNumeral(n: nat)
    ensures ParseInt(Numeral(n)) == Some(n)
  {
    ParseIntOfDigits(Numeral(n));
    NumberOfNumeral(n);
  }
}
