/** ${VAR} interpolation of config values (cronstable/config.py): the linear
    scanner against the grammar `$$ | ${NAME} | ${NAME:-DEFAULT}` it replaces.
    The `:-` form is section 2.6.2 of the POSIX Shell Command Language. */
module EnvScan {
  import opened Wrappers

  /** ConfigError carries the name of the unset variable. */
  datatype Result = Ok(text: string) | Unset(name: string)

  predicate NameStart(c: char) {
    'A' <= c <= 'Z' || 'a' <= c <= 'z' || c == '_'
  }

  predicate NameChar(c: char) {
    NameStart(c) || '0' <= c <= '9'
  }

  predicate IsName(s: string) {
    |s| > 0 && NameStart(s[0]) && forall c :: c in s ==> NameChar(c)
  }

  // ---------------------------------------------------------------------
  // The grammar
  // ---------------------------------------------------------------------

  datatype Token = Dollar | Ref(name: string) | RefOr(name: string, default: string)

  predicate WellFormed(t: Token) {
    match t
    case Dollar => true
    case Ref(name) => IsName(name)
    case RefOr(name, default) => IsName(name) && '}' !in default
  }

  /** The grammar matches token t at position i of s: `$$`, `${name}` or
      `${name:-default}`, piece by piece. */
  ghost predicate TokenAt(s: string, i: int, t: Token) {
    && WellFormed(t) && 0 <= i && i + Size(t) <= |s| && s[i] == '$'
    && match t
       case Dollar => s[i + 1] == '$'
       case Ref(name) => s[i + 1] == '{' && PieceAt(s, i + 2, name) && s[i + 2 + |name|] == '}'
       case RefOr(name, default) =>
         var k := i + 2 + |name|;
         && s[i + 1] == '{' && PieceAt(s, i + 2, name) && s[k] == ':' && s[k + 1] == '-'
         && PieceAt(s, k + 2, default) && s[k + 2 + |default|] == '}'
  }

  predicate PieceAt(s: string, p: int, piece: string) {
    0 <= p && p + |piece| <= |s| && forall x :: 0 <= x < |piece| ==> s[p + x] == piece[x]
  }

  function Size(t: Token): nat {
    match t
    case Dollar => 2
    case Ref(name) => 3 + |name|
    case RefOr(name, default) => 5 + |name| + |default|
  }

  lemma PieceAppend(s: string, p: int, a: string, b: string)
    ensures PieceAt(s, p, a + b) <==> PieceAt(s, p, a) && PieceAt(s, p + |a|, b)
  {
    if PieceAt(s, p, a + b) {
      assert forall x :: 0 <= x < |a| ==> (a + b)[x] == a[x];
      assert forall x :: 0 <= x < |b| ==> s[p + (|a| + x)] == (a + b)[|a| + x] == b[x];
    }
  }

  /** _resolve_env, over the environment `env`. */
  function ResolveEnv(name: string, default: Option<string>, env: map<string, string>): Result {
    if default.Some? then
      (if name in env && env[name] != "" then Ok(env[name]) else Ok(default.value))
    else if name in env then Ok(env[name]) else Unset(name)
  }

  function Value(t: Token, env: map<string, string>): Result {
    match t
    case Dollar => Ok("$")
    case Ref(name) => ResolveEnv(name, None, env)
    case RefOr(name, default) => ResolveEnv(name, Some(default), env)
  }

  function Then(a: Result, b: Result): Result {
    if a.Unset? then a else if b.Unset? then b else Ok(a.text + b.text)
  }

  /** The grammar's match at position i, if there is one. */
  ghost function Match(s: string, i: int): (m: Option<Token>)
    ensures m.Some? ==> TokenAt(s, i, m.value)
    ensures m.None? ==> forall t :: !TokenAt(s, i, t)
  {
    if exists t :: TokenAt(s, i, t) then (var t :| TokenAt(s, i, t); Some(t)) else None
  }

  /** What the leftmost grammar makes of s from position i on: each match is
      replaced by its value, everything else is copied, and the first unset
      variable is the error. */
  ghost function Meaning(s: string, i: nat, env: map<string, string>): Result
    requires i <= |s|
    decreases |s| - i
  {
    if i == |s| then Ok("") else
      match Match(s, i)
      case Some(t) => Then(Value(t, env), Meaning(s, i + Size(t), env))
      case None => Then(Ok([s[i]]), Meaning(s, i + 1, env))
  }

  /** Where the run of name characters from `start` stops. */
  function RunEnd(s: string, start: int): (k: int)
    requires 0 <= start <= |s|
    ensures start <= k <= |s|
    decreases |s| - start
  {
    if start < |s| && NameChar(s[start]) then RunEnd(s, start + 1) else start
  }

  predicate Absent(s: string, c: char, i: int, j: int) {
    0 <= i <= j <= |s| && forall x :: i <= x < j ==> s[x] != c
  }

  /** str.find for one character: its first position at or after p, or -1. */
  function Find(s: string, c: char, p: int): (r: int)
    requires 0 <= p <= |s|
    ensures r == -1 || (p <= r < |s| && s[r] == c)
    ensures Absent(s, c, p, if r == -1 then |s| else r)
    decreases |s| - p
  {
    if p == |s| then -1
    else if s[p] == c then p
    else Find(s, c, p + 1)
  }

  lemma {:induction false} NameEndsRun(s: string, p: int, name: string)
    requires PieceAt(s, p, name) && p + |name| < |s| && !NameChar(s[p + |name|])
    requires forall c :: c in name ==> NameChar(c)
    ensures RunEnd(s, p) == p + |name|
    decreases |name|
  {
    if name != [] {
      assert s[p + 0] == name[0] && name[0] in name;
      PieceAppend(s, p, [name[0]], name[1..]);
      assert name == [name[0]] + name[1..];
      NameEndsRun(s, p + 1, name[1..]);
    }
  }

  lemma {:induction false} DefaultEndsAtBrace(s: string, p: int, default: string)
    requires PieceAt(s, p, default) && p + |default| < |s| && s[p + |default|] == '}' && '}' !in default
    ensures Find(s, '}', p) == p + |default|
    decreases |default|
  {
    if default != [] {
      assert s[p + 0] == default[0] && default[0] in default;
      PieceAppend(s, p, [default[0]], default[1..]);
      assert default == [default[0]] + default[1..];
      DefaultEndsAtBrace(s, p + 1, default[1..]);
    }
  }

  /** A braced match names exactly the run after `${`, and its default runs to
      the first closing brace. */
  lemma BracedShape(s: string, i: int, t: Token)
    requires TokenAt(s, i, t) && !t.Dollar?
    ensures var k := RunEnd(s, i + 2);
            && k == i + 2 + |t.name| && t.name == s[i + 2..k]
            && (t.RefOr? ==> Find(s, '}', k + 2) == k + 2 + |t.default| && t.default == s[k + 2..k + 2 + |t.default|])
  {
    NameEndsRun(s, i + 2, t.name);
    if t.RefOr? {
      DefaultEndsAtBrace(s, i + 4 + |t.name|, t.default);
    }
  }

  lemma TokenIsUnique(s: string, i: int, t: Token, u: Token)
    requires TokenAt(s, i, t) && TokenAt(s, i, u)
    ensures t == u
  {
    if !t.Dollar? && !u.Dollar? {
      BracedShape(s, i, t);
      BracedShape(s, i, u);
    }
  }

  lemma MatchIs(s: string, i: int, t: Token)
    requires TokenAt(s, i, t)
    ensures Match(s, i) == Some(t)
  {
    TokenIsUnique(s, i, t, Match(s, i).value);
  }

  lemma ThenAssoc(a: string, b: string, r: Result)
    ensures Then(Ok(a), Then(Ok(b), r)) == Then(Ok(a + b), r)
  {
    if r.Ok? {
      assert a + (b + r.text) == a + b + r.text;
    }
  }

  lemma {:induction false} MeaningOfPlainRun(s: string, i: nat, j: nat, env: map<string, string>)
    requires 0 <= i <= j <= |s| && Absent(s, '$', i, j)
    ensures Meaning(s, i, env) == Then(Ok(s[i..j]), Meaning(s, j, env))
    decreases j - i
  {
    if i < j {
      assert Match(s, i).None?;
      MeaningOfPlainRun(s, i + 1, j, env);
      ThenAssoc([s[i]], s[i + 1..j], Meaning(s, j, env));
      assert s[i..j] == [s[i]] + s[i + 1..j];
    }
  }

  // ---------------------------------------------------------------------
  // The scanner
  // ---------------------------------------------------------------------

  /** The braced forms read off position j by the scanner's lookahead: the name
      run, then `:-` up to a closing brace, or a closing brace. */
  lemma LookaheadDecides(s: string, j: nat, t: Token)
    requires j + 1 < |s| && s[j] == '$' && s[j + 1] == '{'
    ensures var k := RunEnd(s, j + 2);
            TokenAt(s, j, t) <==>
            && j + 2 < |s| && NameStart(s[j + 2]) && k < |s|
            && ((t == Ref(s[j + 2..k]) && s[k] == '}') ||
                (k + 1 < |s| && s[k] == ':' && s[k + 1] == '-' &&
                 var close := Find(s, '}', k + 2); close != -1 && t == RefOr(s[j + 2..k], s[k + 2..close])))
  {
    if TokenAt(s, j, t) {
      BracedShape(s, j, t);
      assert s[j + 2 + 0] == t.name[0];
    } else {
      RunIsName(s, j + 2);
    }
  }

  lemma {:induction false} RunIsName(s: string, start: int)
    requires 0 <= start <= |s|
    ensures forall x :: start <= x < RunEnd(s, start) ==> NameChar(s[x])
    decreases |s| - start
  {
    if start < |s| && NameChar(s[start]) {
      RunIsName(s, start + 1);
    }
  }

  /** The lookahead at a `${`: the token there, if any, and whether the scan for
      its closing brace proved that no brace is left ahead. */
  method ReadBraced(raw: string, j: nat) returns (t: Option<Token>, spent: bool)
    requires j + 1 < |raw| && raw[j] == '$' && raw[j + 1] == '{'
    ensures t == Match(raw, j)
    ensures spent ==> Absent(raw, '}', j, |raw|)
  {
    var k := j + 2;
    t, spent := None, false;
    if k < |raw| && NameStart(raw[k]) {
      k := k + 1;
      while k < |raw| && NameChar(raw[k])
        invariant j + 2 < k <= |raw| && RunEnd(raw, j + 2) == RunEnd(raw, k)
      {
        k := k + 1;
      }
      if k + 2 <= |raw| && raw[k] == ':' && raw[k + 1] == '-' {
        var close := Find(raw, '}', k + 2);
        if close == -1 {
          RunIsName(raw, j + 2);
          spent := true;
        } else {
          t := Some(RefOr(raw[j + 2..k], raw[k + 2..close]));
        }
      } else if k < |raw| && raw[k] == '}' {
        t := Some(Ref(raw[j + 2..k]));
      }
    }
    if t.Some? {
      LookaheadDecides(raw, j, t.value);
      MatchIs(raw, j, t.value);
    } else if Match(raw, j).Some? {
      LookaheadDecides(raw, j, Match(raw, j).value);
    }
  }

  lemma NoBraceNoToken(s: string, j: int, t: Token)
    requires TokenAt(s, j, t) && !t.Dollar?
    ensures !Absent(s, '}', j, |s|)
  {
    assert s[j + Size(t) - 1] == '}';
  }

  lemma AfterRun(raw: string, env: map<string, string>, out: string, i: nat, j: nat)
    requires Absent(raw, '$', i, j)
    ensures Then(Ok(out), Meaning(raw, i, env)) == Then(Ok(out + raw[i..j]), Meaning(raw, j, env))
  {
    MeaningOfPlainRun(raw, i, j, env);
    ThenAssoc(out, raw[i..j], Meaning(raw, j, env));
  }

  lemma AfterToken(raw: string, env: map<string, string>, out: string, j: nat, t: Token)
    requires TokenAt(raw, j, t)
    ensures var v := Value(t, env);
            Then(Ok(out), Meaning(raw, j, env)) ==
            if v.Unset? then v else Then(Ok(out + v.text), Meaning(raw, j + Size(t), env))
  {
    MatchIs(raw, j, t);
    if Value(t, env).Ok? {
      ThenAssoc(out, Value(t, env).text, Meaning(raw, j + Size(t), env));
    }
  }

  lemma AfterOther(raw: string, env: map<string, string>, out: string, j: nat)
    requires j < |raw| && Match(raw, j).None?
    ensures Then(Ok(out), Meaning(raw, j, env)) == Then(Ok(out + [raw[j]]), Meaning(raw, j + 1, env))
  {
    ThenAssoc(out, [raw[j]], Meaning(raw, j + 1, env));
  }

  /** One `$` of the scan: what it appends to the output, where the cursor goes
      next, and whether braced forms are still possible. */
  method AtDollar(raw: string, env: map<string, string>, out: string, j: nat, bracesPossible: bool)
    returns (r: Result, next: nat, possible: bool)
    requires j < |raw| && raw[j] == '$' && (!bracesPossible ==> Absent(raw, '}', j, |raw|))
    ensures j < next <= |raw| && (!possible ==> Absent(raw, '}', next, |raw|))
    ensures Then(Ok(out), Meaning(raw, j, env)) == if r.Unset? then r else Then(r, Meaning(raw, next, env))
  {
    possible := bracesPossible;
    if j + 1 < |raw| && raw[j + 1] == '$' {
      AfterToken(raw, env, out, j, Dollar);
      return Ok(out + "$"), j + 2, possible;
    }
    if bracesPossible && j + 1 < |raw| && raw[j + 1] == '{' {
      var t, spent := ReadBraced(raw, j);
      if t.Some? {
        AfterToken(raw, env, out, j, t.value);
        var value := Value(t.value, env);
        return (if value.Unset? then value else Ok(out + value.text)), j + Size(t.value), possible;
      }
      possible := !spent;
    } else {
      NoTokenAhead(raw, j, bracesPossible);
    }
    AfterOther(raw, env, out, j);
    return Ok(out + "$"), j + 1, possible;
  }

  /** _interpolate_env_value: one left-to-right pass, equal to the grammar. */
  method Interpolate(raw: string, env: map<string, string>) returns (r: Result)
    ensures r == Meaning(raw, 0, env)
  {
    if '$' !in raw {
      assert Absent(raw, '$', 0, |raw|);
      MeaningOfPlainRun(raw, 0, |raw|, env);
      assert raw[0..|raw|] == raw;
      return Ok(raw);
    }
    ghost var whole := Meaning(raw, 0, env);
    var i, bracesPossible := 0, true;
    r := Ok("");
    while i < |raw|
      invariant 0 <= i <= |raw| && r.Ok? && whole == Then(r, Meaning(raw, i, env))
      invariant !bracesPossible ==> Absent(raw, '}', i, |raw|)
    {
      var j := Find(raw, '$', i);
      AfterRun(raw, env, r.text, i, if j == -1 then |raw| else j);
      if j == -1 {
        return Ok(r.text + raw[i..|raw|]);
      }
      r, i, bracesPossible := AtDollar(raw, env, r.text + raw[i..j], j, bracesPossible);
      if r.Unset? {
        return;
      }
    }
  }

  lemma NoTokenAhead(raw: string, j: nat, bracesPossible: bool)
    requires j < |raw| && (j + 1 < |raw| ==> raw[j + 1] != '$')
    requires !bracesPossible ==> Absent(raw, '}', j, |raw|)
    requires bracesPossible ==> j + 1 == |raw| || raw[j + 1] != '{'
    ensures Match(raw, j).None?
  {
    var m := Match(raw, j);
    if m.Some? && !m.value.Dollar? {
      NoBraceNoToken(raw, j, m.value);
    }
  }

  // ---------------------------------------------------------------------
  // The escape
  // ---------------------------------------------------------------------

  /** s with every dollar sign doubled. */
  function Escape(s: string): string {
    if s == [] then [] else (if s[0] == '$' then "$$" else [s[0]]) + Escape(s[1..])
  }

  lemma {:induction false} EscapedFrom(p: string, s: string, env: map<string, string>)
    ensures Meaning(p + Escape(s), |p|, env) == Ok(s)
    decreases |s|
  {
    if s != [] {
      var head := if s[0] == '$' then "$$" else [s[0]];
      var whole := p + Escape(s);
      assert whole == (p + head) + Escape(s[1..]);
      EscapedFrom(p + head, s[1..], env);
      assert s == [s[0]] + s[1..];
      if s[0] == '$' {
        assert whole[|p|] == '$' && whole[|p| + 1] == '$';
        MatchIs(whole, |p|, Dollar);
      } else {
        assert whole[|p|] == s[0];
      }
    }
  }

  /** Doubling every dollar makes interpolation return the text unchanged, in
      every environment, and never errors. */
  lemma EscapeRoundTrips(s: string, env: map<string, string>)
    ensures Meaning(Escape(s), 0, env) == Ok(s)
  {
    EscapedFrom("", s, env);
    assert "" + Escape(s) == Escape(s);
  }
}
