/** Python string primitives the modelled code relies on: `str.isspace`
    (which also decides regex `\s`, `str.strip()` and `str.split()`),
    stripping, prefix and substring tests, whitespace tokenisation and
    decimal formatting of counters, and `min`. */
module PyText {

  /** Python's `str.isspace` on one character (the characters CPython's
      `Py_UNICODE_ISSPACE` accepts). */
  predicate IsSpace(c: char)
  {
    ('\t' <= c <= '\r') || ('\U{1C}' <= c <= '\U{1F}') || c == ' ' ||
    c == '\U{85}' || c == '\U{A0}' || c == '\U{1680}' ||
    ('\U{2000}' <= c <= '\U{200A}') || c == '\U{2028}' || c == '\U{2029}' ||
    c == '\U{202F}' || c == '\U{205F}' || c == '\U{3000}'
  }

  /** Python's `min` on two integers. */
  function Min(a: int, b: int): (m: int)
    ensures m <= a && m <= b && (m == a || m == b)
  {
    if a <= b then a else b
  }

  predicate NotSpace(c: char)
  {
    !IsSpace(c)
  }

  /** Every character of `s` satisfies `p`. */
  predicate All(s: string, p: char -> bool)
  {
    forall i :: 0 <= i < |s| ==> p(s[i])
  }

  /** `t.strip()` is empty: the text is blank. */
  predicate IsBlank(s: string)
  {
    forall i :: 0 <= i < |s| ==> IsSpace(s[i])
  }

  /** Length of the longest prefix of `s` whose characters satisfy `p`. */
  function LeadCount(s: string, p: char -> bool): (n: nat)
    ensures n <= |s|
    ensures forall i :: 0 <= i < n ==> p(s[i])
    ensures n < |s| ==> !p(s[n])
    decreases |s|
  {
    if |s| > 0 && p(s[0]) then 1 + LeadCount(s[1..], p) else 0
  }

  /** Length of the longest suffix of `s` whose characters satisfy `p`. */
  function TrailCount(s: string, p: char -> bool): (n: nat)
    ensures n <= |s|
    ensures forall i :: |s| - n <= i < |s| ==> p(s[i])
    ensures n < |s| ==> !p(s[|s| - 1 - n])
    decreases |s|
  {
    if |s| > 0 && p(s[|s| - 1]) then 1 + TrailCount(s[..|s| - 1], p) else 0
  }

  /** Python's `s.strip(chars)`, with the set of stripped characters given
      as the predicate `p`: the result neither starts nor ends with a
      stripped character, and is empty exactly when every character is. */
  function StripWhere(s: string, p: char -> bool): (r: string)
    ensures |r| <= |s|
    ensures r == [] <==> All(s, p)
    ensures r != [] ==> !p(r[0]) && !p(r[|r| - 1])
  {
    var a := LeadCount(s, p);
    var rest := s[a..];
    var b := TrailCount(rest, p);
    var r := rest[..|rest| - b];
    StripFacts(s, p, a, rest, b, r);
    r
  }

  /** What is stripped: `s` is `pre + StripWhere(s, p) + post` with `pre`
      and `post` made of stripped characters. */
  lemma StripWhereDecomposes(s: string, p: char -> bool)
    ensures exists pre, post :: s == pre + StripWhere(s, p) + post && All(pre, p) && All(post, p)
  {
    var a := LeadCount(s, p);
    var rest := s[a..];
    var b := TrailCount(rest, p);
    var r := rest[..|rest| - b];
    Decompose(s, a, rest, b, r);
    PrefixAll(s, p, a);
    SuffixAll(rest, p, b);
    assert StripWhere(s, p) == r;
    var pre, post := s[..a], rest[|rest| - b..];
    assert s == pre + r + post && All(pre, p) && All(post, p);
  }

  lemma StripWhereNoop(s: string, p: char -> bool)
    requires s == [] || (!p(s[0]) && !p(s[|s| - 1]))
    ensures StripWhere(s, p) == s
  {
    if s != [] {
      assert LeadCount(s, p) == 0;
      assert s[0..] == s;
      assert TrailCount(s, p) == 0;
      assert s[..|s|] == s;
    }
  }

  lemma StripFacts(s: string, p: char -> bool, a: nat, rest: string, b: nat, r: string)
    requires a == LeadCount(s, p) && rest == s[a..] && b == TrailCount(rest, p) && r == rest[..|rest| - b]
    ensures r == [] <==> All(s, p)
    ensures r != [] ==> !p(r[0]) && !p(r[|r| - 1])
  {
    StripEmptyIff(s, p, a, rest, b, r);
    StripEnds(s, p, a, rest, b, r);
  }

  lemma Decompose(s: string, a: nat, rest: string, b: nat, r: string)
    requires a <= |s| && rest == s[a..] && b <= |rest| && r == rest[..|rest| - b]
    ensures s == s[..a] + r + rest[|rest| - b..]
  {
    assert s == s[..a] + rest;
    assert rest == r + rest[|rest| - b..];
  }

  lemma StripEmptyIff(s: string, p: char -> bool, a: nat, rest: string, b: nat, r: string)
    requires a == LeadCount(s, p) && rest == s[a..] && b == TrailCount(rest, p) && r == rest[..|rest| - b]
    ensures r == [] <==> All(s, p)
  {
    LeadStopsTrail(s, p, a, rest, b);
    if All(s, p) {
      assert a == |s|;
    }
    if r == [] {
      assert |rest| == b;
      assert a == |s|;
    }
  }

  /** When the leading run stops before the end, the character it stops at
      also stops the trailing run of the rest. */
  lemma LeadStopsTrail(s: string, p: char -> bool, a: nat, rest: string, b: nat)
    requires a == LeadCount(s, p) && rest == s[a..] && b == TrailCount(rest, p)
    ensures a < |s| ==> b < |rest|
  {
    if a < |s| {
      assert rest[0] == s[a];
    }
  }

  lemma StripEnds(s: string, p: char -> bool, a: nat, rest: string, b: nat, r: string)
    requires a == LeadCount(s, p) && rest == s[a..] && b == TrailCount(rest, p) && r == rest[..|rest| - b]
    ensures r != [] ==> !p(r[0]) && !p(r[|r| - 1])
  {
    if r != [] {
      assert r[0] == s[a];
      assert r[|r| - 1] == rest[|rest| - 1 - b];
    }
  }

  lemma PrefixAll(s: string, p: char -> bool, a: nat)
    requires a <= |s| && forall i :: 0 <= i < a ==> p(s[i])
    ensures All(s[..a], p)
  {
    var pre := s[..a];
    forall i | 0 <= i < |pre| ensures p(pre[i]) { assert pre[i] == s[i]; }
  }

  lemma SuffixAll(s: string, p: char -> bool, b: nat)
    requires b <= |s| && forall i :: |s| - b <= i < |s| ==> p(s[i])
    ensures All(s[|s| - b..], p)
  {
    var post := s[|s| - b..];
    forall i | 0 <= i < |post| ensures p(post[i]) { assert post[i] == s[|s| - b + i]; }
  }

  /** Python's `s.strip()`. */
  function Strip(s: string): (r: string)
    ensures r == [] <==> IsBlank(s)
    ensures r != [] ==> !IsSpace(r[0]) && !IsSpace(r[|r| - 1])
  {
    StripWhere(s, IsSpace)
  }

  /** Stripping a string that starts with `q`, where `q` neither starts nor
      ends with whitespace, leaves `q` at its front. */
  lemma StripKeepsPrefix(s: string, q: string)
    requires StartsWith(s, q) && q != [] && !IsSpace(q[0]) && !IsSpace(q[|q| - 1])
    ensures StartsWith(Strip(s), q)
  {
    assert s[0] == q[0];
    StripNoLead(s, IsSpace);
    var b := TrailCount(s, IsSpace);
    TrailStopsAt(s, IsSpace, |q| - 1);
    var r := s[..|s| - b];
    assert Strip(s) == r;
    assert r[..|q|] == s[..|q|];
  }

  /** A character outside the predicate bounds the trailing run. */
  lemma TrailStopsAt(s: string, p: char -> bool, k: nat)
    requires k < |s| && !p(s[k])
    ensures TrailCount(s, p) <= |s| - 1 - k
  {
  }

  /** Stripping removes exactly the blank text around a middle part that
      neither starts nor ends with whitespace. */
  lemma StripAround(pre: string, m: string, post: string)
    requires IsBlank(pre) && IsBlank(post)
    requires m != [] && !IsSpace(m[0]) && !IsSpace(m[|m| - 1])
    ensures Strip(pre + m + post) == m
  {
    var s := pre + m + post;
    var a := LeadCount(s, IsSpace);
    assert s[|pre|] == m[0];
    assert forall i :: 0 <= i < |pre| ==> s[i] == pre[i];
    assert a == |pre|;
    var rest := s[a..];
    assert rest == m + post;
    var b := TrailCount(rest, IsSpace);
    assert rest[|m| - 1] == m[|m| - 1];
    assert forall i :: |m| <= i < |rest| ==> rest[i] == post[i - |m|];
    assert b == |post|;
    assert rest[..|rest| - b] == m;
  }

  /** Python's `str.strip` on whitespace that is not ASCII: the no-break
      space and the ideographic space go. */
  lemma StripWideSpaces()
    ensures Strip("\U{A0}k\U{3000}") == "k"
  {
    var pre, m, post := "\U{A0}", "k", "\U{3000}";
    assert Strip(pre + m + post) == m by {
      assert IsBlank(pre) by { assert pre[0] == '\U{A0}'; }
      assert IsBlank(post) by { assert post[0] == '\U{3000}'; }
      StripAround(pre, m, post);
    }
    assert "\U{A0}k\U{3000}" == pre + m + post;
  }

  /** The zero-width space is not whitespace to `str.strip`; the
      information separator U+001C is. */
  lemma StripKeepsZeroWidthSpace()
    ensures Strip("\U{200B}x\U{1C}") == "\U{200B}x"
  {
    var m, post := "\U{200B}x", "\U{1C}";
    assert Strip([] + m + post) == m by {
      assert IsBlank(post) by { assert post[0] == '\U{1C}'; }
      assert m[0] == '\U{200B}' && m[1] == 'x';
      StripAround([], m, post);
    }
    assert "\U{200B}x\U{1C}" == [] + m + post;
  }

  /** Nothing to strip at the front: stripping only cuts the end. */
  lemma StripNoLead(s: string, p: char -> bool)
    requires s != [] && !p(s[0])
    ensures StripWhere(s, p) == s[..|s| - TrailCount(s, p)]
  {
    var rest := s[LeadCount(s, p)..];
    assert StripWhere(s, p) == rest[..|rest| - TrailCount(rest, p)];
    assert LeadCount(s, p) == 0;
    assert rest == s;
  }

  predicate StartsWith(s: string, prefix: string)
  {
    |prefix| <= |s| && s[..|prefix|] == prefix
  }

  predicate EndsWith(s: string, suffix: string)
  {
    |suffix| <= |s| && s[|s| - |suffix|..] == suffix
  }

  /** Python's `sub in s`. */
  predicate Contains(s: string, sub: string)
  {
    exists i :: 0 <= i <= |s| - |sub| && OccursAt(s, sub, i)
  }

  predicate OccursAt(s: string, sub: string, i: int)
  {
    0 <= i <= |s| - |sub| && s[i..i + |sub|] == sub
  }

  // ---------------------------------------------------------------------
  // str.split() with no arguments

  /** Python's `s.split()`: the maximal runs of non-whitespace characters of
      `s`, in order. */
  function Split(s: string): (tokens: seq<string>)
    ensures forall k :: 0 <= k < |tokens| ==> tokens[k] != [] && All(tokens[k], NotSpace)
    decreases |s|
  {
    if s == [] then []
    else if IsSpace(s[0]) then Split(s[1..])
    else
      var n := LeadCount(s, NotSpace);
      [s[..n]] + Split(s[n..])
  }

  /** All characters of the strings in `ts`, in order. */
  function Concat(ts: seq<string>): string
  {
    if ts == [] then [] else ts[0] + Concat(ts[1..])
  }

  /** The non-whitespace characters of `s`, in order. */
  function NonSpaceChars(s: string): string
  {
    if s == [] then [] else (if IsSpace(s[0]) then [] else [s[0]]) + NonSpaceChars(s[1..])
  }

  /** `" ".join(ts)`. */
  function JoinWithSpace(ts: seq<string>): string
  {
    if ts == [] then [] else if |ts| == 1 then ts[0] else ts[0] + " " + JoinWithSpace(ts[1..])
  }

  lemma {:induction false} NonSpaceCharsAppend(a: string, b: string)
    ensures NonSpaceChars(a + b) == NonSpaceChars(a) + NonSpaceChars(b)
    decreases |a|
  {
    if a != [] {
      assert (a + b)[1..] == a[1..] + b;
      NonSpaceCharsAppend(a[1..], b);
    } else {
      assert a + b == b;
    }
  }

  lemma {:induction false} NonSpaceCharsOfRun(t: string)
    requires All(t, NotSpace)
    ensures NonSpaceChars(t) == t
    decreases |t|
  {
    if t != [] {
      assert All(t[1..], NotSpace) by {
        forall i | 0 <= i < |t[1..]| ensures NotSpace(t[1..][i]) { assert t[1..][i] == t[i + 1]; }
      }
      NonSpaceCharsOfRun(t[1..]);
      assert NotSpace(t[0]);
      assert t == [t[0]] + t[1..];
    }
  }

  lemma {:induction false} ConcatAppend(a: seq<string>, b: seq<string>)
    ensures Concat(a + b) == Concat(a) + Concat(b)
    decreases |a|
  {
    if a != [] {
      assert (a + b)[1..] == a[1..] + b;
      ConcatAppend(a[1..], b);
    } else {
      assert a + b == b;
    }
  }

  /** Tokenising loses exactly the whitespace: the tokens spell out the
      non-whitespace characters of the text, in order. */
  lemma {:induction false} SplitKeepsNonSpace(s: string)
    ensures Concat(Split(s)) == NonSpaceChars(s)
    decreases |s|
  {
    if s == [] {
    } else if IsSpace(s[0]) {
      SplitKeepsNonSpace(s[1..]);
    } else {
      var n := LeadCount(s, NotSpace);
      SplitKeepsNonSpace(s[n..]);
      assert s == s[..n] + s[n..];
      NonSpaceCharsAppend(s[..n], s[n..]);
      assert All(s[..n], NotSpace);
      NonSpaceCharsOfRun(s[..n]);
      ConcatAppend([s[..n]], Split(s[n..]));
      assert Concat([s[..n]]) == s[..n];
    }
  }

  lemma {:induction false} LeadCountAppend(a: string, b: string, p: char -> bool)
    ensures LeadCount(a, p) < |a| ==> LeadCount(a + b, p) == LeadCount(a, p)
    ensures LeadCount(a, p) == |a| && (b == [] || !p(b[0])) ==> LeadCount(a + b, p) == |a|
    decreases |a|
  {
    if a != [] {
      assert (a + b)[0] == a[0];
      assert (a + b)[1..] == a[1..] + b;
      LeadCountAppend(a[1..], b, p);
    } else {
      assert a + b == b;
    }
  }

  /** A whitespace character separates tokens: splitting around it splits
      each side on its own. */
  lemma SplitAtSpace(a: string, w: char, b: string)
    requires IsSpace(w)
    ensures Split(a + [w] + b) == Split(a) + Split(b)
  {
    var r := [w] + b;
    assert a + [w] + b == a + r;
    assert r[1..] == b;
    SplitBeforeSpace(a, r);
  }

  /** Text ending where whitespace (or nothing) follows splits on its own. */
  lemma {:induction false} SplitBeforeSpace(a: string, r: string)
    requires r == [] || IsSpace(r[0])
    ensures Split(a + r) == Split(a) + Split(r)
    decreases |a|
  {
    if a == [] {
      assert a + r == r;
    } else if IsSpace(a[0]) {
      assert (a + r)[1..] == a[1..] + r;
      SplitBeforeSpace(a[1..], r);
    } else {
      var n := LeadCount(a, NotSpace);
      var t, u := a[..n], a[n..];
      assert All(t, NotSpace);
      assert a == t + u;
      SplitBeforeSpace(u, r);
      SplitRunBeforeSpace(t, u, r);
    }
  }

  /** The step of `SplitBeforeSpace` past the leading token `t`. */
  lemma SplitRunBeforeSpace(t: string, u: string, r: string)
    requires t != [] && All(t, NotSpace)
    requires u == [] || IsSpace(u[0])
    requires r == [] || IsSpace(r[0])
    requires Split(u + r) == Split(u) + Split(r)
    ensures Split(t + u + r) == Split(t + u) + Split(r)
  {
    assert u + r == [] || IsSpace((u + r)[0]);
    calc {
      Split(t + u + r);
      { AppendAssoc(t, u, r); }
      Split(t + (u + r));
      { SplitRunThen(t, u + r); }
      [t] + Split(u + r);
      [t] + (Split(u) + Split(r));
      { AppendAssoc([t], Split(u), Split(r)); }
      [t] + Split(u) + Split(r);
      { SplitRunThen(t, u); }
      Split(t + u) + Split(r);
    }
  }

  lemma AppendAssoc<T>(x: seq<T>, y: seq<T>, z: seq<T>)
    ensures x + y + z == x + (y + z)
  {
  }

  /** A token followed by nothing or by whitespace is split off whole. */
  lemma SplitRunThen(t: string, r: string)
    requires t != [] && All(t, NotSpace)
    requires r == [] || IsSpace(r[0])
    ensures Split(t + r) == [t] + Split(r)
  {
    var s := t + r;
    assert LeadCount(t, NotSpace) == |t| by { LeadRun(t); }
    assert LeadCount(s, NotSpace) == |t| by { LeadCountAppend(t, r, NotSpace); }
    assert s[..|t|] == t;
    assert s[|t|..] == r;
  }

  /** The leading run of a whitespace-free text is all of it. */
  lemma LeadRun(t: string)
    requires All(t, NotSpace)
    ensures LeadCount(t, NotSpace) == |t|
  {
  }

  /** A non-empty run without whitespace is a single token. */
  lemma SplitRun(t: string)
    requires t != [] && All(t, NotSpace)
    ensures Split(t) == [t]
  {
    assert LeadCount(t, NotSpace) == |t|;
    assert t[..|t|] == t;
    assert t[|t|..] == [];
  }

  /** Round trip: joining whitespace-free, non-empty tokens with single
      spaces and splitting again gives the tokens back. */
  lemma {:induction false} SplitJoinRoundTrip(ts: seq<string>)
    requires forall k :: 0 <= k < |ts| ==> ts[k] != [] && All(ts[k], NotSpace)
    ensures Split(JoinWithSpace(ts)) == ts
    decreases |ts|
  {
    if ts == [] {
    } else if |ts| == 1 {
      SplitRun(ts[0]);
    } else {
      SplitJoinRoundTrip(ts[1..]);
      SplitAtSpace(ts[0], ' ', JoinWithSpace(ts[1..]));
      assert ts[0] + " " + JoinWithSpace(ts[1..]) == ts[0] + [' '] + JoinWithSpace(ts[1..]);
      SplitRun(ts[0]);
      assert ts == [ts[0]] + ts[1..];
    }
  }

  // ---------------------------------------------------------------------
  // Decimal formatting, as in f"{n:02d}"

  predicate IsDigit(c: char)
  {
    '0' <= c <= '9'
  }

  function DigitChar(d: nat): (c: char)
    requires d < 10
    ensures IsDigit(c) && c as int - '0' as int == d
  {
    (d + '0' as int) as char
  }

  /** `str(n)` for a natural number: its decimal digits without leading zeros. */
  function DecimalString(n: nat): (s: string)
    ensures |s| >= 1 && All(s, IsDigit)
    ensures |s| > 1 ==> s[0] != '0'
    ensures n < 10 <==> |s| == 1
  {
    if n < 10 then [DigitChar(n)] else DecimalString(n / 10) + [DigitChar(n % 10)]
  }

  /** The number a string of decimal digits denotes. */
  function DigitsValue(s: string): nat
    requires All(s, IsDigit)
  {
    if s == [] then 0
    else
      var init := s[..|s| - 1];
      assert All(init, IsDigit) by {
        forall i | 0 <= i < |init| ensures IsDigit(init[i]) { assert init[i] == s[i]; }
      }
      DigitsValue(init) * 10 + (s[|s| - 1] as int - '0' as int)
  }

  lemma {:induction false} DecimalStringRoundTrip(n: nat)
    ensures DigitsValue(DecimalString(n)) == n
  {
    if n >= 10 {
      DecimalStringRoundTrip(n / 10);
      var s := DecimalString(n);
      assert s[..|s| - 1] == DecimalString(n / 10);
    }
  }

  /** `f"{n:02d}"`: decimal, left-padded with zeros to at least two digits. */
  function Pad2(n: nat): (s: string)
    ensures |s| >= 2 && All(s, IsDigit)
    ensures n < 100 ==> |s| == 2
    ensures n >= 10 ==> s == DecimalString(n)
    ensures n < 10 ==> s[0] == '0' && s[1..] == DecimalString(n)
  {
    if n < 10 then "0" + DecimalString(n)
    else
      assert n / 10 >= 1;
      DecimalString(n)
  }

  /** Reading the padded counter back gives the counter: distinct counters
      give distinct strings. */
  lemma Pad2RoundTrip(n: nat)
    ensures DigitsValue(Pad2(n)) == n
  {
    DecimalStringRoundTrip(n);
    if n < 10 {
      var s := Pad2(n);
      assert s[..|s| - 1] == "0";
    }
  }

  lemma Pad2Injective(a: nat, b: nat)
    requires Pad2(a) == Pad2(b)
    ensures a == b
  {
    Pad2RoundTrip(a);
    Pad2RoundTrip(b);
  }
}
