/** Character classes and string primitives of the JavaScript runtime that the
    renderer relies on: `\s`, `String.prototype.trim`, `split` on one
    character, and "does this substring occur here".
    Strings are sequences of code points. */
module Text {

  /** ECMAScript LineTerminator: the characters a regular-expression `.` refuses. */
  predicate IsLineTerminator(c: char) {
    c == '\n' || c == '\r' || c == '\U{2028}' || c == '\U{2029}'
  }

  /** ECMAScript WhiteSpace plus LineTerminator: what `\s` matches and what
      `trim` removes. */
  predicate IsWs(c: char) {
    || IsLineTerminator(c)
    || c == '\t' || c == '\U{000B}' || c == '\U{000C}' || c == ' '
    || c == '\U{00A0}' || c == '\U{FEFF}' || c == '\U{1680}'
    || ('\U{2000}' <= c <= '\U{200A}')
    || c == '\U{202F}' || c == '\U{205F}' || c == '\U{3000}'
  }

  predicate AllWs(s: string) {
    forall i :: 0 <= i < |s| ==> IsWs(s[i])
  }

  /** Number of whitespace characters at the front of `s` (the length of
      the match of the regular expression `^\s*`). */
  function LeadingWs(s: string): (n: nat)
    ensures n <= |s|
    ensures forall i :: 0 <= i < n ==> IsWs(s[i])
    ensures n == |s| || !IsWs(s[n])
  {
    if s == [] || !IsWs(s[0]) then 0 else LeadingWs(s[1..]) + 1
  }

  /** Number of whitespace characters at the end of `s`. */
  function TrailingWs(s: string): (n: nat)
    ensures n <= |s|
    ensures forall i :: |s| - n <= i < |s| ==> IsWs(s[i])
    ensures n == |s| || !IsWs(s[|s| - n - 1])
  {
    if s == [] || !IsWs(s[|s| - 1]) then 0 else TrailingWs(s[..|s| - 1]) + 1
  }

  /** `String.prototype.trim`: the result is the slice of `s` that starts
      after the leading whitespace and stops before the trailing whitespace,
      so it neither starts nor ends with whitespace. */
  function Trim(s: string): (r: string)
    ensures LeadingWs(s) + |r| <= |s|
    ensures r == s[LeadingWs(s)..LeadingWs(s) + |r|]
    ensures forall i :: LeadingWs(s) + |r| <= i < |s| ==> IsWs(s[i])
    ensures r == [] || (!IsWs(r[0]) && !IsWs(r[|r| - 1]))
  {
    var k := LeadingWs(s);
    var rest := s[k..];
    rest[..|rest| - TrailingWs(rest)]
  }

  /** A string is blank (trims to nothing) exactly when it is all whitespace. */
  lemma TrimEmptyIff(s: string)
    ensures Trim(s) == [] <==> AllWs(s)
  {
    var k := LeadingWs(s);
    var r := Trim(s);
    assert r != [] ==> r[0] == s[k];
    if r == [] {
      assert s == s[..k] + s[k..];
    }
  }

  /** Text that neither starts nor ends with whitespace trims to itself. */
  lemma TrimOfTrimmed(s: string)
    requires s != [] && !IsWs(s[0]) && !IsWs(s[|s| - 1])
    ensures Trim(s) == s
  {
    assert LeadingWs(s) == 0;
    assert TrailingWs(s) == 0;
  }

  /** Number of occurrences of `c` in `s`. */
  function Count(c: char, s: string): nat {
    if s == [] then 0 else (if s[0] == c then 1 else 0) + Count(c, s[1..])
  }

  lemma {:induction false} CountAppend(c: char, a: string, b: string)
    ensures Count(c, a + b) == Count(c, a) + Count(c, b)
  {
    if a == [] {
      assert a + b == b;
    } else {
      assert (a + b)[1..] == a[1..] + b;
      CountAppend(c, a[1..], b);
    }
  }

  lemma CountSlices(c: char, s: string, lo: nat, mid: nat, hi: nat)
    requires lo <= mid <= hi <= |s|
    ensures Count(c, s[lo..hi]) == Count(c, s[lo..mid]) + Count(c, s[mid..hi])
  {
    assert s[lo..hi] == s[lo..mid] + s[mid..hi];
    CountAppend(c, s[lo..mid], s[mid..hi]);
  }

  lemma CountSplitAt(c: char, s: string, k: nat)
    requires k <= |s|
    ensures Count(c, s) == Count(c, s[..k]) + Count(c, s[k..])
  {
    assert s == s[..k] + s[k..];
    CountAppend(c, s[..k], s[k..]);
  }

  /** Two disjoint slices of a prefix hold no more occurrences than it. */
  lemma CountTwoSlices(c: char, s: string, a: nat, b: nat, e: nat, f: nat, g: nat)
    requires a <= b <= e <= f <= g <= |s|
    ensures Count(c, s[a..b]) + Count(c, s[e..f]) <= Count(c, s[..g])
  {
    CountSlices(c, s, 0, a, g);
    CountSlices(c, s, a, b, g);
    CountSlices(c, s, b, e, g);
    CountSlices(c, s, e, f, g);
    assert s[0..g] == s[..g];
  }

  /** A string is the concatenation of its slices at any three cut points. */
  lemma Recompose(s: string, a: nat, b: nat, c: nat)
    requires a <= b <= c <= |s|
    ensures s == s[..a] + s[a..b] + s[b..c] + s[c..]
  {
    assert s[..a] + s[a..b] == s[..b];
    assert s[..b] + s[b..c] == s[..c];
    assert s[..c] + s[c..] == s;
  }

  lemma {:induction false} CountAbsent(c: char, s: string)
    requires c !in s
    ensures Count(c, s) == 0
  {
    if s != [] {
      CountAbsent(c, s[1..]);
    }
  }

  /** `t` occurs in `s` at position `k`. */
  predicate At(s: string, k: nat, t: string) {
    k + |t| <= |s| && s[k..k + |t|] == t
  }

  predicate StartsWith(s: string, t: string) {
    At(s, 0, t)
  }

  /** `s.includes(t)`. */
  ghost predicate Occurs(s: string, t: string) {
    exists k :: At(s, k, t)
  }

  /** `s.includes(t)`, scanning every start position from `k`. */
  function IncludesFrom(s: string, t: string, k: nat): bool
    decreases |s| + 1 - k
  {
    if k + |t| > |s| then false
    else if s[k..k + |t|] == t then true
    else IncludesFrom(s, t, k + 1)
  }

  /** `s.includes(t)`. */
  function Includes(s: string, t: string): bool {
    IncludesFrom(s, t, 0)
  }

  /** The scan from `k` finds exactly the occurrences at or after `k`. */
  lemma {:induction false} IncludesFromSpec(s: string, t: string, k: nat)
    ensures IncludesFrom(s, t, k) <==> exists j :: k <= j && At(s, j, t)
    decreases |s| + 1 - k
  {
    if k + |t| > |s| {
      assert forall j :: k <= j ==> !At(s, j, t);
    } else if s[k..k + |t|] == t {
      assert At(s, k, t);
    } else {
      IncludesFromSpec(s, t, k + 1);
      assert forall j :: k <= j && At(s, j, t) ==> k + 1 <= j;
    }
  }

  lemma IncludesSpec(s: string, t: string)
    ensures Includes(s, t) <==> Occurs(s, t)
  {
    IncludesFromSpec(s, t, 0);
  }

  /** `s.split(sep)` for a one-character separator. */
  function Split(s: string, sep: char): (r: seq<string>)
    ensures |r| >= 1
  {
    if s == [] then [[]]
    else
      var rest := Split(s[1..], sep);
      if s[0] == sep then [[]] + rest else [[s[0]] + rest[0]] + rest[1..]
  }

  /** The parts hold no separator and joining them with it gives back `s`. */
  lemma {:induction false} SplitSpec(s: string, sep: char)
    ensures forall i :: 0 <= i < |Split(s, sep)| ==> sep !in Split(s, sep)[i]
    ensures Join(Split(s, sep), sep) == s
  {
    if s != [] {
      var rest := Split(s[1..], sep);
      SplitSpec(s[1..], sep);
      if s[0] == sep {
        assert s == [sep] + s[1..];
        assert ([[]] + rest)[1..] == rest;
      } else {
        JoinExtendHead(s[0], rest, sep);
        assert s == [s[0]] + s[1..];
        var r := [[s[0]] + rest[0]] + rest[1..];
        assert forall i :: 1 <= i < |r| ==> r[i] == rest[i];
      }
    }
  }

  /** `parts.join(sep)`. */
  function Join(parts: seq<string>, sep: char): string
    requires |parts| >= 1
  {
    if |parts| == 1 then parts[0] else parts[0] + [sep] + Join(parts[1..], sep)
  }

  lemma JoinExtendHead(c: char, parts: seq<string>, sep: char)
    requires |parts| >= 1
    ensures Join([[c] + parts[0]] + parts[1..], sep) == [c] + Join(parts, sep)
  {
    var r := [[c] + parts[0]] + parts[1..];
    assert r[1..] == parts[1..];
  }

  /** One fragment per separator, plus one. */
  lemma {:induction false} SplitCount(s: string, sep: char)
    ensures |Split(s, sep)| == Count(sep, s) + 1
  {
    if s != [] {
      SplitCount(s[1..], sep);
      assert s == [s[0]] + s[1..];
    }
  }

  /** Splitting undoes joining when no part contains the separator. */
  lemma {:induction false} SplitJoin(parts: seq<string>, sep: char)
    requires |parts| >= 1
    requires forall i :: 0 <= i < |parts| ==> sep !in parts[i]
    ensures Split(Join(parts, sep), sep) == parts
  {
    if |parts| == 1 {
      SplitNoSep(parts[0], sep);
    } else {
      SplitJoin(parts[1..], sep);
      SplitPrefix(parts[0], Join(parts[1..], sep), sep);
      assert [parts[0]] + parts[1..] == parts;
    }
  }

  lemma {:induction false} SplitNoSep(s: string, sep: char)
    requires sep !in s
    ensures Split(s, sep) == [s]
  {
    if s != [] {
      SplitNoSep(s[1..], sep);
      assert [s[0]] + s[1..] == s;
    }
  }

  lemma {:induction false} SplitPrefix(a: string, b: string, sep: char)
    requires sep !in a
    ensures Split(a + [sep] + b, sep) == [a] + Split(b, sep)
  {
    var s := a + [sep] + b;
    if a == [] {
      assert s[1..] == b;
    } else {
      assert s[1..] == a[1..] + [sep] + b;
      SplitPrefix(a[1..], b, sep);
      var rest := Split(s[1..], sep);
      assert rest == [a[1..]] + Split(b, sep);
      assert Split(s, sep) == [[a[0]] + rest[0]] + rest[1..];
      assert [a[0]] + a[1..] == a;
    }
  }
}
