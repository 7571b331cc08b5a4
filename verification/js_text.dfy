/** The ECMAScript string operations the news pipeline relies on, over
    `string` (a sequence of code points): `trim`, `startsWith`, `endsWith`,
    `includes`, `split` and `join` with a string separator, and the
    `replace(/\n+/g, " ")` newline collapse. */
module JsText {

  /** The code points ECMAScript classes as WhiteSpace or LineTerminator;
      these, and only these, are what `String.prototype.trim` removes. */
  predicate IsSpace(c: char) {
    || c == '\t' || c == '\n' || c == '\U{000B}' || c == '\U{000C}' || c == '\r'
    || c == ' ' || c == '\U{00A0}' || c == '\U{1680}'
    || ('\U{2000}' <= c && c <= '\U{200A}')
    || c == '\U{2028}' || c == '\U{2029}' || c == '\U{202F}' || c == '\U{205F}'
    || c == '\U{3000}' || c == '\U{FEFF}'
  }

  predicate AllSpace(s: string) {
    forall i :: 0 <= i < |s| ==> IsSpace(s[i])
  }

  /** Neither end of `s` is whitespace. */
  predicate IsTrimmed(s: string) {
    |s| == 0 || (!IsSpace(s[0]) && !IsSpace(s[|s| - 1]))
  }

  /** `s.startsWith(p)` */
  predicate StartsWith(s: string, p: string) {
    |p| <= |s| && s[..|p|] == p
  }

  /** `s.endsWith(p)` */
  predicate EndsWith(s: string, p: string) {
    |p| <= |s| && s[|s| - |p|..] == p
  }

  /** `pat` occurs in `s` starting at index `i`. */
  predicate OccursAt(s: string, pat: string, i: int) {
    0 <= i && i + |pat| <= |s| && s[i..i + |pat|] == pat
  }

  /** `s.includes(pat)` */
  predicate Contains(s: string, pat: string) {
    exists i :: 0 <= i <= |s| - |pat| && OccursAt(s, pat, i)
  }

  // ---------------------------------------------------------------------------
  // trim

  /** The number of whitespace characters at the start of `s`. */
  function LeadingSpaces(s: string): (n: nat)
    ensures n <= |s|
    ensures forall k :: 0 <= k < n ==> IsSpace(s[k])
    ensures n == |s| || !IsSpace(s[n])
  {
    if |s| > 0 && IsSpace(s[0]) then 1 + LeadingSpaces(s[1..]) else 0
  }

  /** The number of whitespace characters at the end of `s`. */
  function TrailingSpaces(s: string): (n: nat)
    ensures n <= |s|
    ensures forall k :: |s| - n <= k < |s| ==> IsSpace(s[k])
    ensures n == |s| || !IsSpace(s[|s| - n - 1])
  {
    if |s| > 0 && IsSpace(s[|s| - 1]) then 1 + TrailingSpaces(s[..|s| - 1]) else 0
  }

  /** `s.trimStart()` */
  function TrimStart(s: string): string {
    s[LeadingSpaces(s)..]
  }

  /** `s.trimEnd()` */
  function TrimEnd(s: string): string {
    s[..|s| - TrailingSpaces(s)]
  }

  /** `r` sits in `s` at offset `i`, and everything of `s` around it is
      whitespace. */
  predicate Surrounds(s: string, r: string, i: int) {
    && 0 <= i <= |s| - |r|
    && r == s[i..i + |r|]
    && (forall k :: 0 <= k < i ==> IsSpace(s[k]))
    && (forall k :: i + |r| <= k < |s| ==> IsSpace(s[k]))
  }

  /** `s.trim()`: `s` without whitespace at either end, that is, the middle
      of `s` between an all-whitespace prefix and an all-whitespace suffix. */
  function Trim(s: string): (r: string)
    ensures IsTrimmed(r)
    ensures exists i :: Surrounds(s, r, i)
  {
    var t := TrimStart(s);
    var lo := |s| - |t|;
    var hi := lo + |t| - TrailingSpaces(t);
    assert forall k :: hi <= k < |s| ==> s[k] == t[k - lo];
    assert TrimEnd(t) == s[lo..hi];
    assert Surrounds(s, s[lo..hi], lo);
    TrimEnd(t)
  }

  /** `trim` yields the empty string exactly on all-whitespace input. */
  lemma TrimEmptyIff(s: string)
    ensures Trim(s) == [] <==> AllSpace(s)
  {
  }

  /** `trim` only removes characters. */
  lemma TrimChars(s: string)
    ensures |Trim(s)| <= |s|
    ensures forall c :: c in Trim(s) ==> c in s
  {
  }

  /** Whitespace in front of a string that does not start with whitespace is
      exactly what `trimStart` removes. */
  lemma {:induction false} LeadingSpacesOf(w: string, t: string)
    requires AllSpace(w)
    requires t == [] || !IsSpace(t[0])
    ensures LeadingSpaces(w + t) == |w|
    decreases |w|
  {
    if |w| == 0 {
      assert w + t == t;
    } else {
      assert (w + t)[1..] == w[1..] + t;
      LeadingSpacesOf(w[1..], t);
    }
  }

  /** Whitespace after a string that does not end with whitespace is exactly
      what `trimEnd` removes. */
  lemma {:induction false} TrailingSpacesOf(t: string, w: string)
    requires AllSpace(w)
    requires t == [] || !IsSpace(t[|t| - 1])
    ensures TrailingSpaces(t + w) == |w|
    decreases |w|
  {
    if |w| == 0 {
      assert t + w == t;
    } else {
      assert (t + w)[..|t + w| - 1] == t + w[..|w| - 1];
      TrailingSpacesOf(t, w[..|w| - 1]);
    }
  }

  /** `trim` is characterised by its result: whenever `s` is a trimmed string
      `m` surrounded by whitespace, `s.trim()` is `m`. */
  lemma TrimOfPadded(w1: string, m: string, w2: string)
    requires AllSpace(w1) && AllSpace(w2) && IsTrimmed(m)
    ensures Trim(w1 + m + w2) == m
  {
    if m == [] {
      var s := w1 + m + w2;
      forall k | 0 <= k < |s| ensures IsSpace(s[k]) {
        if k < |w1| { assert s[k] == w1[k]; }
        else { assert s[k] == w2[k - |w1|]; }
      }
      TrimEmptyIff(s);
    } else {
      assert w1 + m + w2 == w1 + (m + w2);
      LeadingSpacesOf(w1, m + w2);
      assert TrimStart(w1 + m + w2) == m + w2;
      TrailingSpacesOf(m, w2);
      assert TrimEnd(m + w2) == m;
    }
  }

  /** `s.trim().trim() === s.trim()` */
  lemma TrimIdempotent(s: string)
    ensures Trim(Trim(s)) == Trim(s)
  {
  }

  /** Whitespace after a trimmed string is exactly what `trim` removes. */
  lemma TrimOfSuffixed(m: string, w: string)
    requires IsTrimmed(m) && AllSpace(w)
    ensures Trim(m + w) == m
  {
    TrimOfPadded("", m, w);
    assert "" + m + w == m + w;
  }

  /** Any text is its trimmed middle with whitespace on either side. */
  lemma TrimDecompose(s: string) returns (w1: string, w2: string)
    ensures AllSpace(w1) && AllSpace(w2)
    ensures s == w1 + Trim(s) + w2
  {
    var m := Trim(s);
    var i :| Surrounds(s, m, i);
    w1 := s[..i];
    w2 := s[i + |m|..];
    assert AllSpace(w1) by {
      forall k | 0 <= k < |w1| ensures IsSpace(w1[k]) { assert w1[k] == s[k]; }
    }
    assert AllSpace(w2) by {
      forall k | 0 <= k < |w2| ensures IsSpace(w2[k]) { assert w2[k] == s[i + |m| + k]; }
    }
    assert s == w1 + m + w2;
  }

  /** Whitespace after the text does not change what `trim` returns. */
  lemma TrimDropsSpaceSuffix(x: string, w: string)
    requires AllSpace(w)
    ensures Trim(x + w) == Trim(x)
  {
    var v1, v2 := TrimDecompose(x);
    var m := Trim(x);
    var tail := v2 + w;
    forall k | 0 <= k < |tail| ensures IsSpace(tail[k]) {
      if k >= |v2| {
        assert tail[k] == w[k - |v2|];
      }
    }
    assert x + w == v1 + m + tail;
    TrimOfPadded(v1, m, tail);
  }

  /** A trimmed, non-empty front followed by `rest`, which is `w1 + m + w2`
      with `m` trimmed and `w1`, `w2` whitespace, trims to the front, then
      `w1` and `m` when `m` is not empty. */
  lemma TrimAfterTrimmedFront(front: string, rest: string, w1: string, m: string, w2: string)
    requires front != "" && IsTrimmed(front) && IsTrimmed(m)
    requires AllSpace(w1) && AllSpace(w2) && rest == w1 + m + w2
    ensures Trim(front + rest) == if m == "" then front else front + w1 + m
  {
    assert front + rest == front + w1 + m + w2;
    if m == "" {
      var w := w1 + w2;
      assert AllSpace(w) by {
        forall k | 0 <= k < |w| ensures IsSpace(w[k]) {
          if k >= |w1| { assert w[k] == w2[k - |w1|]; }
        }
      }
      TrimOfSuffixed(front, w);
      assert front + w1 + m + w2 == front + w;
    } else {
      var mid := front + w1 + m;
      assert IsTrimmed(mid) by {
        assert mid[0] == front[0];
        assert mid[|mid| - 1] == m[|m| - 1];
      }
      TrimOfSuffixed(mid, w2);
    }
  }

  // ---------------------------------------------------------------------------
  // split and join

  /** `s.split(sep)` for a non-empty separator: the pieces between the
      occurrences of `sep` found scanning left to right, without overlap. */
  function Split(s: string, sep: string): (parts: seq<string>)
    requires |sep| > 0
    ensures |parts| >= 1
    decreases |s|
  {
    if |s| < |sep| then [s]
    else if s[..|sep|] == sep then [""] + Split(s[|sep|..], sep)
    else
      var rest := Split(s[1..], sep);
      [[s[0]] + rest[0]] + rest[1..]
  }

  /** `parts.join(sep)` */
  function Join(parts: seq<string>, sep: string): string
  {
    if |parts| == 0 then ""
    else if |parts| == 1 then parts[0]
    else parts[0] + sep + Join(parts[1..], sep)
  }

  lemma JoinHeadIsPrefix(parts: seq<string>, sep: string)
    requires |parts| >= 1
    ensures StartsWith(Join(parts, sep), parts[0])
  {
  }

  /** Every character of a joined string comes from a part or the separator. */
  lemma {:induction false} JoinChars(parts: seq<string>, sep: string, c: char)
    requires c in Join(parts, sep)
    ensures c in sep || exists k :: 0 <= k < |parts| && c in parts[k]
  {
    if |parts| > 1 {
      var j := Join(parts[1..], sep);
      assert Join(parts, sep) == parts[0] + sep + j;
      if c !in parts[0] && c !in sep {
        assert c in j;
        JoinChars(parts[1..], sep, c);
        if c !in sep {
          var k :| 0 <= k < |parts[1..]| && c in parts[1..][k];
          assert c in parts[k + 1];
        }
      }
    }
  }

  /** Every character of a part appears in the joined string. */
  lemma {:induction false} PartCharsInJoin(parts: seq<string>, sep: string, k: nat, c: char)
    requires k < |parts| && c in parts[k]
    ensures c in Join(parts, sep)
    decreases k
  {
    if |parts| > 1 {
      assert Join(parts, sep) == parts[0] + sep + Join(parts[1..], sep);
      if k > 0 {
        PartCharsInJoin(parts[1..], sep, k - 1, c);
      }
    }
  }

  /** Putting a character in front of the first part puts it in front of
      the joined string. */
  lemma JoinConsFirst(c: char, parts: seq<string>, sep: string)
    requires |parts| >= 1
    ensures Join([[c] + parts[0]] + parts[1..], sep) == [c] + Join(parts, sep)
  {
  }

  /** An empty first part leaves only the separator in front. */
  lemma JoinEmptyFirst(parts: seq<string>, sep: string)
    requires |parts| >= 1
    ensures Join([""] + parts, sep) == sep + Join(parts, sep)
  {
    assert ([""] + parts)[1..] == parts;
  }

  /** Gluing the pieces of `split` back together with the separator gives
      the original string. */
  lemma {:induction false} JoinSplit(s: string, sep: string)
    requires |sep| > 0
    ensures Join(Split(s, sep), sep) == s
    decreases |s|
  {
    if |s| < |sep| {
    } else if s[..|sep|] == sep {
      var t := s[|sep|..];
      JoinSplit(t, sep);
      JoinEmptyFirst(Split(t, sep), sep);
      assert s == sep + t;
    } else {
      var rest := Split(s[1..], sep);
      JoinSplit(s[1..], sep);
      JoinConsFirst(s[0], rest, sep);
      assert s == [s[0]] + s[1..];
    }
  }

  /** No piece produced by `split` contains the separator. */
  lemma {:induction false} SplitPiecesAvoidSep(s: string, sep: string)
    requires |sep| > 0
    ensures forall k :: 0 <= k < |Split(s, sep)| ==> !Contains(Split(s, sep)[k], sep)
    decreases |s|
  {
    var parts := Split(s, sep);
    if |s| < |sep| {
      assert !Contains(s, sep);
    } else if s[..|sep|] == sep {
      SplitPiecesAvoidSep(s[|sep|..], sep);
      assert !Contains("", sep);
      forall k | 1 <= k < |parts| ensures !Contains(parts[k], sep) {
        assert parts[k] == Split(s[|sep|..], sep)[k - 1];
      }
    } else {
      var rest := Split(s[1..], sep);
      SplitPiecesAvoidSep(s[1..], sep);
      forall k | 1 <= k < |parts| ensures !Contains(parts[k], sep) {
        assert parts[k] == rest[k];
      }
      var head := [s[0]] + rest[0];
      assert !Contains(head, sep) by {
        JoinSplit(s[1..], sep);
        JoinHeadIsPrefix(rest, sep);
        assert rest[0] == s[1..][..|rest[0]|];
        forall i | OccursAt(head, sep, i) ensures false {
          if i != 0 {
            assert head[i..i + |sep|] == rest[0][i - 1..i - 1 + |sep|];
            assert OccursAt(rest[0], sep, i - 1);
          }
        }
      }
    }
  }

  /** A string without the separator splits into itself alone. */
  lemma {:induction false} SplitWithoutSep(s: string, sep: string)
    requires |sep| > 0
    requires !Contains(s, sep)
    ensures Split(s, sep) == [s]
    decreases |s|
  {
    if |s| < |sep| {
    } else if s[..|sep|] == sep {
      assert OccursAt(s, sep, 0);
    } else {
      assert !Contains(s[1..], sep) by {
        forall i | OccursAt(s[1..], sep, i) ensures false {
          assert s[1..][i..i + |sep|] == s[i + 1..i + 1 + |sep|];
          assert OccursAt(s, sep, i + 1);
        }
      }
      SplitWithoutSep(s[1..], sep);
      assert [s[0]] + s[1..] == s;
    }
  }

  /** `split` leaves a string whole exactly when the separator does not
      occur in it. */
  lemma SplitSingletonIff(s: string, sep: string)
    requires |sep| > 0
    ensures Split(s, sep) == [s] <==> !Contains(s, sep)
  {
    if !Contains(s, sep) {
      SplitWithoutSep(s, sep);
    }
    if Split(s, sep) == [s] {
      SplitPiecesAvoidSep(s, sep);
      assert Split(s, sep)[0] == s;
    }
  }

  /** When the first occurrence of the separator is right after `a`, `split`
      yields `a` followed by the pieces of what comes after the separator. */
  lemma {:induction false} SplitAtFirst(a: string, sep: string, b: string)
    requires |sep| > 0
    requires forall i :: 0 <= i < |a| ==> !OccursAt(a + sep + b, sep, i)
    ensures Split(a + sep + b, sep) == [a] + Split(b, sep)
    decreases |a|
  {
    var s := a + sep + b;
    if |a| == 0 {
      assert s == sep + b;
      assert s[..|sep|] == sep;
      assert s[|sep|..] == b;
    } else {
      assert !OccursAt(s, sep, 0);
      assert s[1..] == a[1..] + sep + b;
      forall i | 0 <= i < |a[1..]| ensures !OccursAt(a[1..] + sep + b, sep, i) {
        assert !OccursAt(s, sep, i + 1);
        assert s[i + 1..i + 1 + |sep|] == s[1..][i..i + |sep|];
      }
      SplitAtFirst(a[1..], sep, b);
      assert [a[0]] + a[1..] == a;
    }
  }

  /** With a one-character separator that no part contains, `split` undoes
      `join`. */
  lemma {:induction false} SplitJoin(parts: seq<string>, sep: string)
    requires |sep| == 1 && |parts| >= 1
    requires forall k :: 0 <= k < |parts| ==> sep[0] !in parts[k]
    ensures Split(Join(parts, sep), sep) == parts
    decreases |parts|
  {
    var p := parts[0];
    assert !Contains(p, sep) by {
      forall i | OccursAt(p, sep, i) ensures false { }
    }
    if |parts| == 1 {
      SplitWithoutSep(p, sep);
    } else {
      var rest := parts[1..];
      SplitJoin(rest, sep);
      var s := p + sep + Join(rest, sep);
      forall i | 0 <= i < |p| ensures !OccursAt(s, sep, i) {
        assert s[i] == p[i];
      }
      SplitAtFirst(p, sep, Join(rest, sep));
      assert [p] + rest == parts;
    }
  }

  // ---------------------------------------------------------------------------
  // replace(/\n+/g, " ")

  predicate AllNewlines(s: string) {
    forall i :: 0 <= i < |s| ==> s[i] == '\n'
  }

  /** The length of the run of line feeds at the start of `s`. */
  function LeadingNewlines(s: string): (n: nat)
    ensures n <= |s|
    ensures forall k :: 0 <= k < n ==> s[k] == '\n'
    ensures n == |s| || s[n] != '\n'
  {
    if |s| > 0 && s[0] == '\n' then 1 + LeadingNewlines(s[1..]) else 0
  }

  /** `s.replace(/\n+/g, " ")`: every maximal run of line feeds becomes a
      single space; everything else is kept in order. */
  function CollapseNewlines(s: string): (r: string)
    ensures '\n' !in r
    ensures |r| <= |s|
    ensures '\n' !in s ==> r == s
    ensures s != [] && s[0] != '\n' ==> r != [] && r[0] == s[0]
    ensures s != [] && s[|s| - 1] != '\n' ==> r != [] && r[|r| - 1] == s[|s| - 1]
    ensures forall c :: c in r ==> c in s || c == ' '
    decreases |s|
  {
    if |s| == 0 then ""
    else if s[0] == '\n' then
      var d := s[LeadingNewlines(s)..];
      assert forall c :: c in d ==> c in s;
      " " + CollapseNewlines(d)
    else
      [s[0]] + CollapseNewlines(s[1..])
  }

  /** The newline collapse works run by run: it distributes over a
      concatenation that does not cut a run of line feeds in two. */
  lemma {:induction false} CollapseAppend(a: string, b: string)
    requires a == [] || b == [] || a[|a| - 1] != '\n' || b[0] != '\n'
    ensures CollapseNewlines(a + b) == CollapseNewlines(a) + CollapseNewlines(b)
    decreases |a|, 1
  {
    var s := a + b;
    if |a| == 0 {
      assert s == b;
    } else if b == [] {
      assert s == a;
    } else if a[0] == '\n' {
      CollapseAppendFromRun(a, b);
    } else {
      assert s[1..] == a[1..] + b;
      CollapseAppend(a[1..], b);
    }
  }

  /** The step of `CollapseAppend` where `a` starts with a run of line feeds. */
  lemma {:induction false} CollapseAppendFromRun(a: string, b: string)
    requires a != [] && b != [] && a[0] == '\n'
    requires a[|a| - 1] != '\n' || b[0] != '\n'
    ensures CollapseNewlines(a + b) == CollapseNewlines(a) + CollapseNewlines(b)
    decreases |a|, 0
  {
    var s := a + b;
    var n := LeadingNewlines(a);
    LeadingNewlinesAppend(a, b);
    if n == |a| {
      assert s[n..] == b;
    } else {
      assert s[n..] == a[n..] + b;
      CollapseAppend(a[n..], b);
    }
  }

  lemma {:induction false} LeadingNewlinesAppend(a: string, b: string)
    requires LeadingNewlines(a) < |a| || b == [] || b[0] != '\n'
    ensures LeadingNewlines(a + b) == LeadingNewlines(a)
    decreases |a|
  {
    if |a| == 0 {
      assert a + b == b;
    } else if a[0] == '\n' {
      assert (a + b)[1..] == a[1..] + b;
      LeadingNewlinesAppend(a[1..], b);
    } else {
      assert (a + b)[0] == a[0];
    }
  }

  /** Collapsing line feeds in whitespace leaves whitespace. */
  lemma CollapseKeepsSpace(s: string)
    requires AllSpace(s)
    ensures AllSpace(CollapseNewlines(s))
  {
    var r := CollapseNewlines(s);
    forall i | 0 <= i < |r| ensures IsSpace(r[i]) {
      assert r[i] in r;
      if r[i] in s {
        var j :| 0 <= j < |s| && s[j] == r[i];
      }
    }
  }

  /** A non-empty run of line feeds on its own collapses to one space. */
  lemma CollapseRun(s: string)
    requires s != [] && AllNewlines(s)
    ensures CollapseNewlines(s) == " "
  {
  }
}
