/**
 * The Python `str` operations the response parser is built from, on `string`
 * (a sequence of Unicode scalar values, as a Python `str` is a sequence of
 * code points): membership `p in s`, `s.find(p)`, `s.split(sep)`,
 * `sep.join(parts)`, `s.count(p)`, `s.replace(pat, rep)` and `s.strip()`.
 * Only non-empty separators and patterns occur in the parser, so only those
 * are modelled.
 */
module PyStrings {
  import opened Wrappers

  /** `p` occurs in `s` starting at index `i`. */
  predicate OccursAt(s: string, p: string, i: nat) {
    i + |p| <= |s| && s[i..i + |p|] == p
  }

  /** Python's `p in s`. */
  predicate Contains(s: string, p: string) {
    exists i: nat | i <= |s| :: OccursAt(s, p, i)
  }

  /** Occurrences in `s[1..]` are the occurrences in `s` shifted by one. */
  lemma OccursAtTail(s: string, p: string)
    requires s != []
    ensures forall i: nat :: OccursAt(s[1..], p, i) ==> OccursAt(s, p, i + 1)
    ensures forall i: nat :: 1 <= i && OccursAt(s, p, i) ==> OccursAt(s[1..], p, i - 1)
  {
    forall i: nat ensures OccursAt(s[1..], p, i) <==> OccursAt(s, p, i + 1) {
      if i + 1 + |p| <= |s| {
        assert s[1..][i..i + |p|] == s[i + 1..i + 1 + |p|];
      }
    }
  }

  /** Python's `s.find(p)` as an option: the leftmost occurrence, or None. */
  function IndexOf(s: string, p: string): (r: Option<nat>)
    ensures r.Some? ==> OccursAt(s, p, r.value)
    ensures r.Some? ==> forall j: nat :: j < r.value ==> !OccursAt(s, p, j)
    ensures r.None? <==> !Contains(s, p)
    decreases |s|
  {
    if OccursAt(s, p, 0) then Some(0)
    else if s == [] then None
    else
      OccursAtTail(s, p);
      match IndexOf(s[1..], p)
      case None => None
      case Some(i) => Some(i + 1)
  }

  /** Python's `s.split(sep)` for a non-empty separator: cut at the leftmost
      occurrence and go on with what follows it. */
  function Split(s: string, sep: string): (parts: seq<string>)
    requires sep != []
    ensures |parts| >= 1
    decreases |s|
  {
    match IndexOf(s, sep)
    case None => [s]
    case Some(i) => [s[..i]] + Split(s[i + |sep|..], sep)
  }

  /** Python's `sep.join(parts)`. */
  function Join(parts: seq<string>, sep: string): string
  {
    if parts == [] then ""
    else if |parts| == 1 then parts[0]
    else parts[0] + sep + Join(parts[1..], sep)
  }

  /** Python's `s.count(p)` for non-empty `p`: non-overlapping occurrences,
      scanning from the left. */
  function Count(s: string, p: string): (n: nat)
    requires p != []
    ensures n * |p| <= |s|
    decreases |s|
  {
    if |s| < |p| then 0
    else if OccursAt(s, p, 0) then
      var n := Count(s[|p|..], p);
      assert (1 + n) * |p| == |p| + n * |p|;
      1 + n
    else Count(s[1..], p)
  }

  /** Python's `s.replace(pat, rep)` for non-empty `pat`: every non-overlapping
      occurrence, from the left. */
  function Replace(s: string, pat: string, rep: string): (r: string)
    requires pat != []
    ensures |r| + Count(s, pat) * |pat| == |s| + Count(s, pat) * |rep|
    decreases |s|
  {
    match IndexOf(s, pat)
    case None =>
      CountNone(s, pat);
      s
    case Some(i) =>
      var rest := s[i + |pat|..];
      var t := Replace(rest, pat, rep);
      CountFirst(s, pat, i);
      LengthStep(i, |pat|, |rep|, |rest|, |t|, Count(rest, pat));
      s[..i] + (rep + t)
  }

  /** The arithmetic of one replacement step. */
  lemma LengthStep(i: int, p: int, r: int, rest: int, t: int, n: int)
    requires t + n * p == rest + n * r
    ensures (i + r + t) + (1 + n) * p == (i + p + rest) + (1 + n) * r
  {
    assert (1 + n) * p == p + n * p && (1 + n) * r == r + n * r;
  }

  /** The characters Python's `str.isspace` accepts (tab to carriage return,
      the four separators U+001C-U+001F, space, U+0085, U+00A0, U+1680, the
      spaces U+2000-U+200A, U+2028, U+2029, U+202F, U+205F and U+3000);
      `str.strip()` with no argument removes exactly these. */
  predicate IsSpace(c: char) {
    ('\t' <= c <= '\r') || ('\U{001C}' <= c <= ' ') || c == '\U{0085}' || c == '\U{00A0}'
    || c == '\U{1680}' || ('\U{2000}' <= c <= '\U{200A}') || c == '\U{2028}' || c == '\U{2029}'
    || c == '\U{202F}' || c == '\U{205F}' || c == '\U{3000}'
  }

  /** Python's `s.isspace() or s == ""`. */
  predicate AllSpace(s: string) {
    forall k | 0 <= k < |s| :: IsSpace(s[k])
  }

  /** Python's `s.lstrip()`. */
  function TrimStart(s: string): string
    decreases |s|
  {
    if s != [] && IsSpace(s[0]) then TrimStart(s[1..]) else s
  }

  /** Python's `s.rstrip()`. */
  function TrimEnd(s: string): string
    decreases |s|
  {
    if s != [] && IsSpace(s[|s| - 1]) then TrimEnd(s[..|s| - 1]) else s
  }

  /** Python's `s.strip()`: a blank string strips to "", anything else to a
      string that starts and ends with a non-blank character. */
  function Strip(s: string): (r: string)
    ensures r == [] || (!IsSpace(r[0]) && !IsSpace(r[|r| - 1]))
  {
    TrimStartCut(s);
    TrimEndCut(TrimStart(s));
    TrimEnd(TrimStart(s))
  }

  /** `lstrip()` removes a blank prefix and stops at a non-blank character. */
  lemma {:induction false} TrimStartCut(s: string)
    ensures |TrimStart(s)| <= |s| && TrimStart(s) == s[|s| - |TrimStart(s)|..]
    ensures AllSpace(s[..|s| - |TrimStart(s)|])
    ensures TrimStart(s) == [] || !IsSpace(TrimStart(s)[0])
    decreases |s|
  {
    if s != [] && IsSpace(s[0]) {
      TrimStartCut(s[1..]);
      var r := TrimStart(s[1..]);
      assert TrimStart(s) == r;
      assert s[1..][|s| - 1 - |r|..] == s[|s| - |r|..];
      AllSpaceConcat([s[0]], s[1..][..|s| - 1 - |r|]);
      assert s[..|s| - |r|] == [s[0]] + s[1..][..|s| - 1 - |r|];
    } else {
      assert s[..0] == [];
    }
  }

  /** `rstrip()` removes a blank suffix and stops at a non-blank character. */
  lemma {:induction false} TrimEndCut(s: string)
    ensures |TrimEnd(s)| <= |s| && TrimEnd(s) == s[..|TrimEnd(s)|]
    ensures AllSpace(s[|TrimEnd(s)|..])
    ensures TrimEnd(s) == [] || !IsSpace(TrimEnd(s)[|TrimEnd(s)| - 1])
    decreases |s|
  {
    if s != [] && IsSpace(s[|s| - 1]) {
      var t := s[..|s| - 1];
      TrimEndCut(t);
      var r := TrimEnd(t);
      assert TrimEnd(s) == r;
      assert t[..|r|] == s[..|r|];
      AllSpaceConcat(t[|r|..], [s[|s| - 1]]);
      assert s[|r|..] == t[|r|..] + [s[|s| - 1]];
    } else {
      assert s[|s|..] == [];
    }
  }

  // ---------------------------------------------------------------------
  // Occurrences in concatenations
  // ---------------------------------------------------------------------

  /** An occurrence inside one side of a concatenation is an occurrence in it. */
  lemma OccursInConcat(x: string, y: string, p: string, j: nat)
    requires OccursAt(x + y, p, j)
    ensures j + |p| <= |x| ==> OccursAt(x, p, j)
    ensures |x| <= j ==> OccursAt(y, p, j - |x|)
  {
    if j + |p| <= |x| {
      assert (x + y)[j..j + |p|] == x[j..j + |p|];
    }
    if |x| <= j {
      assert (x + y)[j..j + |p|] == y[j - |x|..j - |x| + |p|];
    }
  }

  /** Occurrences in `y` are occurrences in `x + y`, shifted. */
  lemma OccursShifted(x: string, y: string, p: string, j: nat)
    requires OccursAt(y, p, j)
    ensures OccursAt(x + y, p, |x| + j) && OccursAt(y + x, p, j)
  {
    assert (x + y)[|x| + j..|x| + j + |p|] == y[j..j + |p|];
    assert (y + x)[j..j + |p|] == y[j..j + |p|];
  }

  /** `p` occurs in `x + p + y` right after `x`. */
  lemma OccursInMiddle(x: string, p: string, y: string)
    ensures OccursAt(x + p + y, p, |x|) && Contains(x + p + y, p)
  {
    var s := x + p + y;
    assert s[|x|..|x| + |p|] == p;
    assert OccursAt(s, p, |x|);
  }

  /** What occurs in a part of `s` occurs in `s`. */
  lemma ContainsInPart(x: string, y: string, p: string)
    ensures Contains(x, p) ==> Contains(x + y, p)
    ensures Contains(y, p) ==> Contains(x + y, p)
  {
    if Contains(x, p) {
      var j: nat :| j <= |x| && OccursAt(x, p, j);
      OccursShifted(y, x, p, j);
    }
    if Contains(y, p) {
      var j: nat :| j <= |y| && OccursAt(y, p, j);
      OccursShifted(x, y, p, j);
    }
  }

  /** A string that contains `p + q` contains `p`. */
  lemma ContainsPrefixOfPattern(s: string, p: string, q: string)
    requires Contains(s, p + q)
    ensures Contains(s, p)
  {
    var j: nat :| j <= |s| && OccursAt(s, p + q, j);
    assert s[j..j + |p|] == (p + q)[..|p|];
    assert OccursAt(s, p, j);
  }

  /** If neither side contains `q` and the seam between them cannot hold part
      of an occurrence (the first character of `y` is not a later character of
      `q`, or the last character of `x` is not an earlier one), then the
      concatenation does not contain `q` either. */
  lemma NoOccurrenceAcross(x: string, y: string, q: string)
    requires !Contains(x, q) && !Contains(y, q)
    requires q != [] && ((y != [] && y[0] !in q[1..]) || (x != [] && x[|x| - 1] !in q[..|q| - 1]))
    ensures !Contains(x + y, q)
  {
    if Contains(x + y, q) {
      var j: nat :| j <= |x + y| && OccursAt(x + y, q, j);
      OccursInConcat(x, y, q, j);
      SeamCharacters(x, y, q, j);
    }
  }

  /** The characters on both sides of the seam of an occurrence that
      straddles it. */
  lemma SeamCharacters(x: string, y: string, q: string, j: nat)
    requires OccursAt(x + y, q, j) && j < |x| < j + |q|
    ensures y != [] && y[0] in q[1..]
    ensures x != [] && x[|x| - 1] in q[..|q| - 1]
  {
    assert (x + y)[j..j + |q|] == q;
    assert q[1..][|x| - j - 1] == q[|x| - j] == y[0];
    assert q[..|q| - 1][|x| - 1 - j] == q[|x| - 1 - j] == x[|x| - 1];
  }

  /** A string that lacks some character of `q` does not contain `q`. */
  lemma MissingCharacter(s: string, q: string, k: nat)
    requires k < |q| && q[k] !in s
    ensures !Contains(s, q)
  {
    if Contains(s, q) {
    }
  }

  // ---------------------------------------------------------------------
  // Split
  // ---------------------------------------------------------------------

  /** Without the separator there is nothing to cut. */
  lemma SplitAbsent(s: string, sep: string)
    requires sep != [] && !Contains(s, sep)
    ensures Split(s, sep) == [s]
  {
  }

  /** With the separator present, there are at least two parts, the first being
      what comes before its leftmost occurrence. */
  lemma SplitPresent(s: string, sep: string)
    requires sep != [] && Contains(s, sep)
    ensures |Split(s, sep)| >= 2
    ensures Split(s, sep)[0] == s[..IndexOf(s, sep).value]
  {
  }

  /** One step of a split: the part before the leftmost occurrence, then the
      split of what follows the occurrence. */
  lemma SplitStep(s: string, sep: string) returns (i: nat)
    requires sep != [] && Contains(s, sep)
    ensures IndexOf(s, sep) == Some(i) && i + |sep| <= |s|
    ensures Split(s, sep) == [s[..i]] + Split(s[i + |sep|..], sep)
    ensures s == s[..i] + sep + s[i + |sep|..]
  {
    i := IndexOf(s, sep).value;
    var rest := s[i + |sep|..];
    assert Split(s, sep) == [s[..i]] + Split(rest, sep);
    assert s[i..i + |sep|] == sep;
    assert s == s[..i] + s[i..i + |sep|] + rest;
  }

  /** `sep.join(s.split(sep)) == s`: splitting loses nothing. */
  lemma {:induction false} SplitJoin(s: string, sep: string)
    requires sep != []
    ensures Join(Split(s, sep), sep) == s
    decreases |s|
  {
    if Contains(s, sep) {
      var i := SplitStep(s, sep);
      var rest := s[i + |sep|..];
      SplitJoin(rest, sep);
      var parts := Split(rest, sep);
      assert ([s[..i]] + parts)[1..] == parts;
    } else {
      SplitAbsent(s, sep);
    }
  }

  /** Before the leftmost occurrence there is no occurrence. */
  lemma PrefixFree(s: string, sep: string, i: nat)
    requires sep != [] && i <= |s|
    requires forall j: nat :: j < i ==> !OccursAt(s, sep, j)
    ensures !Contains(s[..i], sep)
  {
    forall j: nat | j <= i ensures !OccursAt(s[..i], sep, j) {
      if j + |sep| <= i {
        assert s[..i][j..j + |sep|] == s[j..j + |sep|];
        assert !OccursAt(s, sep, j);
      }
    }
  }

  /** No part of a split holds the separator. */
  lemma {:induction false} SplitPartsFree(s: string, sep: string)
    requires sep != []
    ensures forall k :: 0 <= k < |Split(s, sep)| ==> !Contains(Split(s, sep)[k], sep)
    decreases |s|
  {
    var r := IndexOf(s, sep);
    if r.Some? {
      var i := r.value;
      var rest := s[i + |sep|..];
      SplitPartsFree(rest, sep);
      PrefixFree(s, sep, i);
      assert Split(s, sep) == [s[..i]] + Split(rest, sep);
    }
  }

  /** Parts of a split occur in the split string. */
  lemma {:induction false} SplitPartsOccur(s: string, sep: string)
    requires sep != []
    ensures forall k :: 0 <= k < |Split(s, sep)| ==> Contains(s, Split(s, sep)[k])
    decreases |s|
  {
    if Contains(s, sep) {
      var i := SplitStep(s, sep);
      var rest := s[i + |sep|..];
      var parts := Split(rest, sep);
      SplitPartsOccur(rest, sep);
      assert OccursAt(s, s[..i], 0);
      forall k | 1 <= k < |Split(s, sep)|
        ensures Contains(s, Split(s, sep)[k])
      {
        assert Split(s, sep)[k] == parts[k - 1];
        var j: nat :| j <= |rest| && OccursAt(rest, parts[k - 1], j);
        OccursShifted(s[..i + |sep|], rest, parts[k - 1], j);
        assert s[..i + |sep|] + rest == s;
      }
    } else {
      SplitAbsent(s, sep);
      assert OccursAt(s, s, 0);
    }
  }

  /** Scanning past a stretch without occurrences does not change the count. */
  lemma {:induction false} CountSkip(s: string, p: string, i: nat)
    requires p != [] && i <= |s|
    requires forall j: nat :: j < i ==> !OccursAt(s, p, j)
    ensures Count(s, p) == Count(s[i..], p)
    decreases i
  {
    if i > 0 {
      OccursAtTail(s, p);
      if |s| >= |p| {
        assert !OccursAt(s, p, 0);
        CountSkip(s[1..], p, i - 1);
        assert s[1..][i - 1..] == s[i..];
      } else {
        assert |s[i..]| < |p|;
      }
    }
  }

  /** A string without `p` counts none. */
  lemma CountNone(s: string, p: string)
    requires p != [] && !Contains(s, p)
    ensures Count(s, p) == 0
  {
    CountSkip(s, p, |s|);
    assert s[|s|..] == [];
  }

  /** The count starts at the leftmost occurrence and goes on after it. */
  lemma CountFirst(s: string, p: string, i: nat)
    requires p != [] && IndexOf(s, p) == Some(i)
    ensures Count(s, p) == 1 + Count(s[i + |p|..], p)
  {
    CountSkip(s, p, i);
    assert s[i..][..|p|] == s[i..i + |p|];
    assert OccursAt(s[i..], p, 0);
    assert s[i..][|p|..] == s[i + |p|..];
  }

  /** There is one more part than there are separators: `len(s.split(sep)) ==
      s.count(sep) + 1`. */
  lemma {:induction false} SplitLength(s: string, sep: string)
    requires sep != []
    ensures |Split(s, sep)| == Count(s, sep) + 1
    decreases |s|
  {
    var r := IndexOf(s, sep);
    if r.None? {
      CountNone(s, sep);
    } else {
      var i := r.value;
      var rest := s[i + |sep|..];
      SplitLength(rest, sep);
      CountFirst(s, sep, i);
      assert Split(s, sep) == [s[..i]] + Split(rest, sep);
    }
  }

  /** A one-character separator that `a` lacks cuts right after `a`. */
  lemma SplitAfterChar(a: string, sep: string, b: string)
    requires |sep| == 1 && sep[0] !in a
    ensures Split(a + sep + b, sep) == [a] + Split(b, sep)
  {
    assert sep[..|sep| - 1] == [] && a + [] == a;
    MissingCharacter(a, sep, 0);
    SplitAfter(a, sep, b);
  }

  /** `(x + sep + s).split(sep)[-1] == s` for a one-character separator that
      `s` lacks: the last part is what follows the last separator. */
  lemma {:induction false} SplitLastPart(x: string, sep: string, s: string)
    requires |sep| == 1 && !Contains(s, sep)
    ensures var parts := Split(x + sep + s, sep); parts[|parts| - 1] == s
    decreases |x|
  {
    if Contains(x, sep) {
      var k := CutInPrefix(x, sep, s);
      var tail := Split(x[k + 1..] + sep + s, sep);
      SplitLastPart(x[k + 1..], sep, s);
      assert ([x[..k]] + tail)[|tail|] == tail[|tail| - 1];
    } else {
      CutAfterPrefix(x, sep, s);
    }
  }

  /** The first cut of `x + sep + s` falls at the first separator in `x`. */
  lemma CutInPrefix(x: string, sep: string, s: string) returns (k: nat)
    requires |sep| == 1 && Contains(x, sep)
    ensures k < |x|
    ensures Split(x + sep + s, sep) == [x[..k]] + Split(x[k + 1..] + sep + s, sep)
  {
    k := IndexOf(x, sep).value;
    PrefixClear(x, sep, k, k);
    assert x[..k] + sep[..|sep| - 1] == x[..k];
    RegroupAround(x, sep, s, k);
    SplitAfterAt(x + sep + s, x[..k], sep, x[k + 1..] + sep + s);
  }

  lemma RegroupAround(x: string, sep: string, s: string, k: nat)
    requires OccursAt(x, sep, k)
    ensures x + sep + s == x[..k] + sep + (x[k + |sep|..] + sep + s)
  {
    assert x == x[..k] + sep + x[k + |sep|..];
  }

  /** With no separator in `x` or `s`, `x + sep + s` splits into the two. */
  lemma CutAfterPrefix(x: string, sep: string, s: string)
    requires |sep| == 1 && !Contains(x, sep) && !Contains(s, sep)
    ensures Split(x + sep + s, sep) == [x, s]
  {
    assert x + sep[..|sep| - 1] == x;
    SplitAfter(x, sep, s);
    SplitAbsent(s, sep);
  }

  /** A prefix of `s` too short to hold an occurrence starting at `k` or
      later holds none, when none starts before `k`. */
  lemma PrefixClear(s: string, q: string, k: nat, n: nat)
    requires q != [] && n <= |s| && n < k + |q|
    requires forall j: nat | j < k :: !OccursAt(s, q, j)
    ensures !Contains(s[..n], q)
  {
    forall j: nat | j <= n ensures !OccursAt(s[..n], q, j) {
      if j + |q| <= n {
        assert j < k && !OccursAt(s, q, j);
        assert s[..n][j..j + |q|] == s[j..j + |q|];
      }
    }
  }

  /** Past `w`, the occurrences in `w + a` are those in `a`, shifted. */
  lemma OccursPast(w: string, a: string, q: string, j: nat)
    requires |w| <= j
    ensures OccursAt(w + a, q, j) <==> OccursAt(a, q, j - |w|)
  {
    if j + |q| <= |w + a| {
      assert (w + a)[j..j + |q|] == a[j - |w|..j - |w| + |q|];
    }
  }

  /** When no occurrence of `q` starts inside `w`, the first part of
      `(w + a).split(q)` is `w` followed by the first part of `a.split(q)`. */
  lemma SplitKeepsPrefix(w: string, a: string, q: string)
    requires q != [] && forall j: nat | j < |w| :: !OccursAt(w + a, q, j)
    ensures Split(w + a, q)[0] == w + Split(a, q)[0]
  {
    if Contains(a, q) {
      FirstCutPast(w, a, q);
    } else {
      NoCutAtAll(w, a, q);
    }
  }

  lemma NoCutAtAll(w: string, a: string, q: string)
    requires q != [] && forall j: nat | j < |w| :: !OccursAt(w + a, q, j)
    requires !Contains(a, q)
    ensures Split(w + a, q)[0] == w + Split(a, q)[0]
  {
    var s := w + a;
    forall j: nat | j <= |s| ensures !OccursAt(s, q, j) {
      if |w| <= j {
        OccursPast(w, a, q, j);
      }
    }
    SplitAbsent(s, q);
    SplitAbsent(a, q);
  }

  lemma FirstCutPast(w: string, a: string, q: string)
    requires q != [] && forall j: nat | j < |w| :: !OccursAt(w + a, q, j)
    requires Contains(a, q)
    ensures Split(w + a, q)[0] == w + Split(a, q)[0]
  {
    var k := SplitStep(a, q);
    var a1, a2 := a[..k], a[k + |q|..];
    ClearBeforeFirst(w, a, q, k);
    ClearBeforeFirst([], a, q, k);
    assert [] + a == a && [] + a1 + q[..|q| - 1] == a1 + q[..|q| - 1];
    Regroup(w, a, q, k);
    SplitAfterAt(w + a, w + a1, q, a2);
    SplitAfterAt(a, a1, q, a2);
  }

  lemma Regroup(w: string, a: string, q: string, k: nat)
    requires OccursAt(a, q, k)
    ensures w + a == (w + a[..k]) + q + a[k + |q|..]
  {
    assert a == a[..k] + q + a[k + |q|..];
  }

  /** Nothing in `w + a` starts before the first occurrence in `a`, so the
      text up to it, short of a whole `q`, holds none. */
  lemma ClearBeforeFirst(w: string, a: string, q: string, k: nat)
    requires q != [] && forall j: nat | j < |w| :: !OccursAt(w + a, q, j)
    requires OccursAt(a, q, k) && forall j: nat | j < k :: !OccursAt(a, q, j)
    ensures !Contains(w + a[..k] + q[..|q| - 1], q)
  {
    forall j: nat | j < |w| + k ensures !OccursAt(w + a, q, j) {
      if |w| <= j {
        OccursPast(w, a, q, j);
      }
    }
    PrefixClear(w + a, q, |w| + k, |w| + k + |q| - 1);
    assert (w + a)[..|w| + k + |q| - 1] == w + a[..k] + q[..|q| - 1] by {
      assert a[..k + |q|] == a[..k] + q;
    }
  }

  /** `SplitAfter`, read on a text given whole. */
  lemma SplitAfterAt(s: string, a: string, sep: string, b: string)
    requires sep != [] && !Contains(a + sep[..|sep| - 1], sep)
    requires s == a + sep + b
    ensures Split(s, sep) == [a] + Split(b, sep)
  {
    SplitAfter(a, sep, b);
  }

  /** When the first separator ends right after `a` (no occurrence starts
      inside `a`), splitting `a + sep + b` cuts there first. */
  lemma SplitAfter(a: string, sep: string, b: string)
    requires sep != [] && !Contains(a + sep[..|sep| - 1], sep)
    ensures Split(a + sep + b, sep) == [a] + Split(b, sep)
  {
    var s := a + sep + b;
    var a' := a + sep[..|sep| - 1];
    assert OccursAt(s, sep, |a|) by {
      assert s[|a|..|a| + |sep|] == sep;
    }
    forall j: nat | j < |a| ensures !OccursAt(s, sep, j) {
      if OccursAt(s, sep, j) {
        EarlyOccurrence(a, sep, b, j);
      }
    }
    assert IndexOf(s, sep) == Some(|a|);
    assert s[..|a|] == a;
    assert s[|a| + |sep|..] == b;
  }

  lemma EarlyOccurrence(a: string, sep: string, b: string, j: nat)
    requires sep != [] && j < |a| && OccursAt(a + sep + b, sep, j)
    ensures OccursAt(a + sep[..|sep| - 1], sep, j)
  {
    assert (a + sep + b)[j..j + |sep|] == (a + sep[..|sep| - 1])[j..j + |sep|];
  }

  // ---------------------------------------------------------------------
  // Replace
  // ---------------------------------------------------------------------

  /** `s.replace(pat, rep) == rep.join(s.split(pat))`. */
  lemma {:induction false} ReplaceIsJoinOfSplit(s: string, pat: string, rep: string)
    requires pat != []
    ensures Replace(s, pat, rep) == Join(Split(s, pat), rep)
    decreases |s|
  {
    var r := IndexOf(s, pat);
    if r.Some? {
      var i := r.value;
      var rest := s[i + |pat|..];
      ReplaceIsJoinOfSplit(rest, pat, rep);
      var parts := Split(rest, pat);
      assert Split(s, pat) == [s[..i]] + parts;
      assert ([s[..i]] + parts)[1..] == parts;
    }
  }

  /** Replacing a pattern that does not occur changes nothing. */
  lemma ReplaceAbsent(s: string, pat: string, rep: string)
    requires pat != [] && !Contains(s, pat)
    ensures Replace(s, pat, rep) == s
  {
  }

  /** `a` and `q` agree as far as both go: an occurrence of `q` could start at
      the beginning of `a` and run on past its end. */
  predicate Compatible(a: string, q: string) {
    if |a| >= |q| then a[..|q|] == q else q[..|a|] == a
  }

  /** No occurrence of `q` can overlap an inserted `rep`: its first character
      is not in `q`, and no occurrence can start inside it. */
  predicate Sealed(rep: string, q: string) {
    q != [] && rep != [] && rep[0] !in q && forall k | 1 <= k < |rep| :: !Compatible(rep[k..], q)
  }

  /** An occurrence that starts inside `rep` agrees with `rep` as far as `rep` goes. */
  lemma OccurrenceInside(rep: string, t: string, q: string, j: nat)
    requires q != [] && j < |rep| && OccursAt(rep + t, q, j)
    ensures rep[j] in q && Compatible(rep[j..], q)
  {
    var w := (rep + t)[j..j + |q|];
    assert w[0] == rep[j];
    if |rep[j..]| >= |q| {
      assert rep[j..][..|q|] == w;
    } else {
      assert w[..|rep[j..]|] == rep[j..];
    }
  }

  /** Putting a sealed string in front of text without `q` does not create `q`. */
  lemma SealedPrefix(rep: string, q: string, t: string)
    requires Sealed(rep, q) && !Contains(t, q)
    ensures !Contains(rep + t, q)
  {
    forall j: nat | j <= |rep + t| ensures !OccursAt(rep + t, q, j) {
      if OccursAt(rep + t, q, j) {
        if j < |rep| {
          OccurrenceInside(rep, t, q, j);
        } else {
          OccursInConcat(rep, t, q, j);
        }
      }
    }
  }

  /** Replacing `pat` by a string sealed against `q` leaves no `q` behind when
      `q` is `pat` itself or did not occur to begin with. */
  lemma {:induction false} ReplaceLeavesOut(s: string, pat: string, rep: string, q: string)
    requires pat != [] && Sealed(rep, q)
    requires q == pat || !Contains(s, q)
    ensures !Contains(Replace(s, pat, rep), q)
    decreases |s|
  {
    var r := IndexOf(s, pat);
    if r.Some? {
      var i := r.value;
      SuffixFree(s, q, i + |pat|);
      ReplaceLeavesOut(s[i + |pat|..], pat, rep, q);
      ReplaceLeavesOutStep(s, pat, rep, q, i);
    }
  }

  /** The step of `ReplaceLeavesOut`: the text before the leftmost `pat`, then
      the sealed `rep`, then a tail already free of `q`. */
  lemma ReplaceLeavesOutStep(s: string, pat: string, rep: string, q: string, i: nat)
    requires pat != [] && Sealed(rep, q) && IndexOf(s, pat) == Some(i)
    requires q == pat || !Contains(s, q)
    requires !Contains(Replace(s[i + |pat|..], pat, rep), q)
    ensures !Contains(Replace(s, pat, rep), q)
  {
    var t := Replace(s[i + |pat|..], pat, rep);
    assert Replace(s, pat, rep) == s[..i] + (rep + t);
    SealedPrefix(rep, q, t);
    HeadFree(s, pat, q, i);
    InTail(q, rep[0]);
    NoOccurrenceAcross(s[..i], rep + t, q);
  }

  /** What follows a cut holds no `q` if the whole did not. */
  lemma SuffixFree(s: string, q: string, k: nat)
    requires k <= |s|
    ensures !Contains(s, q) ==> !Contains(s[k..], q)
  {
    assert s == s[..k] + s[k..];
    ContainsInPart(s[..k], s[k..], q);
  }

  lemma InTail(q: string, c: char)
    requires q != []
    ensures c in q[1..] ==> c in q
  {
  }

  /** What comes before the leftmost `pat` holds no `q` when `q` is `pat` or
      does not occur at all. */
  lemma HeadFree(s: string, pat: string, q: string, i: nat)
    requires pat != [] && q != [] && IndexOf(s, pat) == Some(i)
    requires q == pat || !Contains(s, q)
    ensures !Contains(s[..i], q)
  {
    if q == pat {
      PrefixFree(s, pat, i);
    } else {
      assert s == s[..i] + s[i..];
      ContainsInPart(s[..i], s[i..], q);
    }
  }

  /** A replacement that puts in something non-blank cannot turn non-blank text
      blank, and blank text holds no occurrence to replace. */
  lemma ReplaceBlank(s: string, pat: string, rep: string)
    requires pat != [] && !AllSpace(rep)
    ensures AllSpace(Replace(s, pat, rep)) ==> Replace(s, pat, rep) == s
  {
    match IndexOf(s, pat)
    case None =>
    case Some(i) =>
      var r := Replace(s, pat, rep);
      var c :| c in rep && !IsSpace(c);
      assert c in r;
  }

  // ---------------------------------------------------------------------
  // Strip
  // ---------------------------------------------------------------------

  lemma {:induction false} TrimStartSpaces(a: string, x: string)
    requires AllSpace(a)
    ensures TrimStart(a + x) == TrimStart(x)
    decreases |a|
  {
    if a != [] {
      assert (a + x)[0] == a[0];
      assert (a + x)[1..] == a[1..] + x;
      assert a[0] in a;
      AllSpaceConcat([a[0]], a[1..]);
      assert a == [a[0]] + a[1..];
      TrimStartSpaces(a[1..], x);
    } else {
      assert a + x == x;
    }
  }

  lemma {:induction false} TrimEndSpaces(x: string, b: string)
    requires AllSpace(b)
    ensures TrimEnd(x + b) == TrimEnd(x)
    decreases |b|
  {
    if b != [] {
      assert (x + b)[|x + b| - 1] == b[|b| - 1];
      assert (x + b)[..|x + b| - 1] == x + b[..|b| - 1];
      assert b[|b| - 1] in b;
      AllSpaceConcat(b[..|b| - 1], [b[|b| - 1]]);
      assert b == b[..|b| - 1] + [b[|b| - 1]];
      TrimEndSpaces(x, b[..|b| - 1]);
    } else {
      assert x + b == x;
    }
  }

  lemma AllSpaceCons(x: string)
    requires x != []
    ensures AllSpace(x) <==> IsSpace(x[0]) && AllSpace(x[1..])
  {
    AllSpaceConcat([x[0]], x[1..]);
    assert x == [x[0]] + x[1..];
  }

  lemma {:induction false} TrimStartAppend(x: string, b: string)
    requires !AllSpace(x)
    ensures TrimStart(x + b) == TrimStart(x) + b
    decreases |x|
  {
    assert (x + b)[0] == x[0];
    AllSpaceCons(x);
    if IsSpace(x[0]) {
      assert (x + b)[1..] == x[1..] + b;
      TrimStartAppend(x[1..], b);
    }
  }

  /** A blank string strips to nothing from the left. */
  lemma TrimStartBlank(b: string)
    requires AllSpace(b)
    ensures TrimStart(b) == []
  {
  }

  /** Blank padding on either side does not change what `strip()` returns. */
  lemma StripPadded(a: string, s: string, b: string)
    requires AllSpace(a) && AllSpace(b)
    ensures Strip(a + s + b) == Strip(s)
  {
    assert a + s + b == a + (s + b);
    TrimStartSpaces(a, s + b);
    if AllSpace(s) {
      TrimStartSpaces(s, b);
      TrimStartBlank(b);
      TrimStartBlank(s);
    } else {
      TrimStartAppend(s, b);
      TrimEndSpaces(TrimStart(s), b);
    }
  }

  lemma AllSpaceConcat(a: string, b: string)
    ensures AllSpace(a + b) <==> AllSpace(a) && AllSpace(b)
  {
    if AllSpace(a) && AllSpace(b) {
      forall c | c in a + b ensures IsSpace(c) {
        assert c in a || c in b;
      }
    }
    if AllSpace(a + b) {
      forall c | c in a ensures IsSpace(c) { assert c in a + b; }
      forall c | c in b ensures IsSpace(c) { assert c in a + b; }
    }
  }

  /** `strip()` keeps a contiguous piece of its argument and removes only
      blanks around it. */
  lemma StripSlice(s: string) returns (i: nat, j: nat)
    ensures i <= j <= |s| && Strip(s) == s[i..j]
    ensures AllSpace(s[..i]) && AllSpace(s[j..])
  {
    var t := TrimStart(s);
    var r := TrimEnd(t);
    TrimStartCut(s);
    TrimEndCut(t);
    i := |s| - |t|;
    j := i + |r|;
    assert AllSpace(s[..i]) && t == s[i..];
    assert r == t[..|r|] == s[i..j];
    assert AllSpace(t[|r|..]) && t[|r|..] == s[j..];
  }

  /** `s.strip()` is empty exactly when `s` is blank. */
  lemma StripBlank(s: string)
    ensures Strip(s) == [] <==> AllSpace(s)
  {
    var i, j := StripSlice(s);
    assert s == s[..i] + s[i..j] + s[j..];
    AllSpaceConcat(s[..i], s[i..j]);
    AllSpaceConcat(s[..i] + s[i..j], s[j..]);
    if Strip(s) != [] {
      assert !IsSpace(s[i..j][0]);
    }
  }

  /** A string that neither starts nor ends with a blank is its own `strip()`. */
  lemma StripUnchanged(s: string)
    requires s == [] || (!IsSpace(s[0]) && !IsSpace(s[|s| - 1]))
    ensures Strip(s) == s
  {
    assert TrimStart(s) == s;
  }

  /** What `strip()` returns occurs in its argument. */
  lemma StripOccurs(s: string)
    ensures Contains(s, Strip(s))
  {
    var i, j := StripSlice(s);
    assert OccursAt(s, Strip(s), i);
  }

  /** `strip()` is idempotent. */
  lemma StripIdempotent(s: string)
    ensures Strip(Strip(s)) == Strip(s)
  {
    var i, j := StripSlice(s);
    assert s == s[..i] + s[i..j] + s[j..];
    StripPadded(s[..i], Strip(s), s[j..]);
  }

  /** Occurrence is transitive: what occurs in a part of `s` occurs in `s`. */
  lemma ContainsTransitive(s: string, t: string, u: string)
    requires Contains(s, t) && Contains(t, u)
    ensures Contains(s, u)
  {
    var i: nat :| i <= |s| && OccursAt(s, t, i);
    var j: nat :| j <= |t| && OccursAt(t, u, j);
    assert t == s[i..i + |t|];
    assert forall k | 0 <= k < |u| :: s[i + j + k] == t[j + k] == u[k];
    assert s[i + j..i + j + |u|] == u;
    assert OccursAt(s, u, i + j);
  }

  /** What does not occur in `s` does not occur in any part of `s`. */
  lemma AbsentFromPart(s: string, t: string, u: string)
    requires Contains(s, t) && !Contains(s, u)
    ensures !Contains(t, u)
  {
    if Contains(t, u) {
      ContainsTransitive(s, t, u);
    }
  }

  /** `strip()` introduces nothing its argument lacks. */
  lemma StripLacks(s: string, q: string)
    requires !Contains(s, q)
    ensures !Contains(Strip(s), q)
  {
    StripOccurs(s);
    AbsentFromPart(s, Strip(s), q);
  }
}
