/** String operations of Python's `str` that the scripts rely on, over `seq<char>`. */
module Text {
  import opened Wrappers

  /** True when `pat` occurs in `s` starting at index `i`. */
  predicate OccursAt(s: string, pat: string, i: nat) {
    i + |pat| <= |s| && s[i..i + |pat|] == pat
  }

  /** Python's `pat in s`. */
  predicate Contains(s: string, pat: string) {
    exists i: nat | i <= |s| :: OccursAt(s, pat, i)
  }

  /** Leftmost occurrence of `pat` in `s` at or after `from` (Python's `s.find(pat, from)`). */
  function FindFrom(s: string, pat: string, from: nat): (r: Option<nat>)
    ensures r.Some? ==> from <= r.value && OccursAt(s, pat, r.value)
    ensures r.Some? ==> forall j: nat :: from <= j < r.value ==> !OccursAt(s, pat, j)
    ensures r.None? ==> forall j: nat :: from <= j ==> !OccursAt(s, pat, j)
    decreases |s| - from
  {
    if from + |pat| > |s| then None
    else if OccursAt(s, pat, from) then Some(from)
    else FindFrom(s, pat, from + 1)
  }

  /** Leftmost occurrence of `pat` in `s` (Python's `s.find(pat)`, with `None` for -1). */
  function Find(s: string, pat: string): (r: Option<nat>)
    ensures r.Some? <==> Contains(s, pat)
    ensures r.Some? ==> OccursAt(s, pat, r.value)
    ensures r.Some? ==> forall j: nat :: j < r.value ==> !OccursAt(s, pat, j)
  {
    FindFrom(s, pat, 0)
  }

  /** `Find` reports the occurrence that has no earlier one. */
  lemma FindUnique(s: string, pat: string, q: nat)
    requires OccursAt(s, pat, q)
    requires forall j: nat :: j < q ==> !OccursAt(s, pat, j)
    ensures Find(s, pat) == Some(q)
  {
    assert Contains(s, pat);
  }

  /** A position whose character differs from the pattern's first one starts no occurrence. */
  lemma NotOccursAtFirstChar(s: string, pat: string, j: nat)
    requires |pat| > 0
    requires j < |s| ==> s[j] != pat[0]
    ensures !OccursAt(s, pat, j)
  {
  }

  /** An occurrence inside a prefix of `s` is an occurrence in `s` that ends within the prefix. */
  lemma OccursAtPrefix(s: string, pat: string, n: nat, j: nat)
    requires n <= |s|
    ensures OccursAt(s[..n], pat, j) <==> j + |pat| <= n && OccursAt(s, pat, j)
  {
    if j + |pat| <= n {
      assert s[..n][j..j + |pat|] == s[j..j + |pat|];
    }
  }

  /** An occurrence inside a suffix of `s` is an occurrence in `s`, shifted. */
  lemma OccursAtSuffix(s: string, pat: string, n: nat, j: nat)
    requires n <= |s|
    ensures OccursAt(s[n..], pat, j) <==> OccursAt(s, pat, n + j)
  {
    if n + j + |pat| <= |s| {
      assert s[n..][j..j + |pat|] == s[n + j..n + j + |pat|];
    }
  }

  /** Python's `sep.join(parts)`. */
  function Join(sep: string, parts: seq<string>): string
  {
    if |parts| == 0 then ""
    else if |parts| == 1 then parts[0]
    else parts[0] + sep + Join(sep, parts[1..])
  }

  /** Python's `s.split(sep)` for a non-empty separator: the pieces between the
      non-overlapping occurrences of `sep`, found left to right. */
  function Split(s: string, sep: string): (parts: seq<string>)
    requires |sep| > 0
    ensures |parts| >= 1
    ensures |parts| == 1 <==> !Contains(s, sep)
    ensures forall k :: 0 <= k < |parts| ==> !Contains(parts[k], sep)
    ensures Join(sep, parts) == s
    ensures forall k :: 0 <= k < |parts| - 1 ==> Find(parts[k] + sep, sep) == Some(|parts[k]|)
    decreases |s|
  {
    match Find(s, sep)
    case None => [s]
    case Some(p) =>
      var rest := Split(s[p + |sep|..], sep);
      SplitStep(s, sep, p, rest);
      [s[..p]] + rest
  }

  /** One step of `Split`: the text before the first separator, followed by the
      pieces of what comes after it, has every property `Split` promises. */
  lemma SplitStep(s: string, sep: string, p: nat, rest: seq<string>)
    requires |sep| > 0
    requires Find(s, sep) == Some(p)
    requires |rest| >= 1
    requires forall k :: 0 <= k < |rest| ==> !Contains(rest[k], sep)
    requires Join(sep, rest) == s[p + |sep|..]
    requires forall k :: 0 <= k < |rest| - 1 ==> Find(rest[k] + sep, sep) == Some(|rest[k]|)
    ensures var parts := [s[..p]] + rest;
      && |parts| >= 2 && Contains(s, sep)
      && (forall k :: 0 <= k < |parts| ==> !Contains(parts[k], sep))
      && Join(sep, parts) == s
      && (forall k :: 0 <= k < |parts| - 1 ==> Find(parts[k] + sep, sep) == Some(|parts[k]|))
  {
    var parts := [s[..p]] + rest;
    NoOccurrenceBeforeFirst(s, sep, p);
    assert s == s[..p] + sep + s[p + |sep|..] by {
      assert s[p..p + |sep|] == sep;
    }
    assert parts[1..] == rest;
    CutIsLeftmost(s, sep, p);
    forall k | 1 <= k < |parts| ensures parts[k] == rest[k - 1] && !Contains(parts[k], sep) {
    }
  }

  /** The text up to and including the first separator has its only leftmost
      occurrence of the separator at the end: each cut of `Split` is leftmost. */
  lemma CutIsLeftmost(s: string, sep: string, p: nat)
    requires Find(s, sep) == Some(p)
    ensures Find(s[..p] + sep, sep) == Some(p)
  {
    var n := p + |sep|;
    assert s[..p] + sep == s[..n] by {
      assert s[p..n] == sep;
    }
    OccursAtPrefix(s, sep, n, p);
    forall j: nat | j < p ensures !OccursAt(s[..n], sep, j) {
      OccursAtPrefix(s, sep, n, j);
    }
    FindUnique(s[..n], sep, p);
  }

  /** The text before the first occurrence of `sep` holds no occurrence of `sep`. */
  lemma NoOccurrenceBeforeFirst(s: string, sep: string, p: nat)
    requires |sep| > 0
    requires Find(s, sep) == Some(p)
    ensures !Contains(s[..p], sep)
  {
    forall j: nat
      ensures !OccursAt(s[..p], sep, j)
    {
      OccursAtPrefix(s, sep, p, j);
    }
  }

  /** Python's `s.split(sep)[0]`: everything before the first `sep`, or all of `s`. */
  function BeforeFirst(s: string, sep: string): (r: string)
    requires |sep| > 0
    ensures !Contains(r, sep)
    ensures r <= s
  {
    match Find(s, sep)
    case None => s
    case Some(p) => NoOccurrenceBeforeFirst(s, sep, p); s[..p]
  }

  /** Piece 0 of a split is the text before the first separator, and piece 1, when
      there is one, is the text between the first separator and the next. */
  lemma SplitLeadingPieces(s: string, sep: string)
    requires |sep| > 0
    ensures Split(s, sep)[0] == BeforeFirst(s, sep)
    ensures |Split(s, sep)| >= 2 ==>
      Split(s, sep)[1] == BeforeFirst(s[Find(s, sep).value + |sep|..], sep)
  {
    match Find(s, sep)
    case None =>
    case Some(p) =>
      SplitLeadingPieces(s[p + |sep|..], sep);
  }

  /** Rejoining every piece after the first gives the text after the first separator,
      or nothing when there is no separator. */
  lemma {:induction false} JoinAfterFirstPiece(s: string, sep: string)
    requires |sep| > 0
    ensures Join(sep, Split(s, sep)[1..]) == (match Find(s, sep)
                                              case None => ""
                                              case Some(p) => s[p + |sep|..])
  {
    match Find(s, sep)
    case None =>
    case Some(p) =>
      assert Split(s, sep)[1..] == Split(s[p + |sep|..], sep);
  }

  /** A suffix of a string that lacks `pat` lacks `pat` too. */
  lemma SuffixKeepsAbsence(s: string, pat: string, n: nat)
    requires n <= |s|
    requires !Contains(s, pat)
    ensures !Contains(s[n..], pat)
  {
    forall j: nat
      ensures !OccursAt(s[n..], pat, j)
    {
      OccursAtSuffix(s, pat, n, j);
    }
  }

  /** Python's `str.find(c)` for one character: the first index of `c`, or -1. */
  function FindChar(s: string, c: char): (r: int)
    ensures -1 <= r < |s|
    ensures r >= 0 ==> s[r] == c && forall j :: 0 <= j < r ==> s[j] != c
    ensures r == -1 <==> c !in s
  {
    if |s| == 0 then -1
    else if s[0] == c then 0
    else var r := FindChar(s[1..], c); if r == -1 then -1 else r + 1
  }

  /** Python's `str.rfind(c)` for one character: the last index of `c`, or -1. */
  function RFindChar(s: string, c: char): (r: int)
    ensures -1 <= r < |s|
    ensures r >= 0 ==> s[r] == c && forall j :: r < j < |s| ==> s[j] != c
    ensures r == -1 <==> c !in s
  {
    if |s| == 0 then -1
    else if s[|s| - 1] == c then |s| - 1
    else RFindChar(s[..|s| - 1], c)
  }

  /** The ASCII letters and digits: the model's stand-in for Python's `str.isalnum`. */
  predicate IsAlnum(c: char) {
    ('a' <= c <= 'z') || ('A' <= c <= 'Z') || ('0' <= c <= '9')
  }

  /** Python's `str.lower` restricted to the ASCII capitals. */
  function Lower(s: string): (r: string)
    ensures |r| == |s|
    ensures forall i :: 0 <= i < |s| ==>
      r[i] == (if 'A' <= s[i] <= 'Z' then (s[i] as int + 32) as char else s[i])
  {
    if |s| == 0 then ""
    else [if 'A' <= s[0] <= 'Z' then (s[0] as int + 32) as char else s[0]] + Lower(s[1..])
  }

  /** Python's string comparison `a < b`: lexicographic on code points, a proper prefix first. */
  predicate LexLess(a: string, b: string)
  {
    if |a| == 0 then |b| > 0
    else if |b| == 0 then false
    else a[0] < b[0] || (a[0] == b[0] && LexLess(a[1..], b[1..]))
  }

  /** A common prefix does not change the comparison. */
  lemma {:induction false} LexLessCommonPrefix(p: string, a: string, b: string)
    ensures LexLess(p + a, p + b) <==> LexLess(a, b)
  {
    if |p| > 0 {
      assert (p + a)[1..] == p[1..] + a;
      assert (p + b)[1..] == p[1..] + b;
      LexLessCommonPrefix(p[1..], a, b);
    } else {
      assert p + a == a && p + b == b;
    }
  }

  /** Two strings of equal length keep their order whatever follows them. */
  lemma {:induction false} LexLessEqualLength(a: string, b: string, x: string, y: string)
    requires |a| == |b|
    requires LexLess(a, b)
    ensures LexLess(a + x, b + y)
  {
    assert |a| > 0;
    if a[0] != b[0] {
    } else {
      assert (a + x)[1..] == a[1..] + x;
      assert (b + y)[1..] == b[1..] + y;
      LexLessEqualLength(a[1..], b[1..], x, y);
    }
  }

  /** Extending two equal-length strings by one character: the earlier
      difference decides, otherwise the last character does. */
  lemma {:induction false} LexLessSnoc(a: string, b: string, x: char, y: char)
    requires |a| == |b|
    requires LexLess(a, b) || (a == b && x < y)
    ensures LexLess(a + [x], b + [y])
  {
    if LexLess(a, b) {
      LexLessEqualLength(a, b, [x], [y]);
    } else {
      LexLessCommonPrefix(a, [x], [y]);
    }
  }
}
