/** The Python `str` built-ins the pipeline relies on, over `seq<char>`:
    `isspace`/`strip`, `join`, `split(sep)[0]`, `split(sep)[-1]`,
    `endswith` and `str(int)`. */
module Strings {

  /** Python's `str.isspace` for one character: the ASCII controls 0x09-0x0D
      and 0x1C-0x1F, the space, and the Unicode spaces and separators. */
  predicate IsSpace(c: char) {
    c == ' ' || ('\U{9}' <= c <= '\U{D}') || ('\U{1C}' <= c <= '\U{1F}')
    || c == '\U{85}' || c == '\U{A0}' || c == '\U{1680}'
    || ('\U{2000}' <= c <= '\U{200A}') || c == '\U{2028}' || c == '\U{2029}'
    || c == '\U{202F}' || c == '\U{205F}' || c == '\U{3000}'
  }

  /** No whitespace at either end. */
  predicate Stripped(s: string) {
    s == [] || (!IsSpace(s[0]) && !IsSpace(s[|s| - 1]))
  }

  /** The first index at or after `i` that is not whitespace (or `|s|`). */
  function SkipSpace(s: string, i: nat): (k: nat)
    requires i <= |s|
    ensures i <= k <= |s| && (k < |s| ==> !IsSpace(s[k]))
    decreases |s| - i
  {
    if i < |s| && IsSpace(s[i]) then SkipSpace(s, i + 1) else i
  }

  /** The end, at or before `j` and not below `lo`, once trailing whitespace
      before `j` is dropped. */
  function SkipSpaceBack(s: string, lo: nat, j: nat): (k: nat)
    requires lo <= j <= |s|
    ensures lo <= k <= j && (k > lo ==> !IsSpace(s[k - 1]))
    decreases j
  {
    if j > lo && IsSpace(s[j - 1]) then SkipSpaceBack(s, lo, j - 1) else j
  }

  lemma {:induction false} SkipSpaceCuts(s: string, i: nat)
    requires i <= |s|
    ensures forall m :: i <= m < SkipSpace(s, i) ==> IsSpace(s[m])
    decreases |s| - i
  {
    if i < |s| && IsSpace(s[i]) {
      SkipSpaceCuts(s, i + 1);
    }
  }

  lemma {:induction false} SkipSpaceBackCuts(s: string, lo: nat, j: nat)
    requires lo <= j <= |s|
    ensures forall m :: SkipSpaceBack(s, lo, j) <= m < j ==> IsSpace(s[m])
    decreases j
  {
    if j > lo && IsSpace(s[j - 1]) {
      SkipSpaceBackCuts(s, lo, j - 1);
    }
  }

  /** Where `s.strip()` starts: the number of leading whitespace characters. */
  function StripStart(s: string): (a: nat)
    ensures a <= |s|
  {
    SkipSpace(s, 0)
  }

  /** Where `s.strip()` ends. */
  function StripEnd(s: string): (e: nat)
    ensures StripStart(s) <= e <= |s|
  {
    SkipSpaceBack(s, StripStart(s), |s|)
  }

  /** `s.strip()`: the contiguous piece of `s` left once the whitespace at both
      ends is removed (what is cut off is whitespace, by StripCutsOnlySpace). */
  function Strip(s: string): (r: string)
    ensures Stripped(r)
    ensures StripStart(s) + |r| <= |s| && r == s[StripStart(s)..StripStart(s) + |r|]
  {
    s[StripStart(s)..StripEnd(s)]
  }

  lemma StripCutsOnlySpace(s: string)
    ensures var a, r := StripStart(s), Strip(s);
      (forall i :: 0 <= i < a ==> IsSpace(s[i]))
      && (forall i :: a + |r| <= i < |s| ==> IsSpace(s[i]))
  {
    SkipSpaceCuts(s, 0);
    SkipSpaceBackCuts(s, StripStart(s), |s|);
  }

  lemma StripFixpoint(s: string)
    requires Stripped(s)
    ensures Strip(s) == s
  {
  }

  lemma StripIdempotent(s: string)
    ensures Strip(Strip(s)) == Strip(s)
  {
    StripFixpoint(Strip(s));
  }

  /** `p` occurs in `s` starting at index `i`. */
  predicate OccursAt(s: string, p: string, i: int) {
    0 <= i && i + |p| <= |s| && s[i..i + |p|] == p
  }

  /** Python's `p in s`. */
  ghost predicate Contains(s: string, p: string) {
    exists i :: 0 <= i <= |s| && OccursAt(s, p, i)
  }

  /** An occurrence inside a slice is an occurrence in the whole string. */
  lemma OccursInSlice(s: string, p: string, a: int, b: int, i: int)
    requires 0 <= a <= b <= |s|
    ensures OccursAt(s[a..b], p, i) <==> (0 <= i && i + |p| <= b - a && OccursAt(s, p, a + i))
  {
    if 0 <= i && i + |p| <= b - a {
      var x, y := s[a..b][i..i + |p|], s[a + i..a + i + |p|];
      assert forall k :: 0 <= k < |p| ==> x[k] == y[k];
      assert x == y;
    }
  }

  lemma OccursInSuffix(s: string, p: string, a: int, i: int)
    requires 0 <= a <= |s|
    ensures OccursAt(s[a..], p, i) <==> (0 <= i && OccursAt(s, p, a + i))
  {
    assert s[a..] == s[a..|s|];
    OccursInSlice(s, p, a, |s|, i);
  }

  lemma NotContainsSlice(s: string, p: string, a: int, b: int)
    requires 0 <= a <= b <= |s|
    requires !Contains(s, p)
    ensures !Contains(s[a..b], p)
  {
    forall i | 0 <= i <= b - a
      ensures !OccursAt(s[a..b], p, i)
    {
      OccursInSlice(s, p, a, b, i);
      assert !OccursAt(s, p, a + i);
    }
  }

  /** Appending a character that cannot end `p` creates no occurrence of `p`. */
  lemma NotContainsAppend(s: string, p: string, c: char)
    requires |p| > 0 && p[|p| - 1] != c
    requires !Contains(s, p)
    ensures !Contains(s + [c], p)
  {
    var t := s + [c];
    forall i | 0 <= i <= |t|
      ensures !OccursAt(t, p, i)
    {
      if i + |p| <= |s| {
        assert t[i..i + |p|] == s[i..i + |p|];
        assert !OccursAt(s, p, i);
      } else if i + |p| == |t| {
        assert t[i..i + |p|][|p| - 1] == c;
      }
    }
  }

  /** The first character of `p` does not occur again in `p`, so two
      occurrences of `p` never overlap. */
  predicate FirstCharUnique(p: string) {
    forall d :: 0 < d < |p| ==> p[d] != p[0]
  }

  lemma NoOverlap(s: string, p: string, k: int)
    requires FirstCharUnique(p) && OccursAt(s, p, k)
    ensures forall j :: k < j < k + |p| ==> !OccursAt(s, p, j)
  {
    forall j | k < j < k + |p|
      ensures !OccursAt(s, p, j)
    {
      assert s[k..k + |p|][j - k] == s[j];
      assert s[j] != p[0];
      if j + |p| <= |s| {
        assert s[j..j + |p|][0] == s[j];
      }
    }
  }

  /** Python's `s.find(sep, i)`, except that "not found" is `|s|` rather
      than -1. */
  function FindFrom(s: string, sep: string, i: nat): (k: nat)
    requires |sep| > 0 && i <= |s|
    ensures i <= k <= |s| && (k < |s| ==> k + |sep| <= |s|)
    decreases |s| - i
  {
    if |s| - i < |sep| then |s|
    else if OccursAt(s, sep, i) then i
    else FindFrom(s, sep, i + 1)
  }

  /** What `FindFrom` finds: no occurrence starts in `[i, k)`, and one starts
      at `k` unless `k` is `|s|`. */
  lemma {:induction false} FindFromSpec(s: string, sep: string, i: nat)
    requires |sep| > 0 && i <= |s|
    ensures var k := FindFrom(s, sep, i);
      (forall j :: i <= j < k ==> !OccursAt(s, sep, j))
      && (k < |s| ==> OccursAt(s, sep, k))
    decreases |s| - i
  {
    if |s| - i < |sep| {
    } else if OccursAt(s, sep, i) {
    } else {
      FindFromSpec(s, sep, i + 1);
    }
  }

  /** Nothing found from `i` on means no occurrence starts at or after `i`. */
  lemma FindFromNone(s: string, sep: string, i: nat)
    requires |sep| > 0 && i <= |s| && FindFrom(s, sep, i) == |s|
    ensures forall j :: i <= j ==> !OccursAt(s, sep, j)
  {
    FindFromSpec(s, sep, i);
  }

  /** `s.find(sep)`, with `|s|` for "not found". */
  function FirstIndex(s: string, sep: string): (k: nat)
    requires |sep| > 0
    ensures k <= |s| && (k < |s| ==> k + |sep| <= |s|)
  {
    FindFrom(s, sep, 0)
  }

  /** The part before the first index has no occurrence, and the first index
      is the length of `s` exactly when `s` has none. */
  lemma FirstIndexFacts(s: string, sep: string)
    requires |sep| > 0
    ensures var k := FirstIndex(s, sep);
      !Contains(s[..k], sep) && (!Contains(s, sep) <==> k == |s|)
  {
    var k := FirstIndex(s, sep);
    FindFromSpec(s, sep, 0);
    forall i | 0 <= i <= k
      ensures !OccursAt(s[..k], sep, i)
    {
      OccursInSlice(s, sep, 0, k, i);
    }
    if k < |s| {
      assert OccursAt(s, sep, k);
    } else {
      FindFromNone(s, sep, 0);
    }
  }

  /** `s.split(sep)[0]`: the part of `s` before the first occurrence of `sep`,
      or all of `s` when `sep` does not occur. */
  function FirstPiece(s: string, sep: string): (r: string)
    requires |sep| > 0
    ensures |r| <= |s| && |r| == FirstIndex(s, sep)
  {
    s[..FirstIndex(s, sep)]
  }

  /** The first piece is a prefix free of the separator; the separator
      follows it when it occurs at all, and otherwise the piece is all of `s`. */
  lemma FirstPieceFacts(s: string, sep: string)
    requires |sep| > 0
    ensures var r := FirstPiece(s, sep);
      r == s[..|r|] && !Contains(r, sep) && (!Contains(s, sep) <==> r == s)
      && (Contains(s, sep) ==> OccursAt(s, sep, |r|))
  {
    FirstIndexFacts(s, sep);
    FindFromSpec(s, sep, 0);
  }

  /** The scan behind `s.split(sep)`, from index `i`: skip occurrence after
      occurrence, left to right, and return where the final piece starts. */
  function LastStartFrom(s: string, sep: string, i: nat): (k: nat)
    requires |sep| > 0 && i <= |s|
    ensures i <= k <= |s|
    decreases |s| - i
  {
    var f := FindFrom(s, sep, i);
    if f == |s| then i else LastStartFrom(s, sep, f + |sep|)
  }

  /** Where `s.split(sep)[-1]` starts: just after the last occurrence of `sep`
      that a left-to-right scan finds, or 0 when there is none. */
  function LastStart(s: string, sep: string): (k: nat)
    requires |sep| > 0
    ensures k <= |s|
  {
    LastStartFrom(s, sep, 0)
  }

  /** `s.split(sep)[-1]`: the part of `s` after the last occurrence of `sep`,
      or all of `s` when `sep` does not occur. */
  function LastPiece(s: string, sep: string): (r: string)
    requires |sep| > 0
    ensures |r| <= |s| && r == s[|s| - |r|..]
  {
    s[LastStart(s, sep)..]
  }

  lemma {:induction false} LastStartFromNoSep(s: string, sep: string, i: nat)
    requires |sep| > 0 && i <= |s|
    ensures forall j :: LastStartFrom(s, sep, i) <= j ==> !OccursAt(s, sep, j)
    decreases |s| - i
  {
    var f := FindFrom(s, sep, i);
    if f == |s| {
      FindFromNone(s, sep, i);
    } else {
      LastStartFromNoSep(s, sep, f + |sep|);
    }
  }

  /** The last piece contains no separator. */
  lemma LastPieceNoSep(s: string, sep: string)
    requires |sep| > 0
    ensures !Contains(LastPiece(s, sep), sep)
  {
    var k := LastStart(s, sep);
    LastStartFromNoSep(s, sep, 0);
    forall i | 0 <= i <= |s| - k
      ensures !OccursAt(s[k..], sep, i)
    {
      OccursInSuffix(s, sep, k, i);
    }
  }

  /** Without a separator, the last piece is the whole string. */
  lemma LastPieceWhole(s: string, sep: string)
    requires |sep| > 0 && !Contains(s, sep)
    ensures LastStart(s, sep) == 0 && LastPiece(s, sep) == s
  {
    FirstIndexFacts(s, sep);
  }

  lemma {:induction false} LastStartFromPreceded(s: string, sep: string, i: nat)
    requires |sep| > 0 && i <= |s| && FindFrom(s, sep, i) < |s|
    ensures var k := LastStartFrom(s, sep, i);
      k >= i + |sep| && OccursAt(s, sep, k - |sep|)
    decreases |s| - i
  {
    var f := FindFrom(s, sep, i);
    FindFromSpec(s, sep, i);
    var n := f + |sep|;
    assert LastStartFrom(s, sep, i) == LastStartFrom(s, sep, n);
    if FindFrom(s, sep, n) < |s| {
      LastStartFromPreceded(s, sep, n);
    } else {
      assert LastStartFrom(s, sep, n) == n;
    }
  }

  /** With a separator, the last piece starts right after an occurrence. */
  lemma LastPiecePreceded(s: string, sep: string)
    requires |sep| > 0 && Contains(s, sep)
    ensures var k := LastStart(s, sep); k >= |sep| && OccursAt(s, sep, k - |sep|)
  {
    FirstIndexFacts(s, sep);
    LastStartFromPreceded(s, sep, 0);
  }

  /** An occurrence at index `i` of `b` is an occurrence at `|a| + i` of
      `a + b`. */
  lemma OccursShift(a: string, b: string, p: string, i: nat)
    ensures OccursAt(a + b, p, |a| + i) <==> OccursAt(b, p, i)
  {
    if i + |p| <= |b| {
      assert (a + b)[|a| + i..|a| + i + |p|] == b[i..i + |p|];
    }
  }

  /** When `sep` cannot overlap itself, occurs ending at `e`, and never
      starts at or after `e`, a scan from any `i <= e - |sep|` ends at `e`. */
  lemma {:induction false} LastStartFromAt(s: string, sep: string, i: nat, e: nat)
    requires |sep| > 0 && FirstCharUnique(sep)
    requires i + |sep| <= e <= |s| && OccursAt(s, sep, e - |sep|)
    requires forall j :: e <= j ==> !OccursAt(s, sep, j)
    ensures LastStartFrom(s, sep, i) == e
    decreases e - i
  {
    var f := FindFrom(s, sep, i);
    FindFromSpec(s, sep, i);
    assert f <= e - |sep|;
    NoOverlap(s, sep, f);
    if f == e - |sep| {
      FindFromSpec(s, sep, e);
    } else {
      LastStartFromAt(s, sep, f + |sep|, e);
    }
  }

  /** The occurrence of `sep` at the end of `a` is one of `a + b`. */
  lemma OccursAtEnd(a: string, b: string, sep: string)
    requires |a| >= |sep| && a[|a| - |sep|..] == sep
    ensures OccursAt(a + b, sep, |a| - |sep|)
  {
    assert (a + b)[|a| - |sep|..|a|] == a[|a| - |sep|..];
  }

  /** When `a` ends with `sep` and `sep` cannot overlap itself, the last
      piece of `a + b` is the last piece of `b`, whatever `b` holds. */
  lemma LastPieceAfterAny(a: string, b: string, sep: string)
    requires |sep| > 0 && FirstCharUnique(sep)
    requires |a| >= |sep| && a[|a| - |sep|..] == sep
    ensures LastStart(a + b, sep) == |a| + LastStart(b, sep)
    ensures LastPiece(a + b, sep) == LastPiece(b, sep)
  {
    var s := a + b;
    var k := LastStart(b, sep);
    LastStartFromNoSep(b, sep, 0);
    if Contains(b, sep) {
      LastPiecePreceded(b, sep);
      OccursShift(a, b, sep, k - |sep|);
    } else {
      LastPieceWhole(b, sep);
      OccursAtEnd(a, b, sep);
    }
    forall j | |a| + k <= j
      ensures !OccursAt(s, sep, j)
    {
      OccursShift(a, b, sep, j - |a|);
    }
    LastStartFromAt(s, sep, 0, |a| + k);
    SuffixOfConcat(a, b, k);
  }

  /** For a separator that cannot overlap itself, the last piece is the only
      separator-free suffix that follows an occurrence: any such suffix
      starts where the scan's last piece starts. */
  lemma LastStartUnique(s: string, sep: string, k: nat)
    requires |sep| > 0 && FirstCharUnique(sep)
    requires |sep| <= k <= |s| && OccursAt(s, sep, k - |sep|)
    requires !Contains(s[k..], sep)
    ensures LastStart(s, sep) == k && LastPiece(s, sep) == s[k..]
  {
    forall j | k <= j
      ensures !OccursAt(s, sep, j)
    {
      OccursInSuffix(s, sep, k, j - k);
      if j + |sep| <= |s| {
        assert !OccursAt(s[k..], sep, j - k);
      }
    }
    LastStartFromAt(s, sep, 0, k);
  }

  lemma SuffixOfConcat(a: string, b: string, k: nat)
    requires k <= |b|
    ensures (a + b)[|a| + k..] == b[k..]
  {
  }

  /** When `a` ends with `sep`, `b` does not contain it and `sep` cannot
      overlap itself, the last piece of `a + b` is exactly `b`. */
  lemma LastPieceAfter(a: string, b: string, sep: string)
    requires |sep| > 0 && FirstCharUnique(sep)
    requires |a| >= |sep| && a[|a| - |sep|..] == sep
    requires !Contains(b, sep)
    ensures LastStart(a + b, sep) == |a| && LastPiece(a + b, sep) == b
  {
    LastPieceAfterAny(a, b, sep);
    LastPieceWhole(b, sep);
  }

  lemma AppendAssoc<T>(a: seq<T>, b: seq<T>, c: seq<T>)
    ensures a + b + c == a + (b + c)
  {
  }

  /** The join of the first `n` parts. */
  function JoinFirst(sep: string, parts: seq<string>, n: nat): (r: string)
    requires n <= |parts|
    ensures n >= 2 ==> |r| >= |sep|
    decreases n
  {
    if n == 0 then ""
    else if n == 1 then parts[0]
    else JoinFirst(sep, parts, n - 1) + sep + parts[n - 1]
  }

  /** Python's `sep.join(parts)`. */
  function Join(sep: string, parts: seq<string>): string {
    JoinFirst(sep, parts, |parts|)
  }

  /** With a non-empty separator, the join is empty exactly when there is
      nothing to join or a single empty part. */
  lemma JoinEmptyIff(sep: string, parts: seq<string>)
    requires |sep| > 0
    ensures Join(sep, parts) == "" <==> parts == [] || (|parts| == 1 && parts[0] == "")
  {
  }

  /** A join of at least two parts whose last part is empty ends with the separator. */
  lemma JoinEndsWithSep(sep: string, parts: seq<string>)
    requires |parts| >= 2 && parts[|parts| - 1] == ""
    ensures var j := Join(sep, parts); |j| >= |sep| && j[|j| - |sep|..] == sep
  {
  }

  /** Python's slice `xs[:n]` for `n >= 0`. */
  function Take<T>(xs: seq<T>, n: nat): (r: seq<T>)
    ensures |r| == if |xs| < n then |xs| else n
    ensures r == xs[..|r|]
  {
    if |xs| <= n then xs else xs[..n]
  }

  /** Python's `s.endswith(('.', '!', '?'))`. */
  predicate EndsTerminal(s: string) {
    |s| > 0 && (s[|s| - 1] == '.' || s[|s| - 1] == '!' || s[|s| - 1] == '?')
  }

  predicate IsDigit(c: char) {
    '0' <= c <= '9'
  }

  function DigitChar(d: nat): (c: char)
    requires d < 10
    ensures IsDigit(c)
  {
    (48 + d) as char
  }

  /** Decimal notation of a natural number, as Python's `str` writes it. */
  function NatToString(n: nat): (r: string)
    ensures |r| > 0 && (forall i :: 0 <= i < |r| ==> IsDigit(r[i]))
    ensures r[0] == '0' ==> n == 0
    decreases n
  {
    if n < 10 then [DigitChar(n)] else NatToString(n / 10) + [DigitChar(n % 10)]
  }

  /** Python's `str(n)` for an integer. */
  function IntToString(n: int): (r: string)
    ensures |r| > 0
  {
    if n < 0 then "-" + NatToString(-n) else NatToString(n)
  }

  /** Reads a string of decimal digits back as a number. */
  function ParseDigits(s: string): nat
    requires forall i :: 0 <= i < |s| ==> IsDigit(s[i])
    decreases |s|
  {
    if s == [] then 0
    else
      assert IsDigit(s[|s| - 1]);
      10 * ParseDigits(s[..|s| - 1]) + ((s[|s| - 1] as int) - 48)
  }

  /** Reads an optionally negative decimal number back. */
  function ParseInt(s: string): int
    requires |s| > 0
    requires s[0] == '-' || IsDigit(s[0])
    requires forall i :: 0 < i < |s| ==> IsDigit(s[i])
  {
    if s[0] == '-' then 0 - ParseDigits(s[1..]) else ParseDigits(s)
  }

  lemma {:induction false} NatToStringRoundTrip(n: nat)
    ensures ParseDigits(NatToString(n)) == n
    decreases n
  {
    if n >= 10 {
      var r := NatToString(n);
      assert r[..|r| - 1] == NatToString(n / 10);
      NatToStringRoundTrip(n / 10);
    }
  }

  lemma IntToStringRoundTrip(n: int)
    ensures var r := IntToString(n);
      (r[0] == '-' || IsDigit(r[0])) && (forall i :: 0 < i < |r| ==> IsDigit(r[i]))
      && ParseInt(r) == n
  {
    var r := IntToString(n);
    if n < 0 {
      assert r[1..] == NatToString(-n);
      NatToStringRoundTrip(-n);
    } else {
      NatToStringRoundTrip(n);
    }
  }
}
