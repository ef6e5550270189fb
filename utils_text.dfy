/** Text utilities shared by the summarizer: `clean_text`, which normalizes
    line breaks and trims, and `truncate_tokens`, a character-prefix cut. */
module TextUtils {
  import opened Strings

  /** First substitution of `clean_text`: every carriage return becomes a
      line feed, one for one. */
  function CrToLf(s: string): (r: string)
    ensures |r| == |s|
    ensures forall i :: 0 <= i < |s| ==> r[i] == (if s[i] == '\r' then '\n' else s[i])
    decreases |s|
  {
    if s == [] then [] else [if s[0] == '\r' then '\n' else s[0]] + CrToLf(s[1..])
  }

  /** Number of line feeds at the start of `s`. */
  function NewlineRun(s: string): (k: nat)
    ensures k <= |s|
    ensures forall i :: 0 <= i < k ==> s[i] == '\n'
    ensures k < |s| ==> s[k] != '\n'
    decreases |s|
  {
    if s != [] && s[0] == '\n' then 1 + NewlineRun(s[1..]) else 0
  }

  /** Second substitution of `clean_text`, `re.sub(r"\n{3,}", "\n\n", s)`:
      scanning left to right, each maximal run of three or more line feeds
      becomes exactly two; shorter runs and all other characters are kept. */
  function CollapseNewlines(s: string): (r: string)
    ensures |r| <= |s|
    ensures s != [] && s[0] != '\n' ==> r != [] && r[0] == s[0]
    decreases |s|
  {
    if s == [] then []
    else if s[0] != '\n' then [s[0]] + CollapseNewlines(s[1..])
    else
      var k := NewlineRun(s);
      (if k >= 3 then "\n\n" else s[..k]) + CollapseNewlines(s[k..])
  }

  /** `clean_text`: carriage returns to line feeds, runs of three or more
      line feeds to two, then `strip`. */
  function CleanText(s: string): (r: string)
    ensures '\r' !in r
    ensures NoTripleNewline(r)
    ensures Stripped(r)
    ensures |r| <= |s|
  {
    var t := CrToLf(s);
    var u := CollapseNewlines(t);
    CollapseNoTripleNewline(t);
    CollapseKeepsChar(t, '\r');
    StripKeeps(u);
    Strip(u)
  }

  /** Python's `text[:max_chars]`, including its reading of a negative bound
      as "all but the last `-max_chars` characters". */
  function TruncateTokens(text: string, maxChars: int := 2000): (r: string)
    ensures |r| <= |text| && r == text[..|r|]
    ensures maxChars >= 0 ==> |r| == if |text| < maxChars then |text| else maxChars
    ensures maxChars < 0 ==> |r| == if |text| + maxChars < 0 then 0 else |text| + maxChars
  {
    if maxChars >= 0 then Take(text, maxChars)
    else if |text| + maxChars < 0 then []
    else text[..|text| + maxChars]
  }

  // ---------------------------------------------------------------------
  // Line-feed runs

  predicate TripleNewlineAt(s: string, i: int) {
    0 <= i && i + 3 <= |s| && s[i] == '\n' && s[i + 1] == '\n' && s[i + 2] == '\n'
  }

  /** No three consecutive line feeds anywhere in `s`. */
  predicate NoTripleNewline(s: string) {
    forall i :: 0 <= i < |s| ==> !TripleNewlineAt(s, i)
  }

  lemma NoTripleNewlineSlice(s: string, a: int, b: int)
    requires 0 <= a <= b <= |s| && NoTripleNewline(s)
    ensures NoTripleNewline(s[a..b])
  {
    forall i | 0 <= i < b - a
      ensures !TripleNewlineAt(s[a..b], i)
    {
      assert !TripleNewlineAt(s, a + i);
    }
  }

  /** The characters of `s` other than line feeds, in order. */
  function DropNewlines(s: string): string
    decreases |s|
  {
    if s == [] then []
    else if s[0] == '\n' then DropNewlines(s[1..])
    else [s[0]] + DropNewlines(s[1..])
  }

  lemma {:induction false} DropNewlinesConcat(a: string, b: string)
    ensures DropNewlines(a + b) == DropNewlines(a) + DropNewlines(b)
    decreases |a|
  {
    if a != [] {
      var ab := a + b;
      assert ab[0] == a[0];
      assert ab[1..] == a[1..] + b;
      DropNewlinesConcat(a[1..], b);
      if a[0] == '\n' {
        assert DropNewlines(ab) == DropNewlines(a[1..] + b);
      } else {
        assert DropNewlines(ab) == [a[0]] + DropNewlines(a[1..] + b);
        assert DropNewlines(a) == [a[0]] + DropNewlines(a[1..]);
      }
    } else {
      assert a + b == b;
    }
  }

  lemma {:induction false} DropNewlinesAllNewlines(s: string)
    requires forall i :: 0 <= i < |s| ==> s[i] == '\n'
    ensures DropNewlines(s) == []
    decreases |s|
  {
    if s != [] {
      DropNewlinesAllNewlines(s[1..]);
    }
  }

  lemma {:induction false} DropNewlinesMembership(s: string, c: char)
    requires c != '\n'
    ensures c in s <==> c in DropNewlines(s)
    decreases |s|
  {
    if s != [] {
      DropNewlinesMembership(s[1..], c);
      assert s == [s[0]] + s[1..];
    }
  }

  // ---------------------------------------------------------------------
  // Properties of the collapse

  /** The collapse leaves no run of three line feeds. */
  lemma {:induction false} CollapseNoTripleNewline(s: string)
    ensures NoTripleNewline(CollapseNewlines(s))
    decreases |s|
  {
    if s == [] {
    } else if s[0] != '\n' {
      var rest := CollapseNewlines(s[1..]);
      CollapseNoTripleNewline(s[1..]);
      var r := [s[0]] + rest;
      assert CollapseNewlines(s) == r;
      forall i | 0 <= i < |r|
        ensures !TripleNewlineAt(r, i)
      {
        if i > 0 {
          assert !TripleNewlineAt(rest, i - 1);
        }
      }
    } else {
      var k := NewlineRun(s);
      var head: string := if k >= 3 then "\n\n" else s[..k];
      var rest := CollapseNewlines(s[k..]);
      CollapseNoTripleNewline(s[k..]);
      var r := head + rest;
      assert CollapseNewlines(s) == r;
      assert |head| <= 2;
      assert rest == [] || rest[0] != '\n';
      forall i | 0 <= i < |r|
        ensures !TripleNewlineAt(r, i)
      {
        if i >= |head| {
          assert !TripleNewlineAt(rest, i - |head|);
        } else if i + 3 <= |r| {
          assert r[|head|] == rest[0];
        }
      }
    }
  }

  /** `k` line feeds. */
  function Newlines(k: nat): (r: string)
    ensures |r| == k && forall i :: 0 <= i < k ==> r[i] == '\n'
  {
    seq(k, _ => '\n')
  }

  /** The leading run is the `k` characters that are line feeds and are
      followed by the end or by another character. */
  lemma NewlineRunUnique(s: string, k: nat)
    requires k <= |s| && forall i :: 0 <= i < k ==> s[i] == '\n'
    requires k < |s| ==> s[k] != '\n'
    ensures NewlineRun(s) == k
  {
    var n := NewlineRun(s);
    var m := if n < k then n else k;
    if m < |s| {
      var c := s[m];
    }
  }

  /** A run of three or more line feeds becomes exactly two; a shorter run
      is kept; the rest is collapsed on its own. */
  lemma CollapseRun(k: nat, y: string)
    requires k > 0 && (y == [] || y[0] != '\n')
    ensures CollapseNewlines(Newlines(k) + y)
      == (if k >= 3 then "\n\n" else Newlines(k)) + CollapseNewlines(y)
  {
    var s := Newlines(k) + y;
    NewlineRunUnique(s, k);
    assert s[0] == '\n';
    assert s[..k] == Newlines(k);
    assert s[k..] == y;
  }

  /** A text that does not end in a line feed is collapsed independently of
      what follows it: no run crosses the boundary. */
  lemma {:induction false} CollapseConcat(x: string, z: string)
    requires x == [] || x[|x| - 1] != '\n'
    ensures CollapseNewlines(x + z) == CollapseNewlines(x) + CollapseNewlines(z)
    decreases |x|, 1
  {
    if x == [] {
      assert x + z == z;
      assert CollapseNewlines(x) == [];
    } else if x[0] != '\n' {
      CollapseConcatChar(x, z);
    } else {
      CollapseConcatRun(x, z);
    }
  }

  lemma CollapseConcatChar(x: string, z: string)
    requires x != [] && x[0] != '\n' && x[|x| - 1] != '\n'
    ensures CollapseNewlines(x + z) == CollapseNewlines(x) + CollapseNewlines(z)
    decreases |x|, 0
  {
    var s, t := x + z, x[1..];
    assert s[0] == x[0] && s[1..] == t + z;
    CollapseConcat(t, z);
    var c := [x[0]];
    assert CollapseNewlines(s) == c + CollapseNewlines(t + z);
    assert CollapseNewlines(x) == c + CollapseNewlines(t);
    AppendAssoc(c, CollapseNewlines(t), CollapseNewlines(z));
  }

  lemma CollapseConcatRun(x: string, z: string)
    requires x != [] && x[0] == '\n' && x[|x| - 1] != '\n'
    ensures CollapseNewlines(x + z) == CollapseNewlines(x) + CollapseNewlines(z)
    decreases |x|, 0
  {
    var s, k := x + z, NewlineRun(x);
    assert k < |x| by {
      assert x[|x| - 1] != '\n';
    }
    var t := x[k..];
    NewlineRunUnique(s, k);
    var head: string := if k >= 3 then "\n\n" else x[..k];
    assert s[0] == '\n' && s[..k] == x[..k] && s[k..] == t + z;
    CollapseConcat(t, z);
    assert CollapseNewlines(s) == head + CollapseNewlines(t + z);
    assert CollapseNewlines(x) == head + CollapseNewlines(t);
    AppendAssoc(head, CollapseNewlines(t), CollapseNewlines(z));
  }

  /** Only line feeds are removed: the other characters survive, in order. */
  lemma {:induction false} CollapseKeepsText(s: string)
    ensures DropNewlines(CollapseNewlines(s)) == DropNewlines(s)
    decreases |s|
  {
    if s == [] {
    } else if s[0] != '\n' {
      CollapseKeepsText(s[1..]);
      assert CollapseNewlines(s) == [s[0]] + CollapseNewlines(s[1..]);
    } else {
      var k := NewlineRun(s);
      var head: string := if k >= 3 then "\n\n" else s[..k];
      CollapseKeepsText(s[k..]);
      DropNewlinesConcat(head, CollapseNewlines(s[k..]));
      DropNewlinesAllNewlines(head);
      assert s == s[..k] + s[k..];
      DropNewlinesConcat(s[..k], s[k..]);
      DropNewlinesAllNewlines(s[..k]);
    }
  }

  /** A text without three consecutive line feeds is left as it is, so runs
      of one or two line feeds are never shortened. */
  lemma {:induction false} CollapseFixpoint(s: string)
    requires NoTripleNewline(s)
    ensures CollapseNewlines(s) == s
    decreases |s|
  {
    if s == [] {
    } else if s[0] != '\n' {
      NoTripleNewlineSlice(s, 1, |s|);
      assert s[1..|s|] == s[1..];
      CollapseFixpoint(s[1..]);
      assert s == [s[0]] + s[1..];
    } else {
      var k := NewlineRun(s);
      assert !TripleNewlineAt(s, 0);
      assert k < 3;
      NoTripleNewlineSlice(s, k, |s|);
      assert s[k..|s|] == s[k..];
      CollapseFixpoint(s[k..]);
      assert s == s[..k] + s[k..];
    }
  }

  lemma {:induction false} CrToLfFixpoint(s: string)
    requires '\r' !in s
    ensures CrToLf(s) == s
    decreases |s|
  {
    if s != [] {
      CrToLfFixpoint(s[1..]);
      assert s == [s[0]] + s[1..];
    }
  }

  /** A character other than the line feed is in the collapse only if it is
      in the input. */
  lemma CollapseKeepsChar(s: string, c: char)
    requires c != '\n'
    ensures c in CollapseNewlines(s) ==> c in s
  {
    CollapseKeepsText(s);
    DropNewlinesMembership(s, c);
    DropNewlinesMembership(CollapseNewlines(s), c);
  }

  /** Stripping adds no carriage return and no run of line feeds. */
  lemma StripKeeps(u: string)
    ensures '\r' in Strip(u) ==> '\r' in u
    ensures NoTripleNewline(u) ==> NoTripleNewline(Strip(u))
  {
    var r := Strip(u);
    var lead := StripStart(u);
    if '\r' in r {
      var i :| 0 <= i < |r| && r[i] == '\r';
      assert u[lead + i] == '\r';
    }
    if NoTripleNewline(u) {
      NoTripleNewlineSlice(u, lead, lead + |r|);
    }
  }

  // ---------------------------------------------------------------------
  // Properties of clean_text and truncate_tokens

  /** Cleaning a cleaned text changes nothing. */
  lemma CleanTextIdempotent(s: string)
    ensures CleanText(CleanText(s)) == CleanText(s)
  {
    var c := CleanText(s);
    CrToLfFixpoint(c);
    CollapseFixpoint(c);
    StripFixpoint(c);
  }

  /** Each carriage return becomes its own line feed, so a CR LF pair
      between two visible characters turns into two line feeds rather than
      one. */
  lemma CleanTextCrLf(a: char, b: char)
    requires !IsSpace(a) && !IsSpace(b)
    ensures CleanText([a, '\r', '\n', b]) == [a, '\n', '\n', b]
  {
    var s := [a, '\r', '\n', b];
    var t := CrToLf(s);
    assert t == [a, '\n', '\n', b];
    assert !TripleNewlineAt(t, 0) && !TripleNewlineAt(t, 1);
    CollapseFixpoint(t);
    StripFixpoint(t);
  }

  /** A run of four line feeds between two visible characters shrinks to
      two. */
  lemma CleanTextCollapsesRun(a: char, b: char)
    requires !IsSpace(a) && !IsSpace(b)
    ensures CleanText([a, '\n', '\n', '\n', '\n', b]) == [a, '\n', '\n', b]
  {
    var s := [a, '\n', '\n', '\n', '\n', b];
    CrToLfFixpoint(s);
    var t := s[1..];
    assert t[1..][1..][1..][1..] == [b];
    assert NewlineRun([b]) == 0;
    assert NewlineRun(t) == 4;
    assert t[4..] == [b];
    assert CollapseNewlines([b]) == [b] by {
      assert [b][1..] == [];
    }
    assert CollapseNewlines(t) == ['\n', '\n'] + [b];
    var c := CollapseNewlines(s);
    assert c == [a] + (['\n', '\n'] + [b]);
    assert c == [a, '\n', '\n', b];
    StripFixpoint(c);
  }

  /** A text that already fits is returned whole. */
  lemma TruncateFits(text: string, maxChars: int)
    requires |text| <= maxChars
    ensures TruncateTokens(text, maxChars) == text
  {
  }

  /** Truncating twice to the same bound is the same as truncating once. */
  lemma TruncateIdempotent(text: string, maxChars: nat)
    ensures TruncateTokens(TruncateTokens(text, maxChars), maxChars) == TruncateTokens(text, maxChars)
  {
  }
}
