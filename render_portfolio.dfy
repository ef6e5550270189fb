/** The renderer: the Markdown page listing every blurb record under a fixed
    header. The date of the run is a parameter. */
module Render {
  import opened Strings
  import opened Records

  const Title: string := "# GitHub Projects \U{2014} Portfolio Blurbs"

  /** The italic line naming the day of the run (an ISO date). */
  function DateLine(today: string): string {
    "_Auto-generated on " + today + "_"
  }

  /** The four entries every `lines` list starts with. */
  function Header(today: string): seq<string> {
    [Title, "", DateLine(today), ""]
  }

  const StarMark: string := "\U{2B50} "
  const MetaSeparator: string := " \U{B7} "
  const MaxTopicsShown: nat := 6

  /** The star count part of the metadata: empty for zero stars. */
  function StarsPart(stars: int): (p: string)
    ensures p == "" <==> stars == 0
  {
    if stars != 0 then StarMark + IntToString(stars) else ""
  }

  /** The topics part of the metadata: the first six topics, comma-separated. */
  function TopicsPart(topics: seq<string>): string {
    Join(", ", Take(topics, MaxTopicsShown))
  }

  /** The parts that are not empty, in their order (`[m for m in parts if m]`). */
  function NonEmpty(parts: seq<string>): (r: seq<string>)
    ensures |r| <= |parts|
    ensures forall i :: 0 <= i < |r| ==> r[i] != ""
    ensures r == [] <==> forall i :: 0 <= i < |parts| ==> parts[i] == ""
    decreases |parts|
  {
    if parts == [] then []
    else (if parts[0] == "" then [] else [parts[0]]) + NonEmpty(parts[1..])
  }

  /** The metadata parts of an item: language, stars, topics, empty ones dropped. */
  function MetaParts(it: BlurbRecord): seq<string> {
    NonEmpty([it.lang, StarsPart(it.stars), TopicsPart(it.topics)])
  }

  /** The metadata text of an item. */
  function Meta(it: BlurbRecord): string {
    Join(MetaSeparator, MetaParts(it))
  }

  function Heading(it: BlurbRecord): string {
    "## [" + it.name + "](" + it.url + ")"
  }

  function MetaLine(it: BlurbRecord): string {
    "**" + Meta(it) + "**"
  }

  /** The entries one item adds to `lines`: heading, the metadata line when
      there is metadata, then the blurb between two empty entries. */
  function ItemLines(it: BlurbRecord): seq<string> {
    [Heading(it)] + MetaLines(it) + [""] + [it.blurb] + [""]
  }

  /** The metadata line, or nothing when there is no metadata. */
  function MetaLines(it: BlurbRecord): seq<string> {
    if Meta(it) != "" then [MetaLine(it)] else []
  }

  /** The blocks `f(x)` of the elements of `xs`, one after another in order. */
  function Blocks<T>(xs: seq<T>, f: T -> seq<string>): seq<string>
    decreases |xs|
  {
    if xs == [] then [] else Blocks(xs[..|xs| - 1], f) + f(xs[|xs| - 1])
  }

  /** The entries of all items, one block after another in input order. */
  function ItemsLines(items: seq<BlurbRecord>): seq<string> {
    Blocks(items, ItemLines)
  }

  /** The blocks of the first `k + 1` elements: those of the first `k`, then
      element `k`'s. */
  lemma BlocksSnoc<T>(xs: seq<T>, f: T -> seq<string>, k: nat)
    requires k < |xs|
    ensures Blocks(xs[..k + 1], f) == Blocks(xs[..k], f) + f(xs[k])
  {
    assert xs[..k + 1][..k] == xs[..k];
  }

  /** The whole `lines` list that `to_md` joins. */
  function DocumentLines(items: seq<BlurbRecord>, today: string): seq<string> {
    Header(today) + ItemsLines(items)
  }

  /** `to_md`: the header entries, then the entries of each item appended one
      by one, all joined with newlines. */
  method ToMd(items: seq<BlurbRecord>, today: string) returns (md: string)
    ensures md == Join("\n", DocumentLines(items, today))
    ensures |md| > 0 && md[|md| - 1] == '\n'
  {
    var lines := [Title, "", DateLine(today), ""];
    var i := 0;
    while i < |items|
      invariant 0 <= i <= |items|
      invariant lines == Header(today) + ItemsLines(items[..i])
    {
      var it := items[i];
      ghost var before := lines;
      var meta := Meta(it);
      lines := lines + [Heading(it)];
      if meta != "" {
        lines := lines + [MetaLine(it)];
        AppendAssoc(before, [Heading(it)], [MetaLine(it)]);
      } else {
        assert [Heading(it)] + MetaLines(it) == [Heading(it)];
      }
      ghost var block := [Heading(it)] + MetaLines(it);
      assert lines == before + block;
      AppendAssoc(before, block, [""]);
      lines, block := lines + [""], block + [""];
      AppendAssoc(before, block, [it.blurb]);
      lines, block := lines + [it.blurb], block + [it.blurb];
      AppendAssoc(before, block, [""]);
      lines, block := lines + [""], block + [""];
      BlocksSnoc(items, ItemLines, i);
      AppendAssoc(Header(today), ItemsLines(items[..i]), ItemLines(it));
      i := i + 1;
    }
    assert items[..i] == items;
    md := Join("\n", lines);
    DocumentEndsEmpty(items, today);
    JoinEndsWithSep("\n", lines);
  }

  // ---------------------------------------------------------------------
  // Properties of the page

  /** The number of entries of one item: 5 with metadata, 4 without. */
  function ItemLineCount(it: BlurbRecord): nat {
    if Meta(it) != "" then 5 else 4
  }

  /** The number of entries the items of a list add. */
  function LineCount(items: seq<BlurbRecord>): nat
    decreases |items|
  {
    if items == [] then 0
    else LineCount(items[..|items| - 1]) + ItemLineCount(items[|items| - 1])
  }

  /** One item: the heading first, the blurb between two empty entries last. */
  lemma ItemLinesShape(it: BlurbRecord)
    ensures var ls := ItemLines(it);
      |ls| == ItemLineCount(it) && ls[0] == Heading(it)
      && ls[|ls| - 3] == "" && ls[|ls| - 2] == it.blurb && ls[|ls| - 1] == ""
      && (Meta(it) != "" ==> ls[1] == MetaLine(it))
  {
  }

  /** The items add the entries of every item, one block after another. */
  lemma {:induction false} ItemsLinesCount(items: seq<BlurbRecord>)
    ensures |ItemsLines(items)| == LineCount(items)
    decreases |items|
  {
    if items != [] {
      ItemsLinesCount(items[..|items| - 1]);
      ItemLinesShape(items[|items| - 1]);
    }
  }

  /** The `lines` list has 4 header entries plus the entries of every item. */
  lemma DocumentLineCount(items: seq<BlurbRecord>, today: string)
    ensures |DocumentLines(items, today)| == 4 + LineCount(items)
  {
    ItemsLinesCount(items);
  }

  /** Every `lines` list starts with the title, an empty entry, the date line
      and an empty entry. */
  lemma DocumentHeader(items: seq<BlurbRecord>, today: string)
    ensures var ls := DocumentLines(items, today);
      |ls| >= 4 && ls[..4] == [Title, "", DateLine(today), ""]
  {
  }

  /** With no items the header is the whole `lines` list, and none of its
      entries is a level-two heading. */
  lemma EmptyDocument(today: string)
    ensures DocumentLines([], today) == [Title, "", DateLine(today), ""]
    ensures forall i :: 0 <= i < 4 ==> !("## " <= DocumentLines([], today)[i])
  {
    var ls := DocumentLines([], today);
    assert ls[2][0] == '_';
    assert ls[0][1] == ' ';
  }

  /** The blocks of the first `k` elements come first. */
  lemma {:induction false} BlocksPrefix<T>(xs: seq<T>, f: T -> seq<string>, k: nat)
    requires k <= |xs|
    ensures var p := Blocks(xs[..k], f); |p| <= |Blocks(xs, f)| && Blocks(xs, f)[..|p|] == p
    decreases |xs| - k
  {
    if k < |xs| {
      var n := |xs|;
      assert xs[..n] == xs;
      BlocksPrefix(xs[..n - 1], f, k);
      assert xs[..n - 1][..k] == xs[..k];
    } else {
      assert xs[..k] == xs;
    }
  }

  /** The block of element `k` follows the blocks of the elements before it. */
  lemma BlocksAt<T>(xs: seq<T>, f: T -> seq<string>, k: nat)
    requires k < |xs|
    ensures var all, s, b := Blocks(xs, f), |Blocks(xs[..k], f)|, f(xs[k]);
      s + |b| <= |all| && all[s..s + |b|] == b
  {
    var all, p, b := Blocks(xs, f), Blocks(xs[..k], f), f(xs[k]);
    BlocksPrefix(xs, f, k + 1);
    BlocksSnoc(xs, f, k);
    var x := all[|p|..|p| + |b|];
    forall i | 0 <= i < |b|
      ensures x[i] == b[i]
    {
      assert all[..|p| + |b|][|p| + i] == (p + b)[|p| + i];
    }
    assert x == b;
  }

  /** Where the block of item `k` starts on the page: after the header and
      the blocks of the items before it. */
  function BlockStart(items: seq<BlurbRecord>, k: nat): nat
    requires k <= |items|
  {
    4 + |ItemsLines(items[..k])|
  }

  /** When every block starts with `g` of its element, the entry where the
      block of element `k` starts is `g(xs[k])`. */
  lemma BlocksHeadAt<T>(xs: seq<T>, f: T -> seq<string>, g: T -> string, k: nat)
    requires k < |xs|
    requires forall x :: |f(x)| > 0 && f(x)[0] == g(x)
    ensures |Blocks(xs[..k], f)| < |Blocks(xs, f)|
    ensures Blocks(xs, f)[|Blocks(xs[..k], f)|] == g(xs[k])
  {
    var all, s, b := Blocks(xs, f), |Blocks(xs[..k], f)|, f(xs[k]);
    BlocksAt(xs, f, k);
    assert all[s..s + |b|][0] == all[s];
  }

  /** Item `k`'s block sits at its start, and its heading comes first. */
  lemma HeadingAt(items: seq<BlurbRecord>, today: string, k: nat)
    requires k < |items|
    ensures var ls := DocumentLines(items, today);
      BlockStart(items, k) < |ls| && ls[BlockStart(items, k)] == Heading(items[k])
  {
    var s := |Blocks(items[..k], ItemLines)|;
    ItemLinesAllHeads();
    BlocksHeadAt(items, ItemLines, Heading, k);
    IndexAfter(Header(today), Blocks(items, ItemLines), s);
  }

  /** Entry `i` of `all` is entry `|h| + i` of `h + all`. */
  lemma IndexAfter(h: seq<string>, all: seq<string>, i: nat)
    requires i < |all|
    ensures |h| + i < |h + all| && (h + all)[|h| + i] == all[i]
  {
  }

  /** Every item has at least four entries, the heading first. */
  lemma ItemLinesHead(it: BlurbRecord)
    ensures |ItemLines(it)| >= 4 && ItemLines(it)[0] == Heading(it)
  {
    var head := [Heading(it)] + MetaLines(it);
    assert ItemLines(it) == head + [""] + [it.blurb] + [""];
    assert head[0] == Heading(it);
  }

  lemma ItemLinesAllHeads()
    ensures forall it: BlurbRecord :: |ItemLines(it)| > 0 && ItemLines(it)[0] == Heading(it)
  {
    forall it: BlurbRecord
      ensures |ItemLines(it)| > 0 && ItemLines(it)[0] == Heading(it)
    {
      ItemLinesHead(it);
    }
  }

  /** With blocks of at least `m` entries, each block starts at least `m`
      entries after the one before. */
  lemma {:induction false} BlocksGrow<T>(xs: seq<T>, f: T -> seq<string>, j: nat, m: nat)
    requires j < |xs| && forall x :: |f(x)| >= m
    ensures |Blocks(xs[..j], f)| + m <= |Blocks(xs, f)|
    decreases |xs|
  {
    var n := |xs|;
    if j < n - 1 {
      BlocksGrow(xs[..n - 1], f, j, m);
      assert xs[..n - 1][..j] == xs[..j];
    } else {
      assert xs[..n - 1] == xs[..j];
    }
  }

  lemma ItemLinesAtLeastFour()
    ensures forall it: BlurbRecord :: |ItemLines(it)| >= 4
  {
    forall it: BlurbRecord
      ensures |ItemLines(it)| >= 4
    {
      ItemLinesHead(it);
    }
  }

  /** Blocks start further down for later items, so headings are in input order. */
  lemma HeadingsInOrder(items: seq<BlurbRecord>, j: nat, k: nat)
    requires j < k <= |items|
    ensures BlockStart(items, j) + 4 <= BlockStart(items, k)
  {
    ItemLinesAtLeastFour();
    BlocksGrow(items[..k], ItemLines, j, 4);
    assert items[..k][..j] == items[..j];
  }

  /** The last entry of every `lines` list is empty, so the page ends in a newline. */
  lemma DocumentEndsEmpty(items: seq<BlurbRecord>, today: string)
    ensures var ls := DocumentLines(items, today); |ls| >= 2 && ls[|ls| - 1] == ""
  {
    if items != [] {
      ItemLinesShape(items[|items| - 1]);
    }
  }

  // ---------------------------------------------------------------------
  // The metadata line

  lemma {:induction false} NonEmptyConcat(x: seq<string>, y: seq<string>)
    ensures NonEmpty(x + y) == NonEmpty(x) + NonEmpty(y)
    decreases |x|
  {
    if x == [] {
      assert x + y == y;
    } else {
      assert (x + y)[0] == x[0];
      assert (x + y)[1..] == x[1..] + y;
      NonEmptyConcat(x[1..], y);
    }
  }

  /** The metadata parts are language, stars and topics, in that order, each
      only when not empty. */
  lemma MetaPartsOrder(it: BlurbRecord)
    ensures MetaParts(it) ==
      (if it.lang != "" then [it.lang] else [])
      + (if it.stars != 0 then [StarsPart(it.stars)] else [])
      + (if TopicsPart(it.topics) != "" then [TopicsPart(it.topics)] else [])
  {
    NonEmptyThree(it.lang, StarsPart(it.stars), TopicsPart(it.topics));
  }

  lemma NonEmptyThree(a: string, b: string, c: string)
    ensures NonEmpty([a, b, c]) ==
      (if a != "" then [a] else []) + (if b != "" then [b] else []) + (if c != "" then [c] else [])
  {
    assert [a, b, c] == [a] + ([b] + [c]);
    NonEmptyConcat([a], [b] + [c]);
    NonEmptyConcat([b], [c]);
    NonEmptySingle(a);
    NonEmptySingle(b);
    NonEmptySingle(c);
  }

  lemma NonEmptySingle(x: string)
    ensures NonEmpty([x]) == if x == "" then [] else [x]
  {
    assert [x][1..] == [];
  }

  /** With all three parts present, the metadata reads
      `lang · ⭐ stars · topics`. */
  lemma MetaAllParts(it: BlurbRecord)
    requires it.lang != "" && it.stars != 0 && TopicsPart(it.topics) != ""
    ensures Meta(it) == it.lang + MetaSeparator + StarMark + IntToString(it.stars)
      + MetaSeparator + TopicsPart(it.topics)
  {
    var s, t := StarsPart(it.stars), TopicsPart(it.topics);
    MetaPartsOrder(it);
    var p := [it.lang, s, t];
    assert MetaParts(it) == p;
    assert p[1..] == [s, t] && [s, t][1..] == [t];
    assert Join(MetaSeparator, [s, t]) == s + MetaSeparator + t;
  }

  /** The topics part is empty exactly when there are no topics or the only
      one is the empty string. */
  lemma TopicsPartEmptyIff(topics: seq<string>)
    ensures TopicsPart(topics) == "" <==> topics == [] || (|topics| == 1 && topics[0] == "")
  {
    JoinEmptyIff(", ", Take(topics, MaxTopicsShown));
  }

  /** The metadata line is present exactly when the language is not empty,
      the star count is not zero, or the topics part is not empty. */
  lemma MetaPresentIff(it: BlurbRecord)
    ensures Meta(it) != "" <==> it.lang != "" || it.stars != 0 || TopicsPart(it.topics) != ""
  {
    var parts := MetaParts(it);
    JoinEmptyIff(MetaSeparator, parts);
    var all := [it.lang, StarsPart(it.stars), TopicsPart(it.topics)];
    if it.lang != "" || it.stars != 0 || TopicsPart(it.topics) != "" {
      assert all[0] != "" || all[1] != "" || all[2] != "";
    }
  }

  /** The number shown after the star reads back as the star count. */
  lemma StarsRoundTrip(stars: int)
    requires stars != 0
    ensures var p := StarsPart(stars);
      |p| > |StarMark| && p[..|StarMark|] == StarMark
      && ParseInt(p[|StarMark|..]) == stars
  {
    var p := StarsPart(stars);
    assert p[|StarMark|..] == IntToString(stars);
    IntToStringRoundTrip(stars);
  }
}
