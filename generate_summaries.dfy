/** The summarizer: building the prompt for one repository, extracting the
    blurb from the model's decoded output, and mapping repository records to
    blurb records. The language model itself is a parameter. */
module Summaries {
  import opened Wrappers
  import opened Strings
  import opened TextUtils
  import opened Records

  const Intro: string :=
    "You are a helpful assistant that writes concise, upbeat blurbs about GitHub repos.\n"
    + "Write a 2-3 sentence summary for the repo below, focusing on what it does and the tech stack.\n\n"

  /** The marker the prompt ends with; the blurb is read after its last occurrence. */
  const Marker: string := "Blurb:"

  /** The separator at which the blurb is cut. */
  const BlankLine: string := "\n\n"

  const MaxTopics: nat := 8
  const MaxDescription: nat := 180
  const MaxReadme: nat := 800

  /** The five values substituted into the prompt template. */
  datatype PromptSlots = PromptSlots(name: string, lang: string, topics: string, desc: string, readme: string)

  /** The slot values for one repository, with the defaults of `dict.get`. */
  function Slots(meta: RepoRecord): (p: PromptSlots)
    ensures p.name == meta.name.GetOr("")
    ensures (meta.language.None? || meta.language == Some("")) ==> p.lang == "mixed"
    ensures meta.language.Some? && meta.language.value != "" ==> p.lang == meta.language.value
    ensures var shown := Take(meta.topics.GetOr([]), MaxTopics);
      |shown| <= MaxTopics && p.topics == Join(", ", shown)
    ensures var d := meta.description.GetOr("");
      |p.desc| == (if |d| < MaxDescription then |d| else MaxDescription)
    ensures p.desc == meta.description.GetOr("")[..|p.desc|]
    ensures p.readme == TruncateTokens(CleanText(meta.readme.GetOr("")), MaxReadme)
    ensures |p.readme| <= MaxReadme
  {
    var lang := meta.language.GetOr("");
    PromptSlots(
      meta.name.GetOr(""),
      if lang == "" then "mixed" else lang,
      Join(", ", Take(meta.topics.GetOr([]), MaxTopics)),
      Take(meta.description.GetOr(""), MaxDescription),
      TruncateTokens(CleanText(meta.readme.GetOr("")), MaxReadme))
  }

  /** One labelled line of the template. */
  function Field(caption: string, value: string): string {
    caption + value + "\n"
  }

  /** The template lines after the language line, up to the blank line
      before the marker. */
  function TemplateTail(p: PromptSlots): string {
    Field("Topics: ", p.topics) + Field("Short description: ", p.desc)
    + Field("README excerpt: ", p.readme) + "\n"
  }

  /** The labelled lines of the template, between the intro and the marker. */
  function TemplateFields(p: PromptSlots): string {
    Field("Repo name: ", p.name) + Field("Main language: ", p.lang) + TemplateTail(p)
  }

  /** The outer parts of a concatenation of three strings. */
  lemma ThreeParts(x: string, y: string, z: string)
    ensures (x + y + z)[..|x|] == x
    ensures (x + y + z)[|x| + |y|..] == z
  {
  }

  /** The template with its slots filled in, as `PROMPT_TMPL.format(...)`:
      the intro, the labelled lines, the marker. */
  function FillTemplate(p: PromptSlots): (r: string)
    ensures |r| >= |Intro| + |Marker| && r[|r| - |Marker|..] == Marker
    ensures r[..|Intro|] == Intro
  {
    ThreeParts(Intro, TemplateFields(p), Marker);
    Intro + TemplateFields(p) + Marker
  }

  /** The prompt for one repository. */
  function BuildPrompt(meta: RepoRecord): (r: string)
    ensures |r| >= |Intro| + |Marker| && r[|r| - |Marker|..] == Marker
    ensures r[..|Intro|] == Intro
  {
    FillTemplate(Slots(meta))
  }

  /** The language line sits right after the intro and the name line, and
      names "mixed" when the repository has no language. */
  lemma PromptLanguageLine(meta: RepoRecord)
    ensures var p := BuildPrompt(meta);
      var start := |Intro| + |"Repo name: "| + |meta.name.GetOr("")| + 1;
      var line := "Main language: " + Slots(meta).lang + "\n";
      start + |line| <= |p| && p[start..start + |line|] == line
    ensures (meta.language.None? || meta.language == Some("")) ==> Slots(meta).lang == "mixed"
  {
    var s := Slots(meta);
    var name := Field("Repo name: ", s.name);
    var line := Field("Main language: ", s.lang);
    SecondOfFive(Intro, name, line, TemplateTail(s), Marker);
  }

  /** Where the second piece of `a + (b + c + d) + e` starts. */
  lemma SecondOfFive(a: string, b: string, c: string, d: string, e: string)
    ensures var s := a + (b + c + d) + e;
      |a| + |b| + |c| <= |s| && s[|a| + |b|..|a| + |b| + |c|] == c
  {
    var s := a + (b + c + d) + e;
    forall k | 0 <= k < |c|
      ensures s[|a| + |b|..|a| + |b| + |c|][k] == c[k]
    {
      assert s[|a| + |b| + k] == (b + c + d)[|b| + k];
    }
  }

  // ---------------------------------------------------------------------
  // Blurb extraction

  /** The text after the last marker, cut at the first two consecutive line
      feeds, with surrounding whitespace removed at each step. */
  function Segment(text: string): (seg: string)
    ensures Stripped(seg)
  {
    Strip(FirstPiece(Strip(LastPiece(text, Marker)), BlankLine))
  }

  /** The segment is cut from the text after the last marker: the marker
      ends right where that text starts, the text holds no further marker,
      and without any marker it is the whole input. */
  lemma SegmentSource(text: string)
    ensures var k := LastStart(text, Marker);
      Segment(text) == Strip(FirstPiece(Strip(text[k..]), BlankLine))
      && !Contains(text[k..], Marker)
      && (!Contains(text, Marker) ==> k == 0)
      && (Contains(text, Marker) ==> k >= |Marker| && text[k - |Marker|..k] == Marker)
  {
    LastPieceNoSep(text, Marker);
    if Contains(text, Marker) {
      LastPiecePreceded(text, Marker);
    } else {
      LastPieceWhole(text, Marker);
    }
  }

  /** The segment holds neither the marker nor two consecutive line feeds. */
  lemma SegmentClean(text: string)
    ensures !Contains(Segment(text), Marker) && !Contains(Segment(text), BlankLine)
  {
    var after := LastPiece(text, Marker);
    LastPieceNoSep(text, Marker);
    var a := Strip(after);
    NotContainsSlice(after, Marker, StripStart(after), StripStart(after) + |a|);
    var f := FirstPiece(a, BlankLine);
    FirstPieceFacts(a, BlankLine);
    NotContainsSlice(a, Marker, 0, |f|);
    var seg := Strip(f);
    NotContainsSlice(f, Marker, StripStart(f), StripStart(f) + |seg|);
    NotContainsSlice(f, BlankLine, StripStart(f), StripStart(f) + |seg|);
  }

  /** The closing step: a full stop is added unless the text already ends in
      terminal punctuation. */
  function Punctuate(seg: string): (b: string)
    ensures EndsTerminal(b)
    ensures Stripped(seg) ==> Stripped(b)
    ensures EndsTerminal(seg) ==> b == seg
    ensures !EndsTerminal(seg) ==> b == seg + "."
  {
    if EndsTerminal(seg) then seg else seg + "."
  }

  /** The blurb read out of the decoded model output. */
  function ExtractBlurb(text: string): (b: string)
    ensures EndsTerminal(b)
    ensures Stripped(b)
    ensures Segment(text) == "" ==> b == "."
  {
    Punctuate(Segment(text))
  }

  /** The blurb holds neither the marker nor two consecutive line feeds. */
  lemma ExtractBlurbClean(text: string)
    ensures !Contains(ExtractBlurb(text), Marker) && !Contains(ExtractBlurb(text), BlankLine)
  {
    var seg := Segment(text);
    SegmentClean(text);
    NotContainsAppend(seg, Marker, '.');
    NotContainsAppend(seg, BlankLine, '.');
  }

  /** Extraction applied to its own output gives that output back. */
  lemma ExtractBlurbIdempotent(text: string)
    ensures ExtractBlurb(ExtractBlurb(text)) == ExtractBlurb(text)
  {
    var b := ExtractBlurb(text);
    ExtractBlurbClean(text);
    LastPieceWhole(b, Marker);
    StripFixpoint(b);
    FirstPieceFacts(b, BlankLine);
    assert Segment(b) == b;
  }

  /** The marker's first letter does not recur in it, so two markers never
      overlap. */
  lemma MarkerFirstCharUnique()
    ensures FirstCharUnique(Marker)
  {
    forall d | 0 < d < |Marker| ensures Marker[d] != Marker[0] {
      assert d == 1 || d == 2 || d == 3 || d == 4 || d == 5;
    }
  }

  /** The decoded output starts with the prompt itself, which ends with the
      marker. Whatever the model adds, markers included, the blurb comes
      from the added text alone. */
  lemma ExtractAfterPrompt(meta: RepoRecord, continuation: string)
    ensures ExtractBlurb(BuildPrompt(meta) + continuation) == ExtractBlurb(continuation)
  {
    var p := BuildPrompt(meta);
    MarkerFirstCharUnique();
    LastPieceAfterAny(p, continuation, Marker);
    assert Segment(p + continuation) == Segment(continuation);
  }

  // ---------------------------------------------------------------------
  // Generation and the record-mapping loop

  /** The language model as the summarizer sees it: from the index of the
      call in the run (the seeded random state advances from call to call)
      and the prompt to the decoded text. */
  type LanguageModel = (nat, string) -> string

  /** `generate_blurb`: prompt, one model call, extraction. */
  function GenerateBlurb(meta: RepoRecord, model: LanguageModel, call: nat): (b: string)
    ensures EndsTerminal(b) && Stripped(b)
  {
    ExtractBlurb(model(call, BuildPrompt(meta)))
  }

  /** The keys the output record reads, in the order its fields are written. */
  const CopiedKeys: seq<string> := ["name", "html_url", "stargazers_count", "language", "topics"]

  /** Whether repository `r` has the `i`-th copied key. */
  predicate HasKey(r: RepoRecord, i: nat) {
    match i
    case 0 => r.name.Some?
    case 1 => r.htmlUrl.Some?
    case 2 => r.stargazersCount.Some?
    case 3 => r.language.Some?
    case _ => r.topics.Some?
  }

  /** The key whose absence makes `r[key]` fail first while the output record
      is built, in the order the record's fields are written. */
  function MissingKey(r: RepoRecord): (k: Option<string>)
    ensures k.None? <==> (r.name.Some? && r.htmlUrl.Some? && r.stargazersCount.Some?
                          && r.language.Some? && r.topics.Some?)
  {
    if r.name.None? then Some("name")
    else if r.htmlUrl.None? then Some("html_url")
    else if r.stargazersCount.None? then Some("stargazers_count")
    else if r.language.None? then Some("language")
    else if r.topics.None? then Some("topics")
    else None
  }

  /** The key reported is the first absent one in the order of `CopiedKeys`. */
  lemma MissingKeyFirst(r: RepoRecord)
    ensures var k := MissingKey(r);
      k.Some? ==> exists i :: (0 <= i < |CopiedKeys| && CopiedKeys[i] == k.value
                               && !HasKey(r, i) && forall j :: 0 <= j < i ==> HasKey(r, j))
  {
    var i := if r.name.None? then 0 else if r.htmlUrl.None? then 1
      else if r.stargazersCount.None? then 2 else if r.language.None? then 3 else 4;
    if MissingKey(r).Some? {
      assert CopiedKeys[i] == MissingKey(r).value && !HasKey(r, i);
      assert forall j :: 0 <= j < i ==> HasKey(r, j);
    }
  }

  /** Record `b` copies the fields of repository `r`, renaming `html_url` to
      `url`, `stargazers_count` to `stars` and `language` to `lang`. */
  predicate Copies(b: BlurbRecord, r: RepoRecord) {
    r.name == Some(b.name) && r.htmlUrl == Some(b.url) && r.stargazersCount == Some(b.stars)
    && r.language == Some(b.lang) && r.topics == Some(b.topics)
  }

  /** The record written for repository `r` with its blurb. */
  function OutputRecord(r: RepoRecord, blurb: string): (b: BlurbRecord)
    requires MissingKey(r) == None
    ensures Copies(b, r) && b.blurb == blurb
  {
    BlurbRecord(r.name.value, r.htmlUrl.value, blurb, r.stargazersCount.value, r.language.value, r.topics.value)
  }

  /** The failure of the loop: the record at `index` lacks `key`. */
  datatype KeyError = KeyError(index: nat, key: string)

  /** Where the driver gets the blurb for the repository at a given index. */
  type BlurbSource = (RepoRecord, nat) -> string

  /** The driver loop: one blurb record per repository, in input order; a
      repository without one of the copied keys stops the run with no output. */
  method SummarizeRepos(repos: seq<RepoRecord>, gen: BlurbSource)
    returns (res: Result<seq<BlurbRecord>, KeyError>)
    ensures res.Success? <==> forall i :: 0 <= i < |repos| ==> MissingKey(repos[i]) == None
    ensures res.Success? ==> |res.value| == |repos|
    ensures res.Success? ==> forall i :: 0 <= i < |repos| ==>
      Copies(res.value[i], repos[i]) && res.value[i].blurb == gen(repos[i], i)
    ensures res.Failure? ==> res.error.index < |repos|
    ensures res.Failure? ==> MissingKey(repos[res.error.index]) == Some(res.error.key)
    ensures res.Failure? ==> forall i :: 0 <= i < res.error.index ==> MissingKey(repos[i]) == None
  {
    var out: seq<BlurbRecord> := [];
    var i := 0;
    while i < |repos|
      invariant 0 <= i <= |repos| && |out| == i
      invariant forall j :: 0 <= j < i ==> MissingKey(repos[j]) == None
      invariant forall j :: 0 <= j < i ==> Copies(out[j], repos[j]) && out[j].blurb == gen(repos[j], j)
    {
      var r := repos[i];
      var blurb := gen(r, i);
      var missing := MissingKey(r);
      if missing.Some? {
        return Failure(KeyError(i, missing.value));
      }
      out := out + [OutputRecord(r, blurb)];
      i := i + 1;
    }
    return Success(out);
  }

  /** The run with the language model: on success every blurb is the
      extraction from the `i`-th model call and ends in terminal punctuation. */
  method SummarizeWithModel(repos: seq<RepoRecord>, model: LanguageModel)
    returns (res: Result<seq<BlurbRecord>, KeyError>)
    ensures res.Success? <==> forall i :: 0 <= i < |repos| ==> MissingKey(repos[i]) == None
    ensures res.Success? ==> |res.value| == |repos|
    ensures res.Success? ==> forall i :: 0 <= i < |repos| ==>
      Copies(res.value[i], repos[i]) && res.value[i].blurb == GenerateBlurb(repos[i], model, i)
    ensures res.Success? ==> forall i :: 0 <= i < |repos| ==> EndsTerminal(res.value[i].blurb)
    ensures res.Failure? ==> res.error.index < |repos|
    ensures res.Failure? ==> MissingKey(repos[res.error.index]) == Some(res.error.key)
    ensures res.Failure? ==> forall i :: 0 <= i < res.error.index ==> MissingKey(repos[i]) == None
  {
    res := SummarizeRepos(repos, (r: RepoRecord, i: nat) => GenerateBlurb(r, model, i));
  }
}
