# Portfolio blurb pipeline — a Dafny model of its text layer

The repository is a three-stage batch pipeline. It collects a user's GitHub
repositories, has a small causal language model write a two-or-three
sentence blurb for each one, and renders the blurbs as a Markdown portfolio
page. This project models the deterministic text handling between the
network and model calls, and proves what that code promises:

- `TextUtils` (`utils_text.dfy`) models `clean_text` and `truncate_tokens`:
  - `clean_text` turns every carriage return into a line feed, collapses
    runs of three or more line feeds to two, and strips the ends;
  - `truncate_tokens` cuts a prefix of at most `max_chars` characters.
- `Summaries` (`generate_summaries.dfy`) models `generate_blurb` and the
  driver loop:
  - the prompt template is filled with a repository's name, language, topics,
    description and README excerpt;
  - the blurb is extracted from the decoded model output: the text after the
    last `Blurb:`, cut at the first two consecutive line feeds (`\n\n`), with a full stop added when
    terminal punctuation is missing;
  - the driver loop maps repository records to blurb records. The language
    model is a function parameter.
- `Render` (`render_portfolio.dfy`) models `to_md`. It is a method with the
  source's loop. The loop appends the lines of each item to a list, and the
  list is then joined with newlines. The date is a parameter.
- `Strings` (`strings.dfy`) holds the Python string built-ins the code relies
  on, written out over `seq<char>`: `isspace`, `strip`, `in`, `find`,
  `split(sep)[0]`, `split(sep)[-1]`, `join`, prefix slicing and `str(int)`.
- `Records` (`records.dfy`) holds the JSON records the stages exchange.
  `Wrappers` (`wrappers.dfy`) holds `Option` and `Result`.

Modelling choices:

- **Whitespace.** The whitespace `strip` removes is Python's full
  `str.isspace` set, listed in `Strings.IsSpace`.
- **Missing keys.** A key of a repository record that may be absent is an
  `Option`. `dict.get` becomes `GetOr`. The `KeyError` of `r["..."]` becomes
  a `Failure` of the driver, naming the first missing key in the order the
  output record's fields are written.

## Model

| member | source | states |
|---|---|---|
| TextUtils.CrToLf | utils_text.py:12 | the result has the input's length; each `\r` becomes `\n` and every other character is kept, position by position |
| TextUtils.NewlineRun | utils_text.py:13 | the length of the maximal run of line feeds at the start of the text: all of it is `\n`, and the next character is not |
| TextUtils.CollapseNewlines | utils_text.py:13 | the collapse never lengthens the text and keeps a leading character that is not a line feed |
| TextUtils.CollapseRun | utils_text.py:13 | for every text, a leading run of `k >= 3` line feeds becomes exactly two, a run of one or two is kept, and the rest after the run is collapsed on its own |
| TextUtils.CollapseConcat | utils_text.py:13 | a text that does not end in a line feed collapses independently of what follows it, so runs are matched left to right and never across such a boundary |
| TextUtils.CollapseNoTripleNewline | utils_text.py:13 | after the collapse no three consecutive line feeds remain |
| TextUtils.CollapseKeepsText | utils_text.py:13 | the collapse removes only line feeds: the other characters survive in order |
| TextUtils.CollapseFixpoint | utils_text.py:13 | a text with no run of three line feeds is unchanged, so a run of exactly two is left as is |
| TextUtils.CleanText | utils_text.py:11-14 | the cleaned text has no `\r`, no three consecutive `\n`, and no whitespace at either end, and it is no longer than the input |
| TextUtils.CleanTextIdempotent | utils_text.py:11-14 | cleaning a cleaned text returns it unchanged |
| TextUtils.CleanTextCrLf | utils_text.py:12-13 | each `\r` becomes its own `\n`: `a\r\nb` (any two visible characters) cleans to `a\n\nb`, not `a\nb` |
| TextUtils.CleanTextCollapsesRun | utils_text.py:13-14 | four line feeds between two visible characters become exactly two |
| TextUtils.StripKeeps | utils_text.py:14 | stripping introduces no `\r` and no run of three line feeds |
| TextUtils.TruncateTokens | utils_text.py:16-17 | the result is a prefix of the text; with `max_chars >= 0` its length is `min(|text|, max_chars)`; a negative bound drops that many characters from the end, as Python's slice does |
| TextUtils.TruncateFits | utils_text.py:17 | a text no longer than the bound is returned whole |
| TextUtils.TruncateIdempotent | utils_text.py:17 | truncating twice to the same non-negative bound equals truncating once |
| Strings.IsSpace | utils_text.py:14 | the characters `str.strip()` removes: Python's `str.isspace` set, the ASCII controls 0x09-0x0D and 0x1C-0x1F, the space and the Unicode spaces and separators; Strip and StripCutsOnlySpace are stated with it |
| Strings.Strip | utils_text.py:14 | `strip` gives a contiguous piece of the input with no whitespace at either end |
| Strings.StripCutsOnlySpace | utils_text.py:14 | everything `strip` removes, before and after the piece, is whitespace |
| Strings.StripFixpoint | generate_summaries.py:38-40 | a string with no whitespace at its ends is its own strip |
| Strings.StripIdempotent | generate_summaries.py:38-40 | stripping twice equals stripping once |
| Strings.FindFromSpec | generate_summaries.py:40 | the first-occurrence scan finds the leftmost occurrence: none starts earlier, and one starts where it stops unless it reaches the end |
| Strings.FirstIndexFacts | generate_summaries.py:40 | the text before the first index holds no separator, and the index is the text's length exactly when the separator does not occur |
| Strings.FirstPiece | generate_summaries.py:40 | `s.split(sep)[0]`: a prefix of `s` whose length is the first index of `sep`, or all of `s`; the full contract is in FirstPieceFacts |
| Strings.FirstPieceFacts | generate_summaries.py:40 | `split(sep)[0]` is a prefix without the separator; when the separator occurs it follows the piece directly, and the piece is the whole string exactly when the separator does not occur |
| Strings.LastPiece | generate_summaries.py:38 | `s.split(sep)[-1]`: a suffix of `s`, found by a left-to-right scan over non-overlapping occurrences; LastPieceNoSep, LastPieceWhole and LastPiecePreceded describe it, and for a separator that cannot overlap itself (`FirstCharUnique`), such as `Blurb:`, LastStartUnique pins it down |
| Strings.LastPieceNoSep | generate_summaries.py:38 | `split(sep)[-1]` contains no separator |
| Strings.LastPieceWhole | generate_summaries.py:38 | without a separator, `split(sep)[-1]` is the whole string |
| Strings.LastPiecePreceded | generate_summaries.py:38 | with a separator, `split(sep)[-1]` starts right after an occurrence of it |
| Strings.LastStartUnique | generate_summaries.py:38 | for a separator that cannot overlap itself, a separator-free suffix that directly follows an occurrence is exactly `split(sep)[-1]`, so the last piece is determined |
| Strings.LastPieceAfter | generate_summaries.py:38 | when `a` ends with a separator that cannot overlap itself and `b` lacks it, `split(sep)[-1]` of `a + b` is `b` |
| Strings.LastPieceAfterAny | generate_summaries.py:38 | when `a` ends with a separator that cannot overlap itself, `split(sep)[-1]` of `a + b` is `split(sep)[-1]` of `b`, for every `b` |
| Strings.Join | generate_summaries.py:24 | `sep.join(parts)`: the parts with the separator between neighbours; JoinEmptyIff and JoinEndsWithSep carry its contract |
| Strings.JoinEmptyIff | render_portfolio.py:14-15 | with a non-empty separator, a join is empty exactly when there are no parts or a single empty part |
| Strings.JoinEndsWithSep | render_portfolio.py:21-22 | a join of two or more parts whose last part is empty ends with the separator |
| Strings.Take | generate_summaries.py:24-25 | `xs[:n]` is the prefix of length `min(|xs|, n)` |
| Strings.EndsTerminal | generate_summaries.py:42 | `endswith(('.', '!', '?'))`: the text is non-empty and its last character is one of the three; Punctuate's contract uses it |
| Strings.IntToString | render_portfolio.py:13 | `str(n)` is non-empty; IntToStringRoundTrip gives its digits and sign |
| Strings.IntToStringRoundTrip | render_portfolio.py:13 | `str(n)` is an optional minus sign followed by digits, and it reads back as `n` |
| Summaries.Slots | generate_summaries.py:21-27 | the slots hold: the name, or `""`; the language, or `mixed` when it is absent or empty; the first eight topics joined by `", "`; the first `min(len(description), 180)` characters of the description; and `truncate_tokens(clean_text(readme), 800)`, at most 800 characters |
| Summaries.FillTemplate | generate_summaries.py:8-17 | the filled template starts with the fixed introduction and ends with `Blurb:` |
| Summaries.BuildPrompt | generate_summaries.py:21-27 | the prompt starts with the introduction and ends with `Blurb:` |
| Summaries.PromptLanguageLine | generate_summaries.py:11-23 | the language line sits right after the introduction and the name line, and reads `mixed` when the language is missing or empty |
| Summaries.Segment | generate_summaries.py:38-40 | the extracted segment has no whitespace at either end |
| Summaries.SegmentSource | generate_summaries.py:38-40 | the segment is cut from the text after the last `Blurb:`; no marker follows it, and without any marker it is the whole output |
| Summaries.SegmentClean | generate_summaries.py:38-40 | the segment contains neither `Blurb:` nor two consecutive line feeds (`\n\n`) |
| Summaries.Punctuate | generate_summaries.py:42-43 | the result ends in `.`, `!` or `?`; a segment that already does is returned unchanged; otherwise exactly one `.` is appended |
| Summaries.ExtractBlurb | generate_summaries.py:38-44 | the blurb ends in terminal punctuation and has no whitespace at its ends; an empty segment gives `.` |
| Summaries.ExtractBlurbClean | generate_summaries.py:38-44 | the blurb contains neither `Blurb:` nor two consecutive line feeds (`\n\n`) |
| Summaries.ExtractBlurbIdempotent | generate_summaries.py:38-44 | extracting from an extracted blurb gives it back unchanged |
| Summaries.ExtractAfterPrompt | generate_summaries.py:21-44 | the decoded text echoes the prompt, which ends in `Blurb:`; for every continuation, including one that writes `Blurb:` again, the blurb comes from the continuation alone |
| Summaries.GenerateBlurb | generate_summaries.py:19-44 | every generated blurb ends in terminal punctuation and has no whitespace at its ends |
| Summaries.OutputRecord | generate_summaries.py:66-73 | the output record copies name, `html_url` as `url`, `stargazers_count` as `stars`, `language` as `lang` and topics, and carries the blurb |
| Summaries.MissingKey | generate_summaries.py:68-73 | no key is reported exactly when all five copied keys are present |
| Summaries.MissingKeyFirst | generate_summaries.py:68-73 | a reported key is the first absent one in the order the dict literal reads them: name, html_url, stargazers_count, language, topics |
| Summaries.SummarizeRepos | generate_summaries.py:64-74 | the loop succeeds exactly when every record has the copied keys. On success there is one output record per input, in input order, copying its fields and carrying its blurb. On failure it names the first record lacking a key, and that key |
| Summaries.SummarizeWithModel | generate_summaries.py:64-74 | the run with the model: success exactly when every record has the copied keys; on success one record per input, in order, copying its fields, with the `i`-th blurb generated by the `i`-th model call and ending in terminal punctuation; on failure the first record lacking a key, and that key |
| Render.DateLine | render_portfolio.py:9 | the italic date entry `_Auto-generated on <date>_`; DocumentHeader places it third |
| Render.Header | render_portfolio.py:6-11 | the four entries `lines` starts with; DocumentHeader and EmptyDocument carry its contract |
| Render.StarsPart | render_portfolio.py:13 | the stars part is empty exactly when the count is zero |
| Render.StarsRoundTrip | render_portfolio.py:13 | a non-zero stars part is the star mark followed by a number that reads back as the count |
| Render.TopicsPart | render_portfolio.py:14 | the first six topics joined with `, `; TopicsPartEmptyIff says when it is empty |
| Render.NonEmpty | render_portfolio.py:15 | the filter keeps only non-empty parts and is empty exactly when every part is empty; NonEmptyConcat and NonEmptySingle show it keeps exactly the non-empty parts, in order |
| Render.NonEmptyConcat | render_portfolio.py:15 | filtering a concatenation is the concatenation of the filtered halves, so the order of the parts is kept |
| Render.NonEmptySingle | render_portfolio.py:15 | a single part is kept exactly when it is non-empty |
| Render.MetaParts | render_portfolio.py:13-15 | the non-empty parts among language, stars and topics; MetaPartsOrder gives them in order |
| Render.MetaPartsOrder | render_portfolio.py:13-15 | the metadata parts are language, stars and topics, in that order, each only when not empty |
| Render.MetaAllParts | render_portfolio.py:13-15 | with all three parts present the metadata reads `lang · ⭐ N · topics` |
| Render.Meta | render_portfolio.py:15 | the non-empty parts joined with ` · `; MetaPartsOrder and MetaAllParts give its shape |
| Render.MetaLine | render_portfolio.py:18 | the metadata in bold, `**<meta>**`; ItemLinesShape places it second in an item's entries |
| Render.MetaLines | render_portfolio.py:17-18 | the bold metadata entry, only when the metadata is non-empty; MetaPresentIff says when |
| Render.TopicsPartEmptyIff | render_portfolio.py:14 | the topics part is empty exactly when there are no topics or the only topic is empty |
| Render.MetaPresentIff | render_portfolio.py:13-18 | the bold metadata line is present exactly when the language is non-empty, the star count is non-zero or the topics part is non-empty |
| Render.ToMd | render_portfolio.py:5-22 | the page is the `lines` list, the header entries and then each item's entries in order, joined with newlines; it ends in a newline |
| Render.Heading | render_portfolio.py:16 | the heading entry `## [name](url)`; ItemLinesShape and HeadingAt place it first in an item's entries |
| Render.ItemLines | render_portfolio.py:16-21 | the entries one item adds to `lines`; ItemLinesShape gives their number and contents |
| Render.DocumentLines | render_portfolio.py:6-21 | the whole `lines` list: header, then each item's entries in order; ToMd is proved to join exactly this list |
| Render.ItemLinesShape | render_portfolio.py:16-21 | an item adds 5 entries to `lines` with metadata and 4 without: the heading first, the bold metadata entry second when present, and the blurb between two empty entries |
| Render.ItemsLinesCount | render_portfolio.py:12-21 | the items add the sum of their per-item entry counts to `lines` |
| Render.DocumentLineCount | render_portfolio.py:6-21 | the `lines` list has 4 header entries plus the per-item entry counts |
| Render.DocumentHeader | render_portfolio.py:6-11 | the `lines` list always starts with the title, an empty entry, the date line and an empty entry |
| Render.EmptyDocument | render_portfolio.py:6-12 | with no items the `lines` list is exactly the header, and none of its entries is a `## ` heading |
| Render.HeadingAt | render_portfolio.py:12-16 | the entry of `lines` where item `k`'s block starts is the heading `## [name](url)` |
| Render.HeadingsInOrder | render_portfolio.py:12-16 | an earlier item's block starts at least four entries of `lines` before a later item's, so the headings appear in input order |
| Render.DocumentEndsEmpty | render_portfolio.py:21 | the last entry of `lines` is always empty |

## Left out

- `fetch_github.py` is not part of this model. It is HTTP client code: paging, status checks, base64 decoding, pacing and the token header. Its record layout is kept as `Records.RepoRecord`.
- `set_seed` is left out. It seeds global random generators.
- Tokenizer and model loading, device placement, sampling and decoding are left out. They are foreign and stochastic code. The decoded text is the output of a `LanguageModel` parameter, which takes the prompt and the index of the call, since the seeded random state advances from call to call.
- `SummarizeRepos` takes the blurb source as a function parameter. Generation happens before the keys are read, so when a key is missing, the blurb for that record has already been generated. Generation has no visible effect in the model, so this order is not observable.
- The per-record progress `print` and the final `print` are left out. The `__main__` blocks are left out too: argument parsing, JSON loading and dumping, directory creation and file writes.
- `datetime.date.today()` is not modelled. The ISO date string is a parameter of `Render.ToMd`.
- JSON `null` values are not modelled. A repository field is either present with a value or absent:
  - the collector writes `""` in place of a null description, language or README;
  - a null star count is copied through by the summarizer and shows no stars part on the page, since `it.get("stars", 0)` then yields `None`, which is falsy; the model has integer counts only;
  - a null `topics` list makes the summarizer raise at generate_summaries.py:24, where it is sliced; the model does not cover that.
- Blurb extraction cuts only at two consecutive line feeds (`\n\n`), as generate_summaries.py:40 does. A line holding only spaces, or a `\r\n\r\n` pair, is not a cut point, so such a line can stay inside a blurb although Markdown reads it as a blank line.
- The `lines` list is modelled entry by entry. An entry can itself hold a single `\n`, because a blurb is only cut at `\n\n` and a name or topic may contain one. So entry counts and positions are not counts or positions of physical lines of the page.
- `Render.ToMd` takes `BlurbRecord` values with all six keys, as the summarizer writes them. The `.get` defaults of `to_md` for missing `stars`, `topics` and `lang` are therefore not exercised. A missing `name`, `url` or `blurb` would raise `KeyError`; that is not modelled.
- The Python regular expression engine is not modelled. The two substitutions of `clean_text` are written as recursive functions with the same left-to-right, maximal-run behaviour.
- Strings are sequences of code points. Differences between UTF-16 and code-point lengths in slicing are not modelled.
- `Render.MetaPresentIff`: the condition is stated with the joined topics part and not with "the topic list is non-empty". That is what the code tests, at render_portfolio.py:14-15; the two disagree for a topic list `[""]`, which gives no metadata line.
- `TextUtils.CleanTextCrLf` and `TextUtils.CleanTextCollapsesRun` are stated for two arbitrary visible characters around the line breaks, not for every string.
