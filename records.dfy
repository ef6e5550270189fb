/** The records the pipeline stages pass to each other as JSON. */
module Records {
  import opened Wrappers

  /** A repository record as the collector writes it, seen as a JSON object:
      each field is `None` when its key is absent. Only the keys the
      summarizer reads are kept. */
  datatype RepoRecord = RepoRecord(
    name: Option<string>,
    htmlUrl: Option<string>,
    description: Option<string>,
    stargazersCount: Option<int>,
    language: Option<string>,
    topics: Option<seq<string>>,
    readme: Option<string>)

  /** A blurb record as the summarizer writes it and the renderer reads it. */
  datatype BlurbRecord = BlurbRecord(
    name: string,
    url: string,
    blurb: string,
    stars: int,
    lang: string,
    topics: seq<string>)
}
