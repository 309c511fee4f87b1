/** The records the synchronisation engine stores, one datatype per JSON
    object shape. A field of type `Option` is a key that may be absent (or
    null) in the stored object; every other field is always written. */
module Records {
  import opened Text

  /** One `[login, createdAt]` pair of a comment or review-comment list. */
  datatype Comment = Comment(login: Option<string>, createdAt: Option<string>)

  /** One element of a PR's `files` list. */
  datatype FileChange = FileChange(filename: string, status: string, additions: int, deletions: int, changes: int)

  /** The detail keys that enrichment attaches to an issue or PR record. */
  datatype Detail = Detail(
    commits: Option<seq<string>>,
    files: Option<seq<FileChange>>,
    commentBy: Option<seq<Comment>>,
    reviewBy: Option<seq<Comment>>)

  const NoDetail: Detail := Detail(None, None, None, None)

  /** The keys only an issue carries, or only a PR carries. */
  datatype Payload =
    | IssueFields(closedBy: Option<string>, labels: seq<string>)
    | PullFields(merged: bool, mergedBy: Option<string>, additions: int, deletions: int, changedFiles: int)

  /** An issue or pull-request record. `tag` is the `"type"` key: the GraphQL
      typename while the record travels from the search to the store, absent
      once the store has popped it, and the PR classification label once a PR
      is stored. */
  datatype Item = Item(
    repo: string,
    tag: Option<string>,
    number: int,
    title: string,
    body: Option<string>,
    state: string,
    user: Option<string>,
    createdAt: string,
    updatedAt: string,
    closedAt: Option<string>,
    payload: Payload,
    detail: Detail)

  /** A repository record; `watchers` and `domain` are keys added after the listing. */
  datatype Repo = Repo(
    fullName: string,
    isPrivate: bool,
    description: Option<string>,
    fork: bool,
    createdAt: string,
    updatedAt: string,
    archived: bool,
    stars: int,
    forks: int,
    language: Option<string>,
    topics: seq<string>,
    watchers: Option<int>,
    domain: Option<string>)

  /** A commit record: `author`, `author_email` and `message` may be absent or null. */
  datatype Commit = Commit(
    sha: string,
    author: Option<string>,
    authorEmail: Option<string>,
    message: Option<string>,
    files: seq<string>,
    whyWhatLabel: Option<string>)
}
