/** Values exchanged between the crawl engine and its collaborators: the
    organisation's repository listing, commit pages, membership responses,
    and the errors the engine raises. HTTP, JSON decoding and the clock are
    replaced by these values and by the oracles carried in `TimeWindow`. */
module Types {

  datatype Option<+T> = None | Some(value: T)

  datatype Result<+T> = Ok(value: T) | Err(error: Error)

  /** HTTP status codes the engine distinguishes. */
  const NotFound: int := 404
  const Conflict: int := 409

  /** The errors the engine raises; each names what failed. */
  datatype Error =
    | MalformedTimestamp(text: string)
    | EmptyRepository(url: string)
    | CommitFetchFailed(url: string, status: Option<int>)
    | NetworkUnreachable(user: string, status: Option<int>)

  /** One entry of the organisation listing: the repository's API URL and
      its last-push time, still as RFC 3339 text. */
  datatype Repo = Repo(url: string, pushedAt: string)

  /** An account reference on a commit; either field may be missing. */
  datatype Author = Author(login: Option<string>, htmlUrl: Option<string>)

  /** The git metadata of a commit: author and committer dates as text. */
  datatype CommitMeta = CommitMeta(authorDate: string, committerDate: string)

  datatype Commit = Commit(meta: Option<CommitMeta>, author: Option<Author>, committer: Option<Author>)

  /** What one request for a commit page yields: the decoded page, or an
      HTTP/transport failure with its status when there is one. */
  datatype FetchOutcome = Fetched(commits: seq<Commit>) | HttpError(status: Option<int>)

  /** What one membership request yields: a 2xx answer, or a failure with
      its status when there is one. */
  datatype MembershipResponse = Member | HttpFailure(status: Option<int>)

  /** The clock and the date parser, fixed for one run: `parse` turns
      RFC 3339 text into an instant (normalised to UTC), or fails; `now` is
      the instant of the run; `length` is the trailing window, in the same
      unit as the instants. */
  datatype TimeWindow = TimeWindow(parse: string -> Option<int>, now: int, length: int)
  {
    /** An instant lies in the window when it is at most `length` before now. */
    predicate Contains(instant: int) {
      now - instant <= length
    }
  }
}
