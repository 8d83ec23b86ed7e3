/** The records the statistics endpoint's JSON body decodes into. They hold no logic. */
module ClientModel {
  import opened Wrappers
  import UnixTime

  /** The GitHub account a contributor entry belongs to. */
  datatype Author = Author(
    login: string,
    id: int,
    nodeId: Option<string>,
    avatarUrl: Option<string>,
    gravatarId: Option<string>,
    url: Option<string>,
    htmlUrl: Option<string>,
    followersUrl: Option<string>,
    followingUrl: Option<string>,
    gistsUrl: Option<string>,
    starredUrl: Option<string>,
    subscriptionsUrl: Option<string>,
    organizationsUrl: Option<string>,
    reposUrl: Option<string>,
    eventsUrl: Option<string>,
    receivedEventsUrl: Option<string>,
    userType: Option<string>,
    siteAdmin: bool)

  /** One week of activity: `w` (decoded by the Unix timestamp converter), `a`, `d` and `c`. */
  datatype WeekStatistics = WeekStatistics(startDate: UnixTime.DateTime, additions: int, deletions: int, commits: int)

  /** One element of the response array: the author, the payload's own `total` and the weeks. */
  datatype ContributorStatistics = ContributorStatistics(author: Author, totalCommits: int, weeks: seq<WeekStatistics>)
}
