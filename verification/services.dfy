/**
 * The statistics service: turns the client's contributor entries into
 * per-contributor summaries by adding up their weeks.
 */
module Services {
  import opened Wrappers
  import Raw = ClientModel
  import opened CoreModel
  import Client
  import opened SeqFacts

  /** The weekly count a total adds up. */
  datatype WeekField = Commits | Additions | Deletions

  function FieldOf(week: Raw.WeekStatistics, field: WeekField): int {
    match field
    case Commits => week.commits
    case Additions => week.additions
    case Deletions => week.deletions
  }

  /** The sum of one weekly count over the weeks, as LINQ `Sum` adds them up. */
  function Total(weeks: seq<Raw.WeekStatistics>, field: WeekField): int {
    if |weeks| == 0 then 0 else FieldOf(weeks[0], field) + Total(weeks[1..], field)
  }

  /** The lines a week touched: its additions plus its deletions. */
  function Churn(weeks: seq<Raw.WeekStatistics>): int {
    if |weeks| == 0 then 0 else weeks[0].additions + weeks[0].deletions + Churn(weeks[1..])
  }

  /** The summary of one contributor entry. The payload's own `total` is not read. */
  function Summarize(contributor: Raw.ContributorStatistics): (s: ContributorStatistics)
    ensures s.username == Some(contributor.author.login)
    ensures s.linesAdded + s.linesDeleted == Churn(contributor.weeks)
    ensures contributor.weeks == [] ==> s.totalCommits == 0 && s.linesAdded == 0 && s.linesDeleted == 0
  {
    TotalsMakeChurn(contributor.weeks);
    ContributorStatistics(
      Some(contributor.author.login),
      Total(contributor.weeks, Commits),
      Total(contributor.weeks, Additions),
      Total(contributor.weeks, Deletions))
  }

  /** One summary per entry, in the entries' order. */
  function Summaries(raw: seq<Raw.ContributorStatistics>): (r: seq<ContributorStatistics>)
    ensures |r| == |raw|
    ensures forall i :: 0 <= i < |raw| ==> r[i] == Summarize(raw[i])
  {
    if |raw| == 0 then [] else [Summarize(raw[0])] + Summaries(raw[1..])
  }

  /** Adding up one more week at the end. */
  lemma {:induction false} TotalAppend(weeks: seq<Raw.WeekStatistics>, more: seq<Raw.WeekStatistics>, field: WeekField)
    ensures Total(weeks + more, field) == Total(weeks, field) + Total(more, field)
    decreases |weeks|
  {
    if |weeks| > 0 {
      assert (weeks + more)[1..] == weeks[1..] + more;
      TotalAppend(weeks[1..], more, field);
    } else {
      assert weeks + more == more;
    }
  }

  /** A total taken after removing the week at `i` differs from the whole total by that week's count. */
  lemma TotalRemove(weeks: seq<Raw.WeekStatistics>, i: nat, field: WeekField)
    requires i < |weeks|
    ensures Total(weeks, field) == FieldOf(weeks[i], field) + Total(weeks[..i] + weeks[i + 1..], field)
  {
    SplitAt(weeks, i);
    TotalAppend(weeks[..i] + [weeks[i]], weeks[i + 1..], field);
    TotalAppend(weeks[..i], [weeks[i]], field);
    TotalAppend(weeks[..i], weeks[i + 1..], field);
  }

  /** A total does not depend on the order of the weeks. */
  lemma {:induction false} TotalPermutation(weeks: seq<Raw.WeekStatistics>, reordered: seq<Raw.WeekStatistics>, field: WeekField)
    requires multiset(weeks) == multiset(reordered)
    ensures Total(weeks, field) == Total(reordered, field)
    decreases |weeks|
  {
    if |weeks| > 0 {
      var i := IndexOf(reordered, weeks[0]);
      var rest := reordered[..i] + reordered[i + 1..];
      assert multiset(weeks[1..]) == multiset(rest) by {
        RemoveAt(reordered, i);
        RemoveFirst(weeks);
      }
      TotalPermutation(weeks[1..], rest, field);
      TotalRemove(reordered, i, field);
    } else {
      assert |multiset(reordered)| == 0;
    }
  }

  /** Lines added plus lines deleted is the per-week churn added up. */
  lemma {:induction false} TotalsMakeChurn(weeks: seq<Raw.WeekStatistics>)
    ensures Total(weeks, Additions) + Total(weeks, Deletions) == Churn(weeks)
    decreases |weeks|
  {
    if |weeks| > 0 {
      TotalsMakeChurn(weeks[1..]);
    }
  }

  /** Weeks whose counts are all zero or more give totals that are zero or more. */
  lemma {:induction false} TotalNonNegative(weeks: seq<Raw.WeekStatistics>, field: WeekField)
    requires forall w :: w in weeks ==> FieldOf(w, field) >= 0
    ensures Total(weeks, field) >= 0
    decreases |weeks|
  {
    if |weeks| > 0 {
      assert weeks[0] in weeks;
      assert forall w :: w in weeks[1..] ==> w in weeks;
      TotalNonNegative(weeks[1..], field);
    }
  }

  /** Summaries of a concatenation are the concatenated summaries. */
  lemma {:induction false} SummariesAppend(raw: seq<Raw.ContributorStatistics>, more: seq<Raw.ContributorStatistics>)
    ensures Summaries(raw + more) == Summaries(raw) + Summaries(more)
  {
    var left := Summaries(raw + more);
    var right := Summaries(raw) + Summaries(more);
    assert |left| == |right|;
    forall i | 0 <= i < |left|
      ensures left[i] == right[i]
    {
      if i < |raw| {
        assert (raw + more)[i] == raw[i];
      } else {
        assert (raw + more)[i] == more[i - |raw|];
      }
    }
  }

  /**
   * A summary carries the contributor's login and the totals of its weeks,
   * whatever order the weeks come in and whatever the payload's `total` says.
   */
  lemma SummaryOfEntry(contributor: Raw.ContributorStatistics, other: Raw.ContributorStatistics)
    requires other.author.login == contributor.author.login
    requires multiset(other.weeks) == multiset(contributor.weeks)
    ensures Summarize(other) == Summarize(contributor)
  {
    TotalPermutation(other.weeks, contributor.weeks, Commits);
    TotalPermutation(other.weeks, contributor.weeks, Additions);
    TotalPermutation(other.weeks, contributor.weeks, Deletions);
  }

  /** A contributor without weeks has zero commits and zero lines. */
  lemma NoWeeksNoLines(contributor: Raw.ContributorStatistics)
    requires contributor.weeks == []
    ensures var s := Summarize(contributor);
            s.totalCommits == 0 && s.linesAdded == 0 && s.linesDeleted == 0 && s.LinesChanged() == 0
  {
  }

  /**
   * The lines-changed count of a summary is the weeks' churn added up, as
   * long as that fits in an int32.
   */
  lemma SummaryLinesChanged(contributor: Raw.ContributorStatistics)
    requires InInt32(Churn(contributor.weeks))
    ensures Summarize(contributor).LinesChanged() == Churn(contributor.weeks)
  {
    TotalsMakeChurn(contributor.weeks);
  }

  /**
   * The entry of the client's sample response, a contributor with a payload
   * `total` of 15 and two weeks, sums to 15 commits, 11898 lines added, 127
   * deleted and 12025 changed.
   */
  lemma SampleSummary(contributor: Raw.ContributorStatistics, first: Raw.WeekStatistics, second: Raw.WeekStatistics)
    requires contributor.author.login == "octocat" && contributor.weeks == [first, second]
    requires first.additions == 6898 && first.deletions == 77 && first.commits == 10
    requires second.additions == 5000 && second.deletions == 50 && second.commits == 5
    ensures Summarize(contributor) == ContributorStatistics(Some("octocat"), 15, 11898, 127)
    ensures Summarize(contributor).LinesChanged() == 12025
  {
    var weeks := contributor.weeks;
    assert weeks[1..] == [second] && weeks[1..][1..] == [];
    forall field: WeekField
      ensures Total(weeks, field) == FieldOf(first, field) + FieldOf(second, field)
    {
      assert Total(weeks[1..], field) == FieldOf(second, field) + Total(weeks[1..][1..], field);
    }
    assert Total(weeks, Commits) == 15;
  }

  /**
   * The loop both service variants run: builds one summary per entry and
   * appends it to the repository's contributor list.
   */
  method AppendSummaries(repoStats: RepositoryStatistics, raw: seq<Raw.ContributorStatistics>)
    modifies repoStats
    ensures repoStats.contributors == old(repoStats.contributors) + Summaries(raw)
  {
    for i := 0 to |raw|
      invariant repoStats.contributors == old(repoStats.contributors) + Summaries(raw[..i])
    {
      var contributor := raw[i];
      var authorStats := ContributorStatistics(
        Some(contributor.author.login),
        Total(contributor.weeks, Commits),
        Total(contributor.weeks, Additions),
        Total(contributor.weeks, Deletions));
      SummariesAppend(raw[..i], [contributor]);
      PrefixSnoc(raw, i);
      repoStats.contributors := repoStats.contributors + [authorStats];
    }
    assert raw[..|raw|] == raw;
  }

  /** The service in front of the GitHub client. */
  class GitHubService {
    const gitHubClient: Client.GitHubClient

    constructor (gitHubClient: Client.GitHubClient)
      ensures this.gitHubClient == gitHubClient
    {
      this.gitHubClient := gitHubClient;
    }

    /**
     * Fetches the client's contributor entries and summarizes them into fresh
     * repository statistics; a failing client call fails the same way.
     */
    method GetContributorStatistics(owner: string, repository: string, token: Option<string>)
      returns (r: Result<RepositoryStatistics, Client.ClientError>)
      modifies gitHubClient`delays, gitHubClient.httpClient
      ensures var o := Client.Poll(gitHubClient.httpClient.server, |old(gitHubClient.httpClient.sent)|,
                                   gitHubClient.maxStatAttempts);
              && (o.result.Failure? ==> r == Failure(o.result.error))
              && (o.result.Success? ==> r.Success? && fresh(r.value) && r.value.contributors == Summaries(o.result.value))
              && gitHubClient.httpClient.sent
                 == old(gitHubClient.httpClient.sent)
                    + Client.Repeat(Client.HttpRequest(Client.StatsUri(owner, repository), gitHubClient.httpClient.authorization),
                                    o.requests)
              && gitHubClient.delays == old(gitHubClient.delays) + Client.Repeat(gitHubClient.retryDelay, o.delays)
      ensures gitHubClient.httpClient.authorization
              == if Client.TokenHeader(token).Some? then Client.TokenHeader(token) else old(gitHubClient.httpClient.authorization)
    {
      var gitHubStats := gitHubClient.GetContributorStatistics(owner, repository, token);
      if gitHubStats.Failure? {
        return Failure(gitHubStats.error);
      }
      var repoStats := new RepositoryStatistics();
      AppendSummaries(repoStats, gitHubStats.value);
      return Success(repoStats);
    }
  }
}
