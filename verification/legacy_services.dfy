/**
 * The older statistics service. It builds its own GitHub client, with the
 * default attempt limit and delay, for every call, and then summarizes the
 * entries with the same loop as the current service.
 */
module LegacyServices {
  import opened Wrappers
  import opened CoreModel
  import Client
  import Services

  /**
   * The older service's only operation. Its client is created inside the
   * call, so the transport that client uses is passed in.
   */
  method GetContributorStatistics(httpClient: Client.HttpClient, owner: string, repository: string, token: Option<string>)
    returns (r: Result<RepositoryStatistics, Client.ClientError>)
    modifies httpClient
    ensures var o := Client.Poll(httpClient.server, |old(httpClient.sent)|, Client.DefaultMaxStatAttempts);
            && (o.result.Failure? ==> r == Failure(o.result.error))
            && (o.result.Success? ==> r.Success? && fresh(r.value)
                                      && r.value.contributors == Services.Summaries(o.result.value))
            && httpClient.sent
               == old(httpClient.sent)
                  + Client.Repeat(Client.HttpRequest(Client.StatsUri(owner, repository), httpClient.authorization), o.requests)
    ensures httpClient.authorization
            == if Client.TokenHeader(token).Some? then Client.TokenHeader(token) else old(httpClient.authorization)
  {
    var gitHubClient := new Client.GitHubClient(httpClient);
    var gitHubStats := gitHubClient.GetContributorStatistics(owner, repository, token);
    if gitHubStats.Failure? {
      return Failure(gitHubStats.error);
    }
    var repoStats := new RepositoryStatistics();
    Services.AppendSummaries(repoStats, gitHubStats.value);
    return Success(repoStats);
  }
}
